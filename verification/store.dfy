/** The persistence collaborator: a collection of user-to-notebook mappings,
    read and written by the user's email. The collection is a map keyed by
    email because every write selects its document by `user_email`; a store
    that never connected answers every call with "nothing" or `false`. A
    storage failure inside a write (an exception caught by the handler) is the
    `engine` parameter. */
module Store {
  import opened Common
  import opened Models

  datatype Db = Db(connected: bool, docs: map<Email, UserNotebook>)

  /** The result of a write: the flag the handler returns and the new store. */
  datatype Write = Write(ok: bool, db: Db)

  /** Every mapping sits under its own user's email. */
  predicate Wf(db: Db)
  {
    forall e :: e in db.docs ==> db.docs[e].userEmail == e
  }

  /** The mapping stored for `email`, if the store is connected and has one. */
  function GetUserNotebook(db: Db, email: Email): (r: Option<UserNotebook>)
    ensures !db.connected ==> r.None?
    ensures r.Some? <==> db.connected && email in db.docs
    ensures r.Some? ==> r.value == db.docs[email]
    ensures Wf(db) && r.Some? ==> r.value.userEmail == email
  {
    if !db.connected then None
    else if email in db.docs then Some(db.docs[email])
    else None
  }

  /** Insert-or-replace keyed by the notebook's own email. */
  function SaveUserNotebook(db: Db, nb: UserNotebook, engine: Outcome): (w: Write)
    ensures w.ok <==> db.connected && engine.Success?
    ensures !w.ok ==> w.db == db
    ensures w.ok ==> w.db.connected && w.db.docs.Keys == db.docs.Keys + {nb.userEmail}
    ensures w.ok ==> forall e :: e in db.docs && e != nb.userEmail ==> w.db.docs[e] == db.docs[e]
    ensures Wf(db) ==> Wf(w.db)
  {
    if !db.connected then Write(false, db)
    else if engine.Failure? then Write(false, db)
    else Write(true, db.(docs := db.docs[nb.userEmail := nb]))
  }

  /** Appends `source` to the mapping of `email` and moves its `updatedAt` to
      the source's time. A missing mapping is left missing, and the handler
      still reports success: the update has no upsert and its match count is
      not inspected. */
  function AddSourceToNotebook(db: Db, email: Email, source: NotebookSource, engine: Outcome): (w: Write)
    ensures w.ok <==> db.connected && engine.Success?
    ensures w.db.connected == db.connected && w.db.docs.Keys == db.docs.Keys
    ensures email !in db.docs ==> w.db == db
    ensures !w.ok ==> w.db == db
    ensures w.ok && email in db.docs ==>
      var before := db.docs[email];
      var after := w.db.docs[email];
      && after.sources == before.sources + [source]
      && after.updatedAt == source.addedAt
      && after == before.(sources := after.sources, updatedAt := after.updatedAt)
    ensures forall e :: e in db.docs && e != email ==> w.db.docs[e] == db.docs[e]
    ensures Wf(db) ==> Wf(w.db)
  {
    if !db.connected || engine.Failure? || email !in db.docs then Write(db.connected && engine.Success?, db)
    else
      var nb := db.docs[email];
      Write(true, db.(docs := db.docs[email := nb.(sources := nb.sources + [source], updatedAt := source.addedAt)]))
  }

  /** Removes the mapping of `email`; true exactly when one was removed. */
  function DeleteUserNotebook(db: Db, email: Email, engine: Outcome): (w: Write)
    ensures w.ok <==> db.connected && engine.Success? && email in db.docs
    ensures db.connected && engine.Success? ==> w.db.docs == db.docs - {email}
    ensures !(db.connected && engine.Success?) ==> w.db == db
    ensures w.db.connected == db.connected
    ensures Wf(db) ==> Wf(w.db)
  {
    if !db.connected || engine.Failure? then Write(false, db)
    else Write(email in db.docs, db.(docs := db.docs - {email}))
  }

  /** Every stored mapping, once each, in some order (`order` names the key each
      element was read under); nothing when the store is not connected. */
  method ListAllNotebooks(db: Db) returns (r: seq<UserNotebook>, ghost order: seq<Email>)
    ensures !db.connected ==> r == []
    ensures db.connected ==> |r| == |db.docs|
    ensures db.connected ==> forall e :: e in db.docs ==> db.docs[e] in r
    ensures forall n :: n in r ==> n in db.docs.Values
    ensures |order| == |r|
    ensures forall i :: 0 <= i < |r| ==> order[i] in db.docs && r[i] == db.docs[order[i]]
    ensures forall i, j :: 0 <= i < j < |order| ==> order[i] != order[j]
  {
    r, order := [], [];
    if !db.connected {
      return;
    }
    var rest := db.docs.Keys;
    while rest != {}
      invariant rest <= db.docs.Keys
      invariant |order| == |r| && |order| + |rest| == |db.docs.Keys|
      invariant forall i :: 0 <= i < |r| ==> order[i] in db.docs && r[i] == db.docs[order[i]]
      invariant forall i :: 0 <= i < |order| ==> order[i] !in rest
      invariant forall e :: e in db.docs && e !in rest ==> e in order
      invariant forall i, j :: 0 <= i < j < |order| ==> order[i] != order[j]
      decreases rest
    {
      var k :| k in rest;
      r, order := r + [db.docs[k]], order + [k];
      rest := rest - {k};
    }
    forall e | e in db.docs
      ensures db.docs[e] in r
    {
      var i :| 0 <= i < |order| && order[i] == e;
      assert r[i] == db.docs[e];
    }
  }

  /** A saved mapping is what the next read of its email returns. */
  lemma SaveThenGet(db: Db, nb: UserNotebook, engine: Outcome)
    requires db.connected && engine.Success?
    ensures GetUserNotebook(SaveUserNotebook(db, nb, engine).db, nb.userEmail) == Some(nb)
  {
  }

  /** Saving one user's mapping does not change what any other user reads. */
  lemma SaveFrame(db: Db, nb: UserNotebook, engine: Outcome, other: Email)
    requires other != nb.userEmail
    ensures GetUserNotebook(SaveUserNotebook(db, nb, engine).db, other) == GetUserNotebook(db, other)
  {
  }

  /** Saving twice for one email leaves a single mapping: the last one. */
  lemma SaveTwiceKeepsOne(db: Db, a: UserNotebook, b: UserNotebook, engine: Outcome)
    requires db.connected && engine.Success? && a.userEmail == b.userEmail
    ensures var db2 := SaveUserNotebook(SaveUserNotebook(db, a, engine).db, b, engine).db;
      db2.docs == db.docs[b.userEmail := b] && |db2.docs| <= |db.docs| + 1
  {
    var db2 := SaveUserNotebook(SaveUserNotebook(db, a, engine).db, b, engine).db;
    assert db2.docs.Keys == db.docs.Keys + {b.userEmail};
  }

  /** After a delete that reached the store, no mapping is read for that email. */
  lemma DeleteThenGet(db: Db, email: Email, engine: Outcome)
    requires db.connected && engine.Success?
    ensures GetUserNotebook(DeleteUserNotebook(db, email, engine).db, email).None?
  {
  }

  /** A store that is not connected answers every call the same way and never changes. */
  lemma DisconnectedIsInert(db: Db, email: Email, nb: UserNotebook, source: NotebookSource, engine: Outcome)
    requires !db.connected
    ensures GetUserNotebook(db, email).None?
    ensures SaveUserNotebook(db, nb, engine) == Write(false, db)
    ensures AddSourceToNotebook(db, email, source, engine) == Write(false, db)
    ensures DeleteUserNotebook(db, email, engine) == Write(false, db)
  {
  }
}

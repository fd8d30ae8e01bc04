/** Properties of `save` and `findById`, for one call and along a history of saves. */
module StoreLemmas {
  import opened Wrappers
  import opened DocumentManager

  /** A new document gets the fresh id and the current time, and is found under that id. */
  lemma SaveNewDocument(store: Store, doc: Document, freshId: string, now: Instant)
    requires doc.id.None?
    requires freshId !in store
    ensures var r := Save(store, doc, freshId, now);
      && r.doc.id == Some(freshId)
      && r.doc.created == Some(now)
      && FindById(r.store, freshId) == Some(r.doc)
      && |r.store| == |store| + 1
  {
  }

  /**
   The generated id is not checked against the store: if it collides, the
   stored document is replaced and its creation time is lost.
   */
  lemma FreshIdCollisionReplaces(store: Store, doc: Document, freshId: string, now: Instant)
    requires doc.id.None?
    requires freshId in store
    ensures var r := Save(store, doc, freshId, now);
      && r.doc.id == Some(freshId)
      && r.store[freshId] == r.doc
      && r.store[freshId].created == Some(now)
      && |r.store| == |store|
  {
  }

  /** Re-saving a stored id replaces the fields but keeps the stored creation time, whatever the input carries. */
  lemma SaveExistingKeepsCreated(store: Store, doc: Document, freshId: string, now: Instant)
    requires doc.id.Some? && doc.id.value in store
    ensures var r := Save(store, doc, freshId, now);
      && r.doc == doc.(created := store[doc.id.value].created)
      && FindById(r.store, doc.id.value) == Some(r.doc)
      && |r.store| == |store|
  {
  }

  /** A caller-chosen id not yet stored: the document is stored exactly as given, `created` included. */
  lemma SaveCallerIdStoresAsGiven(store: Store, doc: Document, freshId: string, now: Instant)
    requires doc.id.Some? && doc.id.value !in store
    ensures var r := Save(store, doc, freshId, now);
      && r.doc == doc
      && FindById(r.store, doc.id.value) == Some(doc)
      && |r.store| == |store| + 1
  {
  }

  /** Round trip: the saved document is found under its id, and every other id finds what it found before. */
  lemma SaveThenFind(store: Store, doc: Document, freshId: string, now: Instant)
    ensures var r := Save(store, doc, freshId, now);
      && FindById(r.store, r.doc.id.value) == Some(r.doc)
      && forall id :: id != r.doc.id.value ==> FindById(r.store, id) == FindById(store, id)
  {
  }

  /** Saving the returned document again changes nothing, whatever id and time are on offer. */
  lemma SaveIdempotent(store: Store, doc: Document, freshId: string, now: Instant, freshId': string, now': Instant)
    ensures var r := Save(store, doc, freshId, now);
      Save(r.store, r.doc, freshId', now') == r
  {
  }

  /** A stored creation time survives any save that does not collide on a generated id. */
  lemma SaveKeepsStoredCreated(store: Store, doc: Document, freshId: string, now: Instant, key: string)
    requires key in store
    requires doc.id.Some? || freshId !in store
    ensures var r := Save(store, doc, freshId, now);
      key in r.store && r.store[key].created == store[key].created
  {
  }

  /** Stored documents carry their own key as id, before and after a save. */
  lemma SavePreservesKeyed(store: Store, doc: Document, freshId: string, now: Instant)
    requires Keyed(store)
    ensures Keyed(Save(store, doc, freshId, now).store)
  {
  }

  /** Every stored document keeps having a creation time unless a new caller-chosen id arrives without one. */
  lemma SavePreservesAllCreated(store: Store, doc: Document, freshId: string, now: Instant)
    requires AllCreated(store)
    requires doc.id.None? || doc.id.value in store || doc.created.Some?
    ensures AllCreated(Save(store, doc, freshId, now).store)
  {
  }

  /** One call of `save`, with the id and the time it would draw. */
  datatype SaveCall = SaveCall(doc: Document, freshId: string, now: Instant)

  /** The store after the calls, in order. */
  function Replay(store: Store, calls: seq<SaveCall>): Store
    decreases |calls|
  {
    if |calls| == 0 then store
    else Replay(Save(store, calls[0].doc, calls[0].freshId, calls[0].now).store, calls[1..])
  }

  /** No generated id collides with a key stored at the time it is drawn. */
  ghost predicate FreshAlong(store: Store, calls: seq<SaveCall>)
    decreases |calls|
  {
    |calls| == 0 ||
    ((calls[0].doc.id.Some? || calls[0].freshId !in store) &&
     FreshAlong(Save(store, calls[0].doc, calls[0].freshId, calls[0].now).store, calls[1..]))
  }

  /** Once a document is stored, its id stays stored and its creation time never changes. */
  lemma {:induction false} ReplayKeepsCreated(store: Store, calls: seq<SaveCall>, key: string)
    requires key in store
    requires FreshAlong(store, calls)
    ensures key in Replay(store, calls)
    ensures Replay(store, calls)[key].created == store[key].created
    decreases |calls|
  {
    if |calls| > 0 {
      var next := Save(store, calls[0].doc, calls[0].freshId, calls[0].now).store;
      SaveKeepsStoredCreated(store, calls[0].doc, calls[0].freshId, calls[0].now, key);
      ReplayKeepsCreated(next, calls[1..], key);
    }
  }

  /** Every document is stored under its own id, after any history of saves. */
  lemma {:induction false} ReplayKeepsKeyed(store: Store, calls: seq<SaveCall>)
    requires Keyed(store)
    ensures Keyed(Replay(store, calls))
    decreases |calls|
  {
    if |calls| > 0 {
      SavePreservesKeyed(store, calls[0].doc, calls[0].freshId, calls[0].now);
      ReplayKeepsKeyed(Save(store, calls[0].doc, calls[0].freshId, calls[0].now).store, calls[1..]);
    }
  }
}

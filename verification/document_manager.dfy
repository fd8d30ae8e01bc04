/**
 The in-memory document store: a map from document id to document, with an
 upsert (`Save`), an exact-key lookup (`FindById`) and a multi-criteria
 search (`Search`). Java `null` is `None`; the random UUID and the clock
 reading that `save` draws on are parameters; documents are immutable values.
 */
module DocumentManager {
  import opened Wrappers
  import opened Text

  /** A point on the time line (`java.time.Instant`), ordered as the integers. */
  type Instant = int

  datatype Author = Author(id: Option<string>, name: Option<string>)

  datatype Document = Document(
    id: Option<string>,
    title: Option<string>,
    content: Option<string>,
    author: Option<Author>,
    created: Option<Instant>
  )

  /** Each list criterion may be `null` or empty, and then does not filter. */
  datatype SearchRequest = SearchRequest(
    titlePrefixes: Option<seq<string>>,
    containsContents: Option<seq<string>>,
    authorIds: Option<seq<string>>,
    createdFrom: Option<Instant>,
    createdTo: Option<Instant>
  )

  type Store = map<string, Document>

  /** The store after a `save`, and the document `save` returned. */
  datatype Saved = Saved(store: Store, doc: Document)

  /** Every stored document carries the key it is stored under as its id. */
  ghost predicate Keyed(store: Store)
  {
    forall k :: k in store ==> store[k].id == Some(k)
  }

  /** Every stored document has a creation time. */
  ghost predicate AllCreated(store: Store)
  {
    forall k :: k in store ==> store[k].created.Some?
  }

  /**
   Upsert. A document without an id gets `freshId` and is stamped `now`; a
   document whose id is already stored keeps the stored creation time; a
   document with a caller-chosen id not yet stored is stored as given.
   */
  function Save(store: Store, doc: Document, freshId: string, now: Instant): (r: Saved)
    ensures r.doc.id.Some?
    ensures doc.id.Some? ==> r.doc.id == doc.id
    ensures r.doc.title == doc.title && r.doc.content == doc.content && r.doc.author == doc.author
    ensures r.store.Keys == store.Keys + {r.doc.id.value}
    ensures r.store[r.doc.id.value] == r.doc
    ensures forall k :: k in store && k != r.doc.id.value ==> r.store[k] == store[k]
  {
    if doc.id.None? then
      var d := doc.(id := Some(freshId), created := Some(now));
      Saved(store[freshId := d], d)
    else
      var key := doc.id.value;
      var d := if key in store then doc.(created := store[key].created) else doc;
      Saved(store[key := d], d)
  }

  /** Exact-key lookup; an unknown id yields `None`. */
  function FindById(store: Store, id: string): (r: Option<Document>)
    ensures r.Some? <==> id in store
    ensures r.Some? ==> r.value == store[id]
  {
    if id in store then Some(store[id]) else None
  }

  /** A list criterion that is `null` or empty. */
  predicate Unset(criterion: Option<seq<string>>)
  {
    criterion.None? || |criterion.value| == 0
  }

  predicate TitleMatches(doc: Document, titlePrefixes: Option<seq<string>>)
  {
    Unset(titlePrefixes) ||
    exists prefix :: prefix in titlePrefixes.value && doc.title.Some? && StartsWith(doc.title.value, prefix)
  }

  predicate ContentMatches(doc: Document, containsContents: Option<seq<string>>)
  {
    Unset(containsContents) ||
    exists part :: part in containsContents.value && doc.content.Some? && Contains(doc.content.value, part)
  }

  predicate AuthorMatches(doc: Document, authorIds: Option<seq<string>>)
  {
    Unset(authorIds) ||
    (doc.author.Some? && doc.author.value.id.Some? && doc.author.value.id.value in authorIds.value)
  }

  /** The range check reads the creation time whenever a bound is given. */
  predicate RangeDefined(doc: Document, createdFrom: Option<Instant>, createdTo: Option<Instant>)
  {
    doc.created.Some? || (createdFrom.None? && createdTo.None?)
  }

  /** Not before `createdFrom` and not after `createdTo`. */
  predicate CreatedInRange(doc: Document, createdFrom: Option<Instant>, createdTo: Option<Instant>)
    requires RangeDefined(doc, createdFrom, createdTo)
  {
    if createdFrom.Some? && doc.created.value < createdFrom.value then false
    else createdTo.None? || !(doc.created.value > createdTo.value)
  }

  /** The three filters applied before the range check. */
  predicate TextMatches(doc: Document, req: SearchRequest)
  {
    TitleMatches(doc, req.titlePrefixes) &&
    ContentMatches(doc, req.containsContents) &&
    AuthorMatches(doc, req.authorIds)
  }

  /**
   The filters run one after another on each document, so the range check
   (and its read of `created`) is reached only by documents the first three
   filters let through.
   */
  predicate SearchDefined(store: Store, req: SearchRequest)
  {
    forall k :: k in store && TextMatches(store[k], req) ==> RangeDefined(store[k], req.createdFrom, req.createdTo)
  }

  predicate Matches(doc: Document, req: SearchRequest)
    requires TextMatches(doc, req) ==> RangeDefined(doc, req.createdFrom, req.createdTo)
  {
    TextMatches(doc, req) && CreatedInRange(doc, req.createdFrom, req.createdTo)
  }

  /** The documents a search selects, as a set: search results come in no particular order. */
  function Selected(store: Store, req: SearchRequest): set<Document>
    requires SearchDefined(store, req)
  {
    set k | k in store && Matches(store[k], req) :: store[k]
  }

  /**
   Search by walking the stored entries and keeping those that pass all
   filters. The result holds exactly the selected documents, each stored
   entry contributing once.
   */
  method Search(store: Store, req: SearchRequest) returns (found: seq<Document>)
    requires SearchDefined(store, req)
    ensures forall d :: d in found <==> d in Selected(store, req)
    ensures Keyed(store) ==> forall i, j :: 0 <= i < j < |found| ==> found[i] != found[j]
  {
    found := [];
    ghost var keys: seq<string> := [];
    var rest := store.Keys;
    while rest != {}
      invariant rest <= store.Keys
      invariant |keys| == |found|
      invariant forall i :: 0 <= i < |keys| ==>
        keys[i] in store && keys[i] !in rest && store[keys[i]] == found[i] && Matches(found[i], req)
      invariant forall i, j :: 0 <= i < j < |keys| ==> keys[i] != keys[j]
      invariant forall k :: k in store && k !in rest && Matches(store[k], req) ==> k in keys
      decreases rest
    {
      var k :| k in rest;
      if Matches(store[k], req) {
        found := found + [store[k]];
        keys := keys + [k];
      }
      rest := rest - {k};
    }
    forall d | d in Selected(store, req)
      ensures d in found
    {
      var k :| k in store && Matches(store[k], req) && store[k] == d;
      var i :| 0 <= i < |keys| && keys[i] == k;
      assert found[i] == d;
    }
    if Keyed(store) {
      forall i, j | 0 <= i < j < |found|
        ensures found[i] != found[j]
      {
        assert found[i].id == Some(keys[i]);
        assert found[j].id == Some(keys[j]);
      }
    }
  }
}

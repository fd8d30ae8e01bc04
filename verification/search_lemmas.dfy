/** Properties of `search`: which stored documents it selects, and when it is defined. */
module SearchLemmas {
  import opened Wrappers
  import opened Text
  import opened DocumentManager

  /**
   A stored document is selected exactly when every criterion holds: some
   prefix starts its title, some string occurs in its content, its author's id
   is listed, and its creation time lies within the inclusive bounds. An
   unset list criterion holds of every document; a set one fails on a missing
   title, content or author.
   */
  lemma SearchMembership(store: Store, req: SearchRequest, d: Document)
    requires SearchDefined(store, req)
    ensures d in Selected(store, req) <==>
      && d in store.Values
      && (Unset(req.titlePrefixes) ||
          (d.title.Some? && exists p :: p in req.titlePrefixes.value && p <= d.title.value))
      && (Unset(req.containsContents) ||
          (d.content.Some? && exists t, i :: t in req.containsContents.value && OccursAt(d.content.value, t, i)))
      && (Unset(req.authorIds) ||
          (d.author.Some? && d.author.value.id.Some? && d.author.value.id.value in req.authorIds.value))
      && (req.createdFrom.None? || (d.created.Some? && req.createdFrom.value <= d.created.value))
      && (req.createdTo.None? || (d.created.Some? && d.created.value <= req.createdTo.value))
  {
  }

  /** A missing title, content or author fails its criterion whenever that criterion lists something. */
  lemma MissingFieldExcluded(store: Store, req: SearchRequest, d: Document)
    requires SearchDefined(store, req)
    requires (!Unset(req.titlePrefixes) && d.title.None?) ||
             (!Unset(req.containsContents) && d.content.None?) ||
             (!Unset(req.authorIds) && d.author.None?)
    ensures d !in Selected(store, req)
  {
  }

  /** The creation bounds are inclusive at both ends. */
  lemma CreatedRangeInclusive(doc: Document, createdFrom: Option<Instant>, createdTo: Option<Instant>)
    requires doc.created.Some?
    ensures CreatedInRange(doc, Some(doc.created.value), Some(doc.created.value))
    ensures createdFrom.Some? && doc.created.value < createdFrom.value ==> !CreatedInRange(doc, createdFrom, createdTo)
    ensures createdTo.Some? && doc.created.value > createdTo.value ==> !CreatedInRange(doc, createdFrom, createdTo)
    ensures ((createdFrom.None? || createdFrom.value <= doc.created.value) &&
             (createdTo.None? || doc.created.value <= createdTo.value)) ==> CreatedInRange(doc, createdFrom, createdTo)
  {
  }

  /** A request with every criterion unset selects every stored document. */
  lemma EmptyRequestSelectsAll(store: Store, req: SearchRequest)
    requires Unset(req.titlePrefixes) && Unset(req.containsContents) && Unset(req.authorIds)
    requires req.createdFrom.None? && req.createdTo.None?
    ensures SearchDefined(store, req)
    ensures Selected(store, req) == store.Values
  {
  }

  /** The search is defined whenever every stored document has a creation time, or no bound is set. */
  lemma SearchDefinedWhenCreatedOrUnbounded(store: Store, req: SearchRequest)
    requires AllCreated(store) || (req.createdFrom.None? && req.createdTo.None?)
    ensures SearchDefined(store, req)
  {
  }

  /** A lower bound later than every stored creation time selects nothing. */
  lemma FutureLowerBoundSelectsNothing(store: Store, req: SearchRequest)
    requires AllCreated(store)
    requires req.createdFrom.Some?
    requires forall k :: k in store ==> store[k].created.value < req.createdFrom.value
    ensures SearchDefined(store, req)
    ensures Selected(store, req) == {}
  {
  }

  /** The demonstration documents: two titles starting "Document", by "auth1" and "auth2". */
  const demoDoc1 := Document(None, Some("Document One"), Some("This is the first document."),
                             Some(Author(Some("auth1"), Some("John Doe"))), None)
  const demoDoc2 := Document(None, Some("Document Two"), Some("This is the second document."),
                             Some(Author(Some("auth2"), Some("Jane Smith"))), None)
  const demoRequest := SearchRequest(Some(["Document"]), None, Some(["auth1"]), None, None)

  /**
   Both demonstration documents saved without ids into an empty store; a
   search for titles starting "Document" by author "auth1" selects the first only.
   */
  lemma DemoSearch(id1: string, id2: string, t1: Instant, t2: Instant)
    requires id1 != id2
    ensures var s1 := Save(map[], demoDoc1, id1, t1);
      var s2 := Save(s1.store, demoDoc2, id2, t2);
      SearchDefined(s2.store, demoRequest) && Selected(s2.store, demoRequest) == {s1.doc}
  {
    var s1 := Save(map[], demoDoc1, id1, t1);
    var s2 := Save(s1.store, demoDoc2, id2, t2);
    assert s2.store.Keys == {id1, id2};
    assert s2.store[id1] == s1.doc;
    assert TextMatches(s2.store[id1], demoRequest) by {
      assert StartsWith("Document One", "Document");
    }
    assert !AuthorMatches(s2.store[id2], demoRequest.authorIds) by {
      assert "auth2" != "auth1";
    }
  }
}

# DocumentManager in Dafny

A model of the in-memory document store `DocumentManager`: a map from
document id to `Document`, with an upsert (`save`), an exact-id lookup
(`findById`) and a search that combines four optional criteria (title
prefixes, content substrings, author ids, an inclusive creation-time range).
The model is functional: documents, authors and search requests are
immutable datatypes whose Java-nullable fields are `Option`s, the store is a
`map<string, Document>`, and `save` returns the new store together with the
saved document. The random UUID and the clock reading that `save` draws on
are its parameters `freshId` and `now`.

Files:

- `wrappers.dfy`: `Option`, standing for a nullable reference.
- `text.dfy`: `String.startsWith` and `String.contains`, defined by recursion and
  proved equal to sequence prefix and to occurrence at some index.
- `document_manager.dfy`: the records, `Save`, `FindById`, the four filters, the
  selected set `Selected` and the `Search` method that walks the store.
- `store_lemmas.dfy`: what a save does to the store, one call at a time and along
  a history of saves (`Replay`).
- `search_lemmas.dfy`: exactly which documents a search selects, and when it is defined.

Design decisions:

- A list criterion of the request is `Option<seq<string>>`; `null` and the empty
  list both mean "do not filter" (`Unset`).
- The range filter dereferences `created` whenever a bound is given, and throws on
  a missing one. Filters run one after another per document, so only documents that
  passed the title, content and author filters reach it. `Search` therefore
  requires `SearchDefined`: every stored document that passes those three filters
  has a creation time, or no bound is set. `SearchLemmas.SearchDefinedWhenCreatedOrUnbounded`
  shows the simpler sufficient condition (every stored document has a creation time,
  or no bound is set). The code throws on a missing creation time rather than
  treating it as failing the bound; the model follows the code.
- Search results have no specified order. `Selected` is the set of selected
  documents; `Search` returns a sequence holding exactly its elements, without
  duplicates when every document is stored under its own id (`Keyed`, which every
  save preserves).
- The generated id is never checked against the store. Properties of new documents
  assume `freshId` is not a key; `StoreLemmas.FreshIdCollisionReplaces` shows what
  happens otherwise.
- `search` does not change the store: in the model the store is a value and
  `Search` has no way to change it.

## Model

| member | source | states |
|---|---|---|
| `Text.StartsWith` | src/main/java/DocumentManager.java:64 | the title test holds exactly when the prefix is a sequence prefix of the title; the empty prefix matches every title |
| `Text.Contains` | src/main/java/DocumentManager.java:71 | the content test holds exactly when the string occurs in the content at some index; the empty string occurs in every content |
| `DocumentManager.Save` | src/main/java/DocumentManager.java:30-42 | the saved document always has an id, keeps a caller-supplied id, keeps title, content and author; it is stored under its id, the key set grows by at most that id, and every other entry is unchanged |
| `DocumentManager.FindById` | src/main/java/DocumentManager.java:94-96 | lookup yields a document exactly when the id is a key, and then the stored one; an unknown id yields None and is no error |
| `DocumentManager.Search` | src/main/java/DocumentManager.java:51-58 | the returned list holds exactly the stored documents that pass all four filters; with every document stored under its own id it has no duplicates |
| `StoreLemmas.SaveNewDocument` | src/main/java/DocumentManager.java:31-41 | a document without id gets the fresh id and `created == now`, is found under the fresh id, and the store grows by one |
| `StoreLemmas.FreshIdCollisionReplaces` | src/main/java/DocumentManager.java:31-40 | a generated id that is already a key stores the new document under that id in place of the old one, overwriting its creation time; the store keeps its size |
| `StoreLemmas.SaveExistingKeepsCreated` | src/main/java/DocumentManager.java:35-40 | re-saving a stored id stores the new fields with the previously stored `created`, whatever `created` the input carries; the store keeps its size |
| `StoreLemmas.SaveCallerIdStoresAsGiven` | src/main/java/DocumentManager.java:34-41 | a caller-chosen id that is not yet a key stores the document unchanged, including its own `created` or lack of one |
| `StoreLemmas.SaveThenFind` | src/main/java/DocumentManager.java:40-41 | after a save, looking up the returned id finds the returned document and every other id finds what it found before |
| `StoreLemmas.SaveIdempotent` | src/main/java/DocumentManager.java:34-41 | saving the returned document again leaves the store and the result unchanged |
| `StoreLemmas.SaveKeepsStoredCreated` | src/main/java/DocumentManager.java:23-40 | a save that does not collide on a generated id keeps every stored id and its creation time |
| `StoreLemmas.SavePreservesKeyed` | src/main/java/DocumentManager.java:40 | if every document is stored under its own id, that still holds after a save |
| `StoreLemmas.SavePreservesAllCreated` | src/main/java/DocumentManager.java:31-40 | every stored document keeps having a creation time unless a new caller-chosen id arrives without one |
| `StoreLemmas.ReplayKeepsCreated` | src/main/java/DocumentManager.java:23-42 | along any history of saves without id collisions, a stored id stays stored and its creation time never changes |
| `StoreLemmas.ReplayKeepsKeyed` | src/main/java/DocumentManager.java:30-42 | along any history of saves, every document stays stored under its own id |
| `SearchLemmas.SearchMembership` | src/main/java/DocumentManager.java:51-86 | a document is selected exactly when it is stored and all four criteria hold, each an OR over its values: a prefix of the title, a substring of the content, the author's id listed, creation time within the inclusive bounds |
| `SearchLemmas.MissingFieldExcluded` | src/main/java/DocumentManager.java:60-79 | a missing title, content or author excludes the document whenever the matching criterion lists something |
| `SearchLemmas.CreatedRangeInclusive` | src/main/java/DocumentManager.java:81-86 | creation time equal to either bound passes; strictly before the lower or after the upper bound fails |
| `SearchLemmas.EmptyRequestSelectsAll` | src/main/java/DocumentManager.java:51-57 | with every criterion null or empty the search is defined and selects every stored document |
| `SearchLemmas.SearchDefinedWhenCreatedOrUnbounded` | src/main/java/DocumentManager.java:81-85 | the range filter cannot fail on a missing creation time when every stored document has one or no bound is set |
| `SearchLemmas.FutureLowerBoundSelectsNothing` | src/main/java/DocumentManager.java:81-83 | a lower bound later than every stored creation time selects nothing |
| `SearchLemmas.DemoSearch` | src/main/java/Main.java:20-47 | the demonstration data: searching titles starting "Document" by author "auth1" selects exactly the first saved document |

## Left out

- Random id generation and the clock are parameters of `Save`; the model says nothing about how unique the generated ids are.
- The order of search results (hash-map iteration order) is unspecified in the source and not modelled.
- Null elements inside a request's lists are not modelled; lists hold strings. In the source a null prefix or substring throws once a document with a title or content reaches it.
- `findById(null)` is not modelled; ids passed to `FindById` are strings.
- `save(null)` is not modelled: the source throws on it at once; `Save` takes a `Document`.
- `search(null)` is not modelled: the source throws on it as soon as the store holds a document, and returns an empty list on an empty store; `Search` takes a `SearchRequest`.
- `AuthorMatches` returns false for a present author whose id is null; in the source `authorIds.contains(null)` returns false for the usual list classes but throws for immutable lists built with `List.of`, which is not modelled.
- Java object aliasing is not modelled: a caller that mutates a saved `Document` object changes the stored one in the source; here documents are values.
- Strings are sequences of characters; the UTF-16 code-unit representation of Java strings is not modelled.
- The demonstration program's printing to standard output is not modelled.
- The generated getters, setters, builders, `equals` and `toString` are replaced by datatype constructors, fields and structural equality.

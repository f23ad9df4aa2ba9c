/** The autocomplete search (`GET /api/search?query=...`): the external
    full-text index answers when it can; when it throws, a case-insensitive
    substring search over `siyam_ref`, `model` and `oem` answers instead,
    capped at 50 documents in natural order. */
module Search {

  import opened Wrappers
  import Strings
  import opened PartModel
  import Catalog
  import Sequences

  /** `.limit(50)` on the fallback query. */
  const FALLBACK_LIMIT := 50

  /** What the `parts_search` index aggregation gave: its ranked hits, or
      the value it threw. The ranking itself is outside the model. */
  datatype IndexOutcome =
    | IndexHits(hits: seq<StoredPart>)
    | IndexThrew(error: Thrown)

  /** The response body. */
  datatype SearchResponse =
    | SearchOk(results: seq<PartJson>, count: nat)
    | SearchFailed(status: nat, error: string)

  /** `/query/i` on `siyam_ref` or `model`, or on some `oem` element. */
  predicate FallbackMatches(p: Part, query: string) {
    || Strings.ContainsIgnoreCase(p.siyam_ref, query)
    || Strings.ContainsIgnoreCase(p.model, query)
    || exists k :: 0 <= k < |p.oem| && Strings.ContainsIgnoreCase(p.oem[k], query)
  }

  /** The documents the fallback `find` matches, in natural order. */
  function FallbackFilter(docs: seq<StoredPart>, query: string): (r: seq<StoredPart>)
    ensures |r| <= |docs|
    ensures forall d :: multiset(r)[d] == if FallbackMatches(d.part, query) then multiset(docs)[d] else 0
  {
    if docs == [] then []
    else
      assert docs == [docs[0]] + docs[1..];
      var rest := FallbackFilter(docs[1..], query);
      if FallbackMatches(docs[0].part, query) then [docs[0]] + rest else rest
  }

  /** The fallback's matches keep the collection's natural order. */
  lemma {:induction false} FallbackFilterInOrder(docs: seq<StoredPart>, query: string)
    ensures Sequences.IsSubsequence(FallbackFilter(docs, query), docs)
  {
    if docs != [] {
      var rest := FallbackFilter(docs[1..], query);
      FallbackFilterInOrder(docs[1..], query);
      assert docs == [docs[0]] + docs[1..];
      if FallbackMatches(docs[0].part, query) {
        Sequences.KeepFirst(docs[0], rest, docs[1..]);
      } else {
        Sequences.DropFirst(docs[0], rest, docs[1..]);
      }
    }
  }

  /** `find(...).limit(50)`: the first 50 matches in natural order -- a
      prefix of the matches, all of them when there are at most 50. */
  function Fallback(docs: seq<StoredPart>, query: string): (r: seq<StoredPart>)
    ensures r <= FallbackFilter(docs, query)
    ensures |r| == if |FallbackFilter(docs, query)| <= FALLBACK_LIMIT then |FallbackFilter(docs, query)| else FALLBACK_LIMIT
  {
    var all := FallbackFilter(docs, query);
    if |all| <= FALLBACK_LIMIT then all else all[..FALLBACK_LIMIT]
  }

  /** The fallback returns at most 50 documents, each a stored document
      that matches; with at most 50 matches it returns every one of them. */
  lemma FallbackBounds(docs: seq<StoredPart>, query: string)
    ensures |Fallback(docs, query)| <= FALLBACK_LIMIT
    ensures forall d :: d in Fallback(docs, query) ==> d in docs && FallbackMatches(d.part, query)
    ensures |FallbackFilter(docs, query)| <= FALLBACK_LIMIT ==>
              forall d :: d in docs && FallbackMatches(d.part, query) ==> d in Fallback(docs, query)
  {
    var all := FallbackFilter(docs, query);
    forall d | d in Fallback(docs, query) ensures d in docs && FallbackMatches(d.part, query) {
      assert d in all;
      assert multiset(all)[d] > 0;
    }
    forall d | |all| <= FALLBACK_LIMIT && d in docs && FallbackMatches(d.part, query)
      ensures d in Fallback(docs, query)
    {
      assert multiset(docs)[d] > 0;
      assert multiset(all)[d] > 0;
    }
  }

  /** Whatever the fallback finds, the product listing's free-text filter
      finds too: it searches the same fields and two more. */
  lemma FallbackWithinListing(p: Part, query: string)
    requires FallbackMatches(p, query)
    ensures Catalog.TextMatches(p, query)
  {
  }

  /** The handler. `connectFault` is a failure to reach the database,
      `index` what the index aggregation did, and `fallbackFault` a failure
      of the fallback `find`. A query that reaches the fallback is a
      literal, free of regular-expression metacharacters. */
  function SearchParts(docs: seq<StoredPart>, query: Option<string>, connectFault: Option<Thrown>,
                       index: IndexOutcome, fallbackFault: Option<Thrown>): (r: SearchResponse)
    requires Catalog.Given(query) && index.IndexThrew? ==> Strings.NoRegexMeta(query.value)
    ensures r.SearchOk? ==> r.count == |r.results|
    ensures connectFault.Some? ==> r == SearchFailed(500, connectFault.value.MessageOr("Failed to search products"))
    ensures connectFault.None? && !Catalog.Given(query) ==> r == SearchOk([], 0)
    ensures connectFault.None? && Catalog.Given(query) && index.IndexHits? ==>
              r.SearchOk? && r.results == ToJsonAll(index.hits)
    ensures connectFault.None? && Catalog.Given(query) && index.IndexThrew? ==>
              if fallbackFault.Some? then r == SearchFailed(500, fallbackFault.value.MessageOr("Failed to search products"))
              else r.SearchOk? && r.results == ToJsonAll(Fallback(docs, query.value))
  {
    if connectFault.Some? then SearchFailed(500, connectFault.value.MessageOr("Failed to search products"))
    else
      var q := query.GetOr("");
      if |q| == 0 then SearchOk([], 0)
      else match index
        case IndexHits(hits) => SearchOk(ToJsonAll(hits), |hits|)
        case IndexThrew(_) =>
          if fallbackFault.Some? then SearchFailed(500, fallbackFault.value.MessageOr("Failed to search products"))
          else
            var found := Fallback(docs, q);
            SearchOk(ToJsonAll(found), |found|)
  }

  /** A missing or empty query answers with no results, whatever the index
      would have done, and never fails once connected. */
  lemma EmptyQueryNoResults(docs: seq<StoredPart>, query: Option<string>, index: IndexOutcome, fallbackFault: Option<Thrown>)
    requires query.None? || query.value == ""
    ensures SearchParts(docs, query, None, index, fallbackFault) == SearchOk([], 0)
  {
  }

  /** When the index throws, a query naming a part's `siyam_ref` in any
      letter case finds that part, provided fewer than 51 parts match. */
  lemma FallbackFindsRef(docs: seq<StoredPart>, d: StoredPart, query: string, e: Thrown)
    requires d in docs && query != "" && Strings.NoRegexMeta(query)
    requires Strings.Lower(query) == Strings.Lower(d.part.siyam_ref)
    requires |FallbackFilter(docs, query)| <= FALLBACK_LIMIT
    ensures ToJson(d) in SearchParts(docs, Some(query), None, IndexThrew(e), None).results
  {
    assert Strings.OccursAt(Strings.Lower(query), Strings.Lower(d.part.siyam_ref), 0);
    assert FallbackMatches(d.part, query);
    FallbackBounds(docs, query);
    var found := Fallback(docs, query);
    assert d in found;
    var k :| 0 <= k < |found| && found[k] == d;
    var r := SearchParts(docs, Some(query), None, IndexThrew(e), None);
    assert r.results == ToJsonAll(found);
    assert r.results[k] == ToJson(d);
  }
}

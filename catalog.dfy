/** The product listing (`GET /api/products`): an optional category filter
    and an optional free-text filter over the part collection, results
    ordered by `siyam_ref`. */
module Catalog {

  import opened Wrappers
  import Strings
  import opened PartModel

  /** A query parameter that is present and not empty (JavaScript truthiness
      of `searchParams.get(...)`). */
  predicate Given(param: Option<string>) {
    param.Some? && param.value != ""
  }

  /** `{ category: /^category$/i }`: the whole field equals the parameter up
      to case. MongoDB runs the pattern with PCRE, whose `$` also matches
      just before a final line break, so one trailing "\n" in the stored
      field is allowed. */
  predicate CategoryMatches(p: Part, category: string) {
    || Strings.Lower(p.category) == Strings.Lower(category)
    || Strings.Lower(p.category) == Strings.Lower(category) + "\n"
  }

  /** A category imported with a trailing line break, `"PTR\n"`, is found
      by the parameter `ptr`, and a second line break is one too many. */
  lemma FinalNewlineMatches(p: Part)
    ensures p.category == "PTR\n" ==> CategoryMatches(p, "ptr")
    ensures p.category == "PTR\n\n" ==> !CategoryMatches(p, "ptr")
  {
    assert Strings.Lower("ptr") == "ptr";
    if p.category == "PTR\n" {
      assert Strings.Lower(p.category) == "ptr\n";
    }
    if p.category == "PTR\n\n" {
      assert Strings.Lower(p.category)[3] == '\n';
      assert |Strings.Lower(p.category)| == 5;
    }
  }

  /** The `$or` of `/search/i` over `siyam_ref`, `make`, `model`,
      `radiator_type`, and `oem` (`$in` matches an array when one element
      matches). */
  predicate TextMatches(p: Part, search: string) {
    || Strings.ContainsIgnoreCase(p.siyam_ref, search)
    || Strings.ContainsIgnoreCase(p.make, search)
    || Strings.ContainsIgnoreCase(p.model, search)
    || Strings.ContainsIgnoreCase(p.radiator_type, search)
    || exists k :: 0 <= k < |p.oem| && Strings.ContainsIgnoreCase(p.oem[k], search)
  }

  /** The query object built from the two parameters: each filter applies
      only when its parameter is given. */
  predicate Matches(p: Part, category: Option<string>, search: Option<string>) {
    && (Given(category) ==> CategoryMatches(p, category.value))
    && (Given(search) ==> TextMatches(p, search.value))
  }

  /** `Part.find(query)`: the matching documents, each as often as it is
      stored. */
  function Select(docs: seq<StoredPart>, category: Option<string>, search: Option<string>): (r: seq<StoredPart>)
    ensures forall d :: multiset(r)[d] == if Matches(d.part, category, search) then multiset(docs)[d] else 0
  {
    if docs == [] then []
    else
      assert docs == [docs[0]] + docs[1..];
      var rest := Select(docs[1..], category, search);
      if Matches(docs[0].part, category, search) then [docs[0]] + rest else rest
  }

  /** Ascending by `siyam_ref` in MongoDB's string order. */
  ghost predicate SortedByRef(docs: seq<StoredPart>) {
    forall i, j :: 0 <= i < j < |docs| ==> Strings.LessEq(docs[i].part.siyam_ref, docs[j].part.siyam_ref)
  }

  /** A key no greater than the first of a sorted list is no greater than
      any of them. */
  lemma BelowHeadBelowAll(key: string, sorted: seq<StoredPart>)
    requires SortedByRef(sorted) && sorted != []
    requires Strings.LessEq(key, sorted[0].part.siyam_ref)
    ensures forall j :: 0 <= j < |sorted| ==> Strings.LessEq(key, sorted[j].part.siyam_ref)
  {
    forall j | 0 <= j < |sorted| ensures Strings.LessEq(key, sorted[j].part.siyam_ref) {
      if j > 0 {
        Strings.LessEqTransitive(key, sorted[0].part.siyam_ref, sorted[j].part.siyam_ref);
      }
    }
  }

  /** The first of a sorted list is no greater than `d`, nor than any
      element of a list holding `d` and the rest of the sorted list. */
  lemma HeadBelowInsertion(sorted: seq<StoredPart>, d: StoredPart, rest: seq<StoredPart>)
    requires SortedByRef(sorted) && sorted != []
    requires Strings.LessEq(sorted[0].part.siyam_ref, d.part.siyam_ref)
    requires multiset(rest) == multiset(sorted[1..]) + multiset{d}
    ensures forall j :: 0 <= j < |rest| ==> Strings.LessEq(sorted[0].part.siyam_ref, rest[j].part.siyam_ref)
  {
    forall j | 0 <= j < |rest| ensures Strings.LessEq(sorted[0].part.siyam_ref, rest[j].part.siyam_ref) {
      assert rest[j] in multiset(rest);
      if rest[j] != d {
        assert rest[j] in multiset(sorted[1..]);
        var k :| 0 <= k < |sorted[1..]| && sorted[1..][k] == rest[j];
        assert sorted[k + 1] == rest[j];
      }
    }
  }

  /** Places `d` before the first document whose `siyam_ref` sorts strictly
      after it. */
  function Insert(d: StoredPart, sorted: seq<StoredPart>): (r: seq<StoredPart>)
    requires SortedByRef(sorted)
    ensures SortedByRef(r)
    ensures multiset(r) == multiset(sorted) + multiset{d}
    ensures |r| == |sorted| + 1
  {
    if sorted == [] then [d]
    else if Strings.LessEq(d.part.siyam_ref, sorted[0].part.siyam_ref) then
      BelowHeadBelowAll(d.part.siyam_ref, sorted);
      [d] + sorted
    else
      Strings.LessEqTotal(d.part.siyam_ref, sorted[0].part.siyam_ref);
      var rest := Insert(d, sorted[1..]);
      assert sorted == [sorted[0]] + sorted[1..];
      HeadBelowInsertion(sorted, d, rest);
      [sorted[0]] + rest
  }

  /** `.sort({ siyam_ref: 1 })`: the same documents, in ascending order.
      MongoDB leaves the order of equal keys open; this picks one. */
  function SortByRef(docs: seq<StoredPart>): (r: seq<StoredPart>)
    ensures SortedByRef(r)
    ensures multiset(r) == multiset(docs)
    ensures |r| == |docs|
  {
    if docs == [] then []
    else
      assert docs == [docs[0]] + docs[1..];
      Insert(docs[0], SortByRef(docs[1..]))
  }

  /** The response body. */
  datatype ProductsResponse =
    | ProductsOk(products: seq<PartJson>, count: nat)
    | ProductsFailed(status: nat, error: string)

  /** `GET /api/products?category=..&search=..`. Failures to connect or to
      query the collection are given as `fault`. A given parameter is a
      literal, free of regular-expression metacharacters. */
  function ListProducts(docs: seq<StoredPart>, category: Option<string>, search: Option<string>,
                        fault: Option<Thrown>): (r: ProductsResponse)
    requires Given(category) ==> Strings.NoRegexMeta(category.value)
    requires Given(search) ==> Strings.NoRegexMeta(search.value)
    ensures fault.Some? <==> r.ProductsFailed?
    ensures fault.Some? ==> r == ProductsFailed(500, fault.value.MessageOr("Failed to fetch products"))
    ensures r.ProductsOk? ==>
              && r.count == |r.products|
              && exists sorted: seq<StoredPart> ::
                   && r.products == ToJsonAll(sorted)
                   && SortedByRef(sorted)
                   && multiset(sorted) == multiset(Select(docs, category, search))
  {
    if fault.Some? then ProductsFailed(500, fault.value.MessageOr("Failed to fetch products"))
    else
      var sorted := SortByRef(Select(docs, category, search));
      ProductsOk(ToJsonAll(sorted), |sorted|)
  }

  /** The stored documents the listing returns. */
  function Listed(docs: seq<StoredPart>, category: Option<string>, search: Option<string>): seq<StoredPart> {
    SortByRef(Select(docs, category, search))
  }

  /** Without filters every stored part is listed, each once per copy. */
  lemma NoFilterListsAll(docs: seq<StoredPart>, category: Option<string>, search: Option<string>)
    requires !Given(category) && !Given(search)
    ensures multiset(Listed(docs, category, search)) == multiset(docs)
  {
    assert forall d :: multiset(Select(docs, category, search))[d] == multiset(docs)[d];
    assert multiset(Select(docs, category, search)) == multiset(docs);
  }

  /** A stored part is listed exactly when it matches both given filters
      (each a literal, as for `ListProducts`). */
  lemma ListedIffMatches(docs: seq<StoredPart>, category: Option<string>, search: Option<string>, d: StoredPart)
    requires Given(category) ==> Strings.NoRegexMeta(category.value)
    requires Given(search) ==> Strings.NoRegexMeta(search.value)
    ensures d in Listed(docs, category, search) <==> d in docs && Matches(d.part, category, search)
  {
    assert d in Listed(docs, category, search) <==> multiset(Listed(docs, category, search))[d] > 0;
    assert d in docs <==> multiset(docs)[d] > 0;
  }

  /** Searching for any literal piece of a part's `siyam_ref`, in any
      letter case, lists that part (when no category filter excludes it). */
  lemma RefPieceFindsPart(docs: seq<StoredPart>, d: StoredPart, search: string)
    requires d in docs && search != "" && Strings.NoRegexMeta(search)
    requires Strings.OccursIn(Strings.Lower(search), Strings.Lower(d.part.siyam_ref))
    ensures d in Listed(docs, None, Some(search))
  {
    ListedIffMatches(docs, None, Some(search), d);
  }

  /** A literal category no stored part has, up to case and one final
      line break, lists nothing. */
  lemma UnknownCategoryListsNothing(docs: seq<StoredPart>, category: string, search: Option<string>)
    requires category != "" && Strings.NoRegexMeta(category)
    requires Given(search) ==> Strings.NoRegexMeta(search.value)
    requires forall i :: 0 <= i < |docs| ==> !CategoryMatches(docs[i].part, category)
    ensures Listed(docs, Some(category), search) == []
  {
    var r := Listed(docs, Some(category), search);
    if r != [] {
      ListedIffMatches(docs, Some(category), search, r[0]);
      assert false;
    }
  }

  /** Letter case in a literal category parameter makes no difference. */
  lemma {:induction false} CategoryCaseInsensitive(docs: seq<StoredPart>, c1: string, c2: string, search: Option<string>)
    requires Strings.NoRegexMeta(c1) && Strings.NoRegexMeta(c2)
    requires Strings.Lower(c1) == Strings.Lower(c2)
    ensures Select(docs, Some(c1), search) == Select(docs, Some(c2), search)
  {
    if docs != [] {
      CategoryCaseInsensitive(docs[1..], c1, c2, search);
      var p := docs[0].part;
      assert |c1| == |Strings.Lower(c1)| == |Strings.Lower(c2)| == |c2|;
      assert Matches(p, Some(c1), search) == Matches(p, Some(c2), search);
    }
  }
}

/** Order-keeping selection: `r` is `s` with some of its elements left out
    and the rest kept in their order. A filter's result is pinned down by
    being such a subsequence together with how often it holds each value. */
module Sequences {

  /** `r` is obtained from `s` by deleting elements. */
  ghost predicate IsSubsequence<T>(r: seq<T>, s: seq<T>)
    decreases |s|
  {
    if s == [] then r == []
    else (r != [] && r[0] == s[0] && IsSubsequence(r[1..], s[1..])) || IsSubsequence(r, s[1..])
  }

  /** Keeping a new first element of `s`. */
  lemma KeepFirst<T>(x: T, r: seq<T>, s: seq<T>)
    requires IsSubsequence(r, s)
    ensures IsSubsequence([x] + r, [x] + s)
  {
    assert ([x] + r)[1..] == r && ([x] + s)[1..] == s;
  }

  /** Dropping a new first element of `s`. */
  lemma DropFirst<T>(x: T, r: seq<T>, s: seq<T>)
    requires IsSubsequence(r, s)
    ensures IsSubsequence(r, [x] + s)
  {
    assert ([x] + s)[1..] == s;
  }

  /** Keeping a new last element of `s`. */
  lemma {:induction false} KeepLast<T>(r: seq<T>, s: seq<T>, x: T)
    requires IsSubsequence(r, s)
    ensures IsSubsequence(r + [x], s + [x])
    decreases |s|
  {
    if s == [] {
      assert r == [];
      assert ([x] + [])[1..] == [];
      assert IsSubsequence(r + [x], s + [x]);
    } else {
      assert (s + [x])[1..] == s[1..] + [x];
      if r != [] && r[0] == s[0] && IsSubsequence(r[1..], s[1..]) {
        KeepLast(r[1..], s[1..], x);
        assert (r + [x])[1..] == r[1..] + [x];
      } else {
        KeepLast(r, s[1..], x);
      }
    }
  }

  /** Dropping a new last element of `s`. */
  lemma {:induction false} DropLast<T>(r: seq<T>, s: seq<T>, x: T)
    requires IsSubsequence(r, s)
    ensures IsSubsequence(r, s + [x])
    decreases |s|
  {
    if s == [] {
      assert r == [];
      assert (s + [x])[1..] == [];
    } else {
      assert (s + [x])[1..] == s[1..] + [x];
      if r != [] && r[0] == s[0] && IsSubsequence(r[1..], s[1..]) {
        DropLast(r[1..], s[1..], x);
      } else {
        DropLast(r, s[1..], x);
      }
    }
  }
}

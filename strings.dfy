/** The JavaScript string operations the handlers and components rely on:
    `trim`, ASCII case folding, `includes`, `split`/`join`, number rendering
    and MongoDB's binary string order. */
module Strings {

  import opened Wrappers

  /** The characters `String.prototype.trim` strips and the regular-expression
      class `\s` matches: ECMAScript WhiteSpace and LineTerminator. */
  predicate IsWhitespace(c: char) {
    || c == ' ' || c == '\t' || c == '\n' || c == '\r' || c == '\U{B}' || c == '\U{C}'
    || c == '\U{A0}' || c == '\U{1680}' || ('\U{2000}' <= c <= '\U{200A}')
    || c == '\U{2028}' || c == '\U{2029}' || c == '\U{202F}' || c == '\U{205F}'
    || c == '\U{3000}' || c == '\U{FEFF}'
  }

  predicate AllWhitespace(s: string) {
    forall i :: 0 <= i < |s| ==> IsWhitespace(s[i])
  }

  /** `s.trim()`: `s` without the whitespace at either end; empty exactly
      when `s` is all whitespace. */
  function Trim(s: string): (r: string)
    ensures r == [] <==> AllWhitespace(s)
    ensures r == [] || (!IsWhitespace(r[0]) && !IsWhitespace(r[|r| - 1]))
    decreases |s|
  {
    if s == [] then s
    else if IsWhitespace(s[0]) then
      assert forall i :: 1 <= i < |s| ==> s[i] == s[1..][i - 1];
      Trim(s[1..])
    else if IsWhitespace(s[|s| - 1]) then
      assert forall i :: 0 <= i < |s| - 1 ==> s[i] == s[..|s| - 1][i];
      Trim(s[..|s| - 1])
    else s
  }

  /** `trim` removes only whitespace, and only at the ends: its result is
      the slice `s[a..b]` left after cutting an all-whitespace prefix and an
      all-whitespace suffix. With `Trim`'s own contract (the slice starts
      and ends with non-whitespace, or is empty), this determines it. */
  lemma TrimIsSlice(s: string)
    ensures exists a, b :: 0 <= a <= b <= |s| && Trim(s) == s[a..b] && AllWhitespace(s[..a]) && AllWhitespace(s[b..])
  {
    var a, b := TrimBounds(s);
  }

  /** Where the slice `TrimIsSlice` speaks of starts and ends. */
  lemma {:induction false} TrimBounds(s: string) returns (a: nat, b: nat)
    ensures a <= b <= |s| && Trim(s) == s[a..b] && AllWhitespace(s[..a]) && AllWhitespace(s[b..])
    decreases |s|, 1
  {
    if s == [] {
      a, b := 0, 0;
    } else if IsWhitespace(s[0]) {
      a, b := TrimBoundsFront(s);
    } else if IsWhitespace(s[|s| - 1]) {
      a, b := TrimBoundsBack(s);
    } else {
      a, b := 0, |s|;
      assert Trim(s) == s;
      assert s[..0] == [] && s[|s|..] == [];
    }
  }

  /** `TrimBounds` when `s` starts with whitespace. */
  lemma {:induction false} TrimBoundsFront(s: string) returns (a: nat, b: nat)
    requires s != [] && IsWhitespace(s[0])
    ensures a <= b <= |s| && Trim(s) == s[a..b] && AllWhitespace(s[..a]) && AllWhitespace(s[b..])
    decreases |s|, 0
  {
    var t := s[1..];
    assert Trim(s) == Trim(t);
    var a', b' := TrimBounds(t);
    a, b := a' + 1, b' + 1;
    SlicesOfTail(s, a', b');
    WhitespaceCons(s[0], t[..a']);
  }

  /** Slices of `s[1..]` are the slices of `s` one place further on. */
  lemma SlicesOfTail(s: string, a: nat, b: nat)
    requires a <= b < |s|
    ensures s[1..][a..b] == s[a + 1..b + 1]
    ensures s[..a + 1] == [s[0]] + s[1..][..a]
    ensures s[b + 1..] == s[1..][b..]
  {
  }

  lemma WhitespaceCons(c: char, m: string)
    requires IsWhitespace(c) && AllWhitespace(m)
    ensures AllWhitespace([c] + m)
  {
  }

  /** `TrimBounds` when `s` ends, but does not start, with whitespace. */
  lemma {:induction false} TrimBoundsBack(s: string) returns (a: nat, b: nat)
    requires s != [] && !IsWhitespace(s[0]) && IsWhitespace(s[|s| - 1])
    ensures a <= b <= |s| && Trim(s) == s[a..b] && AllWhitespace(s[..a]) && AllWhitespace(s[b..])
    decreases |s|, 0
  {
    var t := s[..|s| - 1];
    assert Trim(s) == Trim(t);
    a, b := TrimBounds(t);
    SlicesOfInit(s, a, b);
    WhitespaceSnoc(t[b..], s[|s| - 1]);
  }

  /** Slices of `s[..|s| - 1]` are the slices of `s`. */
  lemma SlicesOfInit(s: string, a: nat, b: nat)
    requires a <= b < |s|
    ensures s[..|s| - 1][a..b] == s[a..b]
    ensures s[..a] == s[..|s| - 1][..a]
    ensures s[b..] == s[..|s| - 1][b..] + [s[|s| - 1]]
  {
  }

  lemma WhitespaceSnoc(m: string, c: char)
    requires AllWhitespace(m) && IsWhitespace(c)
    ensures AllWhitespace(m + [c])
  {
  }


  /** Trimming twice is trimming once. */
  lemma TrimIdempotent(s: string)
    ensures Trim(Trim(s)) == Trim(s)
  {
    var r := Trim(s);
    if r != [] {
      assert Trim(r) == r;
    }
  }

  /** ASCII case folding, the part of `toLowerCase` (and of a regular
      expression's `i` flag) that the model covers. */
  function LowerChar(c: char): char {
    if 'A' <= c <= 'Z' then (c as int + 32) as char else c
  }

  function Lower(s: string): (r: string)
    ensures |r| == |s|
  {
    seq(|s|, i requires 0 <= i < |s| => LowerChar(s[i]))
  }

  /** `needle` occurs in `hay` starting at position `i`. */
  predicate OccursAt(needle: string, hay: string, i: int) {
    0 <= i && i + |needle| <= |hay| && hay[i..i + |needle|] == needle
  }

  /** `needle` occurs as a contiguous piece of `hay`. */
  ghost predicate OccursIn(needle: string, hay: string) {
    exists i :: OccursAt(needle, hay, i)
  }

  /** A slice of the tail is the slice one further along. */
  lemma SliceOfTail(s: string, i: nat, j: nat)
    requires i <= j && j + 1 <= |s|
    ensures s[1..][i..j] == s[i + 1..j + 1]
  {
    assert forall k :: 0 <= k < j - i ==> s[1..][i..j][k] == s[i + 1..j + 1][k];
  }

  /** `hay.includes(needle)`, equivalently a regular expression made of
      `needle`'s literal characters testing `hay`. */
  function Contains(hay: string, needle: string): (b: bool)
    ensures b <==> OccursIn(needle, hay)
  {
    if needle <= hay then
      assert OccursAt(needle, hay, 0);
      true
    else if hay == [] then
      false
    else
      var b := Contains(hay[1..], needle);
      assert b ==> OccursIn(needle, hay) by {
        if b {
          var i :| OccursAt(needle, hay[1..], i);
          SliceOfTail(hay, i, i + |needle|);
          assert OccursAt(needle, hay, i + 1);
        }
      }
      assert OccursIn(needle, hay) ==> b by {
        if OccursIn(needle, hay) {
          var i :| OccursAt(needle, hay, i);
          assert i != 0;
          SliceOfTail(hay, i - 1, i - 1 + |needle|);
          assert OccursAt(needle, hay[1..], i - 1);
        }
      }
      b
  }

  /** Case-insensitive containment: the `i`-flag regular expression
      `new RegExp(needle, "i")` tested on `hay`, for a needle free of
      metacharacters. */
  function ContainsIgnoreCase(hay: string, needle: string): bool {
    Contains(Lower(hay), Lower(needle))
  }

  /** Characters with a meaning in a regular expression source. */
  predicate IsRegexMeta(c: char) {
    c in "\\^$.|?*+()[]{}"
  }

  /** Text that `new RegExp(text)` reads as its literal characters. */
  predicate NoRegexMeta(s: string) {
    forall i :: 0 <= i < |s| ==> !IsRegexMeta(s[i])
  }

  /** `s.endsWith(suffix)` */
  predicate EndsWith(s: string, suffix: string) {
    |suffix| <= |s| && s[|s| - |suffix|..] == suffix
  }

  /** The first position where `sep` occurs in `s`, as `indexOf` finds it. */
  function IndexOf(s: string, sep: string): (r: Option<nat>)
    requires sep != []
    ensures r.Some? ==> OccursAt(sep, s, r.value)
    ensures forall j :: (r.None? || j < r.value) ==> !OccursAt(sep, s, j)
    decreases |s|
  {
    if |s| < |sep| then None
    else if s[..|sep|] == sep then Some(0)
    else
      var r := IndexOf(s[1..], sep);
      assert forall j :: 1 <= j ==> (OccursAt(sep, s, j) <==> OccursAt(sep, s[1..], j - 1)) by {
        forall j | 1 <= j ensures OccursAt(sep, s, j) <==> OccursAt(sep, s[1..], j - 1) {
          if j + |sep| <= |s| {
            var a, b := s[1..][j - 1..j - 1 + |sep|], s[j..j + |sep|];
            assert forall k :: 0 <= k < |sep| ==> a[k] == b[k];
            assert a == b;
          }
        }
      }
      match r
      case None => None
      case Some(i) => Some(i + 1)
  }

  /** `parts.join(sep)` */
  function Join(parts: seq<string>, sep: string): string {
    if |parts| == 0 then ""
    else if |parts| == 1 then parts[0]
    else parts[0] + sep + Join(parts[1..], sep)
  }

  /** `s.split(sep)` for a non-empty separator: the pieces between the
      non-overlapping occurrences of `sep`, found from the left. No piece
      contains `sep`; `JoinSplit` shows that joining the pieces with `sep`
      gives `s` back. */
  function Split(s: string, sep: string): (parts: seq<string>)
    requires sep != []
    ensures |parts| >= 1
    ensures forall k :: 0 <= k < |parts| ==> !OccursIn(sep, parts[k])
    decreases |s|
  {
    match IndexOf(s, sep)
    case None =>
      assert !OccursIn(sep, s);
      [s]
    case Some(i) =>
      var head := s[..i];
      assert !OccursIn(sep, head) by {
        if OccursIn(sep, head) {
          var j :| OccursAt(sep, head, j);
          assert s[j..j + |sep|] == head[j..j + |sep|];
          assert OccursAt(sep, s, j);
        }
      }
      [head] + Split(s[i + |sep|..], sep)
  }

  /** Joining the pieces of a split with the separator gives the string
      back. */
  lemma {:induction false} JoinSplit(s: string, sep: string)
    requires sep != []
    ensures Join(Split(s, sep), sep) == s
    decreases |s|
  {
    match IndexOf(s, sep)
    case None =>
    case Some(i) =>
      var tail := s[i + |sep|..];
      JoinSplit(tail, sep);
      SplitAtFirst(s, sep, i);
      JoinCons(s[..i], Split(tail, sep), sep);
      Around(s, i, i + |sep|);
  }

  lemma EndsWithConcat(p: string, m: string)
    ensures EndsWith(p + m, m)
  {
    assert (p + m)[|p|..] == m;
  }

  /** A string in which `[c]` does not occur holds no `c`. */
  lemma NotOccursChar(e: string, c: char)
    requires !OccursIn([c], e)
    ensures c !in e
  {
    forall j | 0 <= j < |e| ensures e[j] != c {
      assert !OccursAt([c], e, j);
      assert e[j..j + 1] == [e[j]];
    }
  }

  /** With two pieces or more, the join ends with the separator and the
      last piece. */
  lemma {:induction false} JoinLast(parts: seq<string>, sep: string) returns (p: string)
    requires |parts| >= 2
    ensures Join(parts, sep) == p + sep + parts[|parts| - 1]
    decreases |parts|
  {
    if |parts| == 2 {
      p := parts[0];
      assert parts[1..] == [parts[1]];
    } else {
      var p' := JoinLast(parts[1..], sep);
      p := parts[0] + sep + p';
    }
  }

  /** A string is its three pieces around a slice. */
  lemma Around(s: string, i: nat, j: nat)
    requires i <= j <= |s|
    ensures s == s[..i] + s[i..j] + s[j..]
  {
  }

  lemma JoinCons(head: string, rest: seq<string>, sep: string)
    requires rest != []
    ensures Join([head] + rest, sep) == head + sep + Join(rest, sep)
  {
    assert ([head] + rest)[1..] == rest;
  }

  /** The first occurrence of `sep` ends the first piece. */
  lemma SplitAtFirst(s: string, sep: string, i: nat)
    requires sep != []
    requires OccursAt(sep, s, i)
    requires forall j :: 0 <= j < i ==> !OccursAt(sep, s, j)
    ensures Split(s, sep) == [s[..i]] + Split(s[i + |sep|..], sep)
  {
    var r := IndexOf(s, sep);
    assert r == Some(i);
  }

  /** Splitting on a single character: a first piece free of it comes off
      whole. */
  lemma SplitCons(a: string, c: char, rest: string)
    requires c !in a
    ensures Split(a + [c] + rest, [c]) == [a] + Split(rest, [c])
  {
    var s := a + [c] + rest;
    assert OccursAt([c], s, |a|);
    forall j | 0 <= j < |a| ensures !OccursAt([c], s, j) {
      assert s[j..j + 1] == [a[j]];
    }
    assert IndexOf(s, [c]) == Some(|a|);
    assert s[..|a|] == a;
    assert s[|a| + 1..] == rest;
  }

  /** A string with no occurrence of `c` splits into itself alone. */
  lemma SplitNone(e: string, c: char)
    requires c !in e
    ensures Split(e, [c]) == [e]
  {
    forall j | 0 <= j < |e| ensures !OccursAt([c], e, j) {
      assert e[j..j + 1] == [e[j]];
    }
  }

  /** Joining pieces free of `c` with `c`, then splitting on `c`, gives the
      pieces back. */
  lemma {:induction false} SplitJoin(parts: seq<string>, c: char)
    requires |parts| >= 1
    requires forall k :: 0 <= k < |parts| ==> c !in parts[k]
    ensures Split(Join(parts, [c]), [c]) == parts
    decreases |parts|
  {
    if |parts| == 1 {
      SplitNone(parts[0], c);
    } else {
      var rest := Join(parts[1..], [c]);
      assert Join(parts, [c]) == parts[0] + [c] + rest;
      SplitCons(parts[0], c, rest);
      SplitJoin(parts[1..], c);
      assert parts == [parts[0]] + parts[1..];
    }
  }

  /** The first position of `c` in a string that holds it. */
  lemma {:induction false} FirstPosition(p: string, c: char) returns (k: nat)
    requires c in p
    ensures k < |p| && p[k] == c && c !in p[..k]
    decreases |p|
  {
    if p[0] == c {
      k := 0;
    } else {
      assert c in p[1..] by {
        var t :| 0 <= t < |p| && p[t] == c;
        assert p[1..][t - 1] == c;
      }
      var k' := FirstPosition(p[1..], c);
      k := k' + 1;
      assert p[..k] == [p[0]] + p[1..][..k'];
    }
  }

  /** `split(c).pop()`: the last piece is whatever follows the last `c`. */
  lemma {:induction false} SplitLast(p: string, c: char, e: string)
    requires c !in e
    ensures var parts := Split(p + [c] + e, [c]); parts[|parts| - 1] == e
    decreases |p|
  {
    if c !in p {
      SplitCons(p, c, e);
      SplitNone(e, c);
    } else {
      var k := FirstPosition(p, c);
      Regroup(p, c, e, k);
      SplitLast(p[k + 1..], c, e);
      LastAfterFirst(p + [c] + e, p[..k], c, p[k + 1..] + [c] + e, e);
    }
  }

  /** A first piece free of `c` does not change the last piece. */
  lemma LastAfterFirst(s: string, a: string, c: char, tail: string, e: string)
    requires c !in a && s == a + [c] + tail
    requires var parts := Split(tail, [c]); parts[|parts| - 1] == e
    ensures var parts := Split(s, [c]); parts[|parts| - 1] == e
  {
    SplitCons(a, c, tail);
    LastOfCons(Split(s, [c]), a, Split(tail, [c]));
  }

  lemma LastOfCons(parts: seq<string>, a: string, rest: seq<string>)
    requires rest != [] && parts == [a] + rest
    ensures parts[|parts| - 1] == rest[|rest| - 1]
  {
  }

  /** Cutting `p` at its `k`-th character. */
  lemma Regroup(p: string, c: char, e: string, k: nat)
    requires k < |p| && p[k] == c
    ensures p + [c] + e == p[..k] + [c] + (p[k + 1..] + [c] + e)
  {
    assert p == p[..k] + [c] + p[k + 1..];
  }

  /** The digit for `d` in bases up to 16, lower-case as JavaScript renders. */
  function DigitChar(d: nat): (c: char)
    requires d < 16
    ensures forall base: nat :: d < base ==> IsDigitIn(c, base)
    ensures DigitValue(c) == d
  {
    if d < 10 then ('0' as int + d) as char else ('a' as int + d - 10) as char
  }

  predicate IsDigitIn(c: char, base: nat) {
    ('0' <= c <= '9' && (c as int - '0' as int) < base)
    || ('a' <= c <= 'f' && (c as int - 'a' as int) + 10 < base)
  }

  function DigitValue(c: char): nat {
    if '0' <= c <= '9' then c as int - '0' as int
    else if 'a' <= c <= 'f' then c as int - 'a' as int + 10
    else 0
  }

  /** `n.toString(base)` for a non-negative integer: no leading zeros. */
  function NatToDigits(n: nat, base: nat): (s: string)
    requires 2 <= base <= 16
    ensures |s| >= 1 && (|s| > 1 ==> s[0] != '0')
    ensures forall i :: 0 <= i < |s| ==> IsDigitIn(s[i], base)
    decreases n
  {
    if n < base then [DigitChar(n)]
    else
      DivModFacts(n, base);
      NatToDigits(n / base, base) + [DigitChar(n % base)]
  }

  lemma DivModFacts(n: nat, base: nat)
    requires 2 <= base <= 16 && n >= base
    ensures n / base < n && n % base < base && (n / base) * base + n % base == n
  {
  }

  /** The value of a digit string read in `base` (the inverse of
      `NatToDigits`, tolerant of leading zeros). */
  function ParseDigits(s: string, base: nat): nat
    requires 2 <= base <= 16
  {
    if s == [] then 0
    else ParseDigits(s[..|s| - 1], base) * base + DigitValue(s[|s| - 1])
  }

  /** `${n}`: the decimal rendering JavaScript template literals use. */
  function NatToString(n: nat): string {
    NatToDigits(n, 10)
  }

  /** Reading back a rendered number gives the number. */
  lemma {:induction false} ParseNatToDigits(n: nat, base: nat)
    requires 2 <= base <= 16
    ensures ParseDigits(NatToDigits(n, base), base) == n
    decreases n
  {
    var s := NatToDigits(n, base);
    if n >= base {
      DivModFacts(n, base);
      ParseNatToDigits(n / base, base);
      assert s[..|s| - 1] == NatToDigits(n / base, base);
    }
  }

  function Pow(b: nat, k: nat): nat {
    if k == 0 then 1 else b * Pow(b, k - 1)
  }

  /** A number below `base^k` renders in at most `k` digits. */
  lemma {:induction false} DigitsLength(n: nat, base: nat, k: nat)
    requires 2 <= base <= 16 && 1 <= k && n < Pow(base, k)
    ensures |NatToDigits(n, base)| <= k
    decreases k
  {
    if n >= base {
      DivModFacts(n, base);
      assert Pow(base, 1) == base;
      assert k >= 2;
      var q, P := n / base, Pow(base, k - 1);
      assert q * base <= n < P * base;
      MulCancel(q, P, base);
      DigitsLength(q, base, k - 1);
    }
  }

  lemma MulCancel(a: nat, b: nat, c: nat)
    requires c > 0 && a * c < b * c
    ensures a < b
  {
  }

  /** `s` left-padded with `c` to at least `width` characters. */
  function PadLeft(s: string, width: nat, c: char): (r: string)
    ensures |r| == if |s| >= width then |s| else width
    ensures EndsWith(r, s)
  {
    if |s| >= width then s else seq(width - |s|, _ => c) + s
  }

  /** Leading zeros do not change a digit string's value. */
  lemma {:induction false} ParseLeadingZeros(z: string, s: string, base: nat)
    requires 2 <= base <= 16
    requires forall i :: 0 <= i < |z| ==> z[i] == '0'
    ensures ParseDigits(z + s, base) == ParseDigits(s, base)
    decreases |s|
  {
    if s == [] {
      ParseZeros(z, base);
      assert z + s == z;
    } else {
      assert (z + s)[..|z + s| - 1] == z + s[..|s| - 1];
      ParseLeadingZeros(z, s[..|s| - 1], base);
    }
  }

  lemma {:induction false} ParseZeros(z: string, base: nat)
    requires 2 <= base <= 16
    requires forall i :: 0 <= i < |z| ==> z[i] == '0'
    ensures ParseDigits(z, base) == 0
    decreases |z|
  {
    if z != [] {
      ParseZeros(z[..|z| - 1], base);
    }
  }

  /** MongoDB's default order on strings: binary comparison, here of code
      points (the same as comparing UTF-8 bytes). A proper prefix sorts first. */
  predicate LessEq(a: string, b: string)
    decreases |a|
  {
    a == [] || (b != [] && (a[0] < b[0] || (a[0] == b[0] && LessEq(a[1..], b[1..]))))
  }

  lemma {:induction false} LessEqTotal(a: string, b: string)
    ensures LessEq(a, b) || LessEq(b, a)
    decreases |a|
  {
    if a != [] && b != [] && a[0] == b[0] {
      LessEqTotal(a[1..], b[1..]);
    }
  }

  lemma {:induction false} LessEqTransitive(a: string, b: string, c: string)
    requires LessEq(a, b) && LessEq(b, c)
    ensures LessEq(a, c)
    decreases |a|
  {
    if a != [] && b != [] && c != [] && a[0] == b[0] == c[0] {
      LessEqTransitive(a[1..], b[1..], c[1..]);
    }
  }

  lemma {:induction false} LessEqAntisymmetric(a: string, b: string)
    requires LessEq(a, b) && LessEq(b, a)
    ensures a == b
    decreases |a|
  {
    if a != [] && b != [] {
      LessEqAntisymmetric(a[1..], b[1..]);
      assert a == [a[0]] + a[1..];
      assert b == [b[0]] + b[1..];
    }
  }
}

/**
 * The pieces of Python's `str` that the image catalogue, the `dd` status
 * parser and the post-install environment rely on: the ordering `<` of two
 * strings, slicing with `[::-1]`, `split(sep, maxsplit)`, `rstrip()`,
 * decimal formatting with `"{}".format(n)` and `int(digits)`.
 */
module Text {

  import opened Wrappers
  import Sorting

  /** Python's `a < b` on `str`: lexicographic comparison of code points. */
  predicate Lt(a: string, b: string)
  {
    if a == [] then b != []
    else if b == [] then false
    else a[0] < b[0] || (a[0] == b[0] && Lt(a[1..], b[1..]))
  }

  lemma {:induction false} LtIrreflexive(a: string)
    ensures !Lt(a, a)
  {
    if a != [] {
      LtIrreflexive(a[1..]);
    }
  }

  lemma {:induction false} LtTransitive(a: string, b: string, c: string)
    requires Lt(a, b) && Lt(b, c)
    ensures Lt(a, c)
  {
    if a != [] && b != [] && c != [] && a[0] == b[0] == c[0] {
      LtTransitive(a[1..], b[1..], c[1..]);
    }
  }

  /** Any two different strings are ordered one way or the other. */
  lemma {:induction false} LtTotal(a: string, b: string)
    requires a != b
    ensures Lt(a, b) || Lt(b, a)
  {
    if a != [] && b != [] && a[0] == b[0] {
      assert a == [a[0]] + a[1..] && b == [b[0]] + b[1..];
      LtTotal(a[1..], b[1..]);
    }
  }

  /** `Lt` is a strict order, so sorting strings with it is well defined. */
  lemma LtStrictOrder()
    ensures Sorting.StrictOrder(Lt)
  {
    forall a | true
      ensures !Lt(a, a)
    {
      LtIrreflexive(a);
    }
    forall a, b, c | Lt(a, b) && Lt(b, c)
      ensures Lt(a, c)
    {
      LtTransitive(a, b, c);
    }
  }

  /** A common prefix does not change how two strings compare. */
  lemma {:induction false} LtCommonPrefix(p: string, a: string, b: string)
    ensures Lt(p + a, p + b) == Lt(a, b)
  {
    if p != [] {
      assert (p + a)[0] == p[0] == (p + b)[0];
      assert (p + a)[1..] == p[1..] + a;
      assert (p + b)[1..] == p[1..] + b;
      LtCommonPrefix(p[1..], a, b);
    } else {
      assert p + a == a && p + b == b;
    }
  }

  /** Python's `s[::-1]`. */
  function Reverse<T>(s: seq<T>): (r: seq<T>)
    ensures |r| == |s|
  {
    if s == [] then [] else Reverse(s[1..]) + [s[0]]
  }

  lemma {:induction false} ReverseAt<T>(s: seq<T>, k: nat)
    requires k < |s|
    ensures Reverse(s)[k] == s[|s| - 1 - k]
  {
    if k < |s| - 1 {
      ReverseAt(s[1..], k);
    }
  }

  lemma ReverseReverse<T>(s: seq<T>)
    ensures Reverse(Reverse(s)) == s
  {
    forall k | 0 <= k < |s|
      ensures Reverse(Reverse(s))[k] == s[k]
    {
      ReverseAt(Reverse(s), k);
      ReverseAt(s, |s| - 1 - k);
    }
  }

  lemma ReverseAppend<T>(a: seq<T>, b: seq<T>)
    ensures Reverse(a + b) == Reverse(b) + Reverse(a)
  {
    var r, t := Reverse(a + b), Reverse(b) + Reverse(a);
    forall k | 0 <= k < |a| + |b|
      ensures r[k] == t[k]
    {
      ReverseAt(a + b, k);
      if k < |b| {
        ReverseAt(b, k);
      } else {
        ReverseAt(a, k - |b|);
      }
    }
  }

  lemma ReverseMembers<T>(s: seq<T>, x: T)
    ensures x in Reverse(s) <==> x in s
  {
    if x in s {
      var k :| 0 <= k < |s| && s[k] == x;
      ReverseAt(s, |s| - 1 - k);
    }
    if x in Reverse(s) {
      var k :| 0 <= k < |s| && Reverse(s)[k] == x;
      ReverseAt(s, k);
    }
  }

  lemma ReverseAround<T>(x: seq<T>, c: T, z: seq<T>)
    ensures Reverse(x + [c] + z) == Reverse(z) + [c] + Reverse(x)
  {
    ReverseAppend(x + [c], z);
    ReverseAppend(x, [c]);
    assert Reverse([c]) == [c];
  }

  /** Regrouping a concatenation of five pieces. */
  lemma Regroup5<T>(a: seq<T>, b: seq<T>, c: seq<T>, d: seq<T>, e: seq<T>)
    ensures a + b + c + d + e == a + (b + c + d + e)
    ensures a + b + c + d + e == a + (b + c + d) + e
  {
  }

  /** Position of the first `c` in `s`, or `|s|` when there is none (`str.find`). */
  function Find(s: string, c: char): (i: nat)
    ensures i <= |s|
    ensures i < |s| ==> s[i] == c
    ensures forall k :: 0 <= k < i ==> s[k] != c
  {
    if s == [] then 0
    else if s[0] == c then 0
    else 1 + Find(s[1..], c)
  }

  /**
   * Python's `s.split(sep, maxsplit)` for a one-character separator: cut at
   * the first `maxsplit` occurrences of `sep`, from the left.
   */
  function SplitAtMost(s: string, sep: char, maxsplit: nat): (r: seq<string>)
    ensures 1 <= |r| <= maxsplit + 1
  {
    var i := Find(s, sep);
    if maxsplit == 0 || i == |s| then [s]
    else [s[..i]] + SplitAtMost(s[i + 1..], sep, maxsplit - 1)
  }

  lemma {:induction false} FindAfter(a: string, c: char, rest: string)
    requires c !in a
    ensures Find(a + [c] + rest, c) == |a|
  {
    if a != [] {
      assert (a + [c] + rest)[1..] == a[1..] + [c] + rest;
      FindAfter(a[1..], c, rest);
    }
  }

  /** Splitting a string without the separator gives the string alone. */
  lemma SplitAbsent(s: string, sep: char, maxsplit: nat)
    requires sep !in s
    ensures SplitAtMost(s, sep, maxsplit) == [s]
  {
    assert Find(s, sep) == |s|;
  }

  /** `(a + sep + b + sep + c).split(sep, 2)` when `a` and `b` hold no separator. */
  lemma SplitTwice(a: string, b: string, c: string, sep: char)
    requires sep !in a && sep !in b
    ensures SplitAtMost(a + [sep] + b + [sep] + c, sep, 2) == [a, b, c]
  {
    var s := a + [sep] + b + [sep] + c;
    FindAfter(a, sep, b + [sep] + c);
    assert s == a + [sep] + (b + [sep] + c);
    assert s[..|a|] == a && s[|a| + 1..] == b + [sep] + c;
    assert SplitAtMost(s, sep, 2) == [a] + SplitAtMost(b + [sep] + c, sep, 1);
    FindAfter(b, sep, c);
    assert (b + [sep] + c)[..|b|] == b && (b + [sep] + c)[|b| + 1..] == c;
    assert SplitAtMost(b + [sep] + c, sep, 1) == [b] + SplitAtMost(c, sep, 0);
  }

  /** `(a + sep + c).split(sep, 2)` when neither `a` nor `c` holds the separator. */
  lemma SplitOnce(a: string, c: string, sep: char)
    requires sep !in a && sep !in c
    ensures SplitAtMost(a + [sep] + c, sep, 2) == [a, c]
  {
    var s := a + [sep] + c;
    FindAfter(a, sep, c);
    assert s[..|a|] == a && s[|a| + 1..] == c;
    SplitAbsent(c, sep, 1);
  }

  /** Python's `sep.join(parts)`. */
  function Join(parts: seq<string>, sep: char): string
  {
    if parts == [] then []
    else if |parts| == 1 then parts[0]
    else parts[0] + [sep] + Join(parts[1..], sep)
  }

  /** `sep.join` of two or more pieces starts with the first piece and a separator. */
  lemma JoinCons(a: string, rest: seq<string>, sep: char)
    requires rest != []
    ensures Join([a] + rest, sep) == a + [sep] + Join(rest, sep)
  {
    assert ([a] + rest)[1..] == rest;
  }

  /** A string is the part before position `i`, the character there and the part after. */
  lemma CutAt<T>(s: seq<T>, i: nat)
    requires i < |s|
    ensures s == s[..i] + [s[i]] + s[i + 1..]
  {
  }

  /** Joining the pieces of a split gives back the string. */
  lemma {:induction false} SplitJoin(s: string, sep: char, maxsplit: nat)
    ensures Join(SplitAtMost(s, sep, maxsplit), sep) == s
  {
    var i := Find(s, sep);
    if maxsplit > 0 && i < |s| {
      var rest := SplitAtMost(s[i + 1..], sep, maxsplit - 1);
      SplitJoin(s[i + 1..], sep, maxsplit - 1);
      JoinCons(s[..i], rest, sep);
      CutAt(s, i);
    }
  }

  /**
   * No piece but the last holds the separator, and the last holds it only
   * when all `maxsplit` cuts were made.
   */
  lemma {:induction false} SplitSeparators(s: string, sep: char, maxsplit: nat)
    ensures var r := SplitAtMost(s, sep, maxsplit);
      && (forall k :: 0 <= k < |r| - 1 ==> sep !in r[k])
      && (sep in r[|r| - 1] ==> |r| == maxsplit + 1)
  {
    var i := Find(s, sep);
    if maxsplit > 0 && i < |s| {
      var rest := SplitAtMost(s[i + 1..], sep, maxsplit - 1);
      SplitSeparators(s[i + 1..], sep, maxsplit - 1);
      var r := [s[..i]] + rest;
      assert SplitAtMost(s, sep, maxsplit) == r;
      forall k | 0 <= k < |r| - 1
        ensures sep !in r[k]
      {
        if k > 0 {
          assert r[k] == rest[k - 1];
        }
      }
    }
  }

  /**
   * What `split` promises: between one and `maxsplit + 1` pieces, joining
   * them back gives the input, no piece but the last holds the separator,
   * and the last holds it only when all `maxsplit` cuts were made.
   */
  lemma SplitAtMostSpec(s: string, sep: char, maxsplit: nat)
    ensures var r := SplitAtMost(s, sep, maxsplit);
      && 1 <= |r| <= maxsplit + 1
      && Join(r, sep) == s
      && (forall k :: 0 <= k < |r| - 1 ==> sep !in r[k])
      && (sep in r[|r| - 1] ==> |r| == maxsplit + 1)
  {
    SplitJoin(s, sep, maxsplit);
    SplitSeparators(s, sep, maxsplit);
  }

  /** The characters for which Python's `str.isspace()` holds. */
  predicate IsSpace(c: char)
  {
    || ('\t' <= c <= '\r')
    || ('\U{1C}' <= c <= ' ')
    || c == '\U{85}' || c == '\U{A0}' || c == '\U{1680}'
    || ('\U{2000}' <= c <= '\U{200A}')
    || c == '\U{2028}' || c == '\U{2029}' || c == '\U{202F}' || c == '\U{205F}' || c == '\U{3000}'
  }

  /** Python's `s.rstrip()`: the longest prefix that does not end in whitespace. */
  function RStrip(s: string): (r: string)
    ensures r <= s
    ensures r == [] || !IsSpace(r[|r| - 1])
    ensures forall k :: |r| <= k < |s| ==> IsSpace(s[k])
  {
    if s == [] || !IsSpace(s[|s| - 1]) then s else RStrip(s[..|s| - 1])
  }

  /** Whitespace after a part that does not end in whitespace is stripped from the rest only. */
  lemma {:induction false} RStripAfter(a: string, b: string)
    requires a != [] && !IsSpace(a[|a| - 1])
    ensures RStrip(a + b) == a + RStrip(b)
  {
    if b == [] {
      assert a + b == a;
    } else if IsSpace(b[|b| - 1]) {
      assert (a + b)[..|a + b| - 1] == a + b[..|b| - 1];
      RStripAfter(a, b[..|b| - 1]);
    }
  }

  predicate IsDigit(c: char)
  {
    '0' <= c <= '9'
  }

  predicate AllDigits(s: string)
  {
    forall k :: 0 <= k < |s| ==> IsDigit(s[k])
  }

  /** Python's `int(s)` on a string of decimal digits. */
  function DigitsValue(s: string): nat
    requires AllDigits(s)
  {
    if s == [] then 0
    else 10 * DigitsValue(s[..|s| - 1]) + (s[|s| - 1] - '0') as nat
  }

  /** Python's `"{}".format(n)` for a non-negative integer. */
  function NatToString(n: nat): (r: string)
    ensures r != [] && AllDigits(r)
    ensures |r| > 1 ==> r[0] != '0'
  {
    var last := ['0' + (n % 10) as char];
    if n < 10 then last else NatToString(n / 10) + last
  }

  /** Formatting a number and reading it back gives the number. */
  lemma {:induction false} NatToStringRoundTrip(n: nat)
    ensures DigitsValue(NatToString(n)) == n
  {
    var r := NatToString(n);
    if n >= 10 {
      NatToStringRoundTrip(n / 10);
      assert r[..|r| - 1] == NatToString(n / 10);
    }
  }

  /** Different numbers are formatted differently. */
  lemma NatToStringInjective(m: nat, n: nat)
    requires NatToString(m) == NatToString(n)
    ensures m == n
  {
    NatToStringRoundTrip(m);
    NatToStringRoundTrip(n);
  }

  /** `p` occurs in `s` starting at index `i`. */
  predicate OccursAt(s: string, p: string, i: nat)
  {
    i + |p| <= |s| && s[i..i + |p|] == p
  }

  /**
   * Where a greedy regular-expression group that may end anywhere in
   * `(lo, hi]` stops when pattern `p` must follow it: backtracking from `hi`,
   * the first end at which `p` occurs.
   */
  function LastOccurrence(s: string, p: string, lo: nat, hi: nat): (r: Option<nat>)
    ensures r.Some? ==> lo < r.value <= hi && OccursAt(s, p, r.value)
    ensures r.Some? ==> forall x :: r.value < x <= hi ==> !OccursAt(s, p, x)
    ensures r.None? ==> forall x :: lo < x <= hi ==> !OccursAt(s, p, x)
  {
    if hi <= lo then None
    else if OccursAt(s, p, hi) then Some(hi)
    else LastOccurrence(s, p, lo, hi - 1)
  }

  /** Index of the first line break at or after `i`, or `|s|`: where a `.+` from `i` must stop. */
  function LineEnd(s: string, i: nat): (e: nat)
    requires i <= |s|
    ensures i <= e <= |s|
    ensures forall k :: i <= k < e ==> s[k] != '\n'
    ensures e < |s| ==> s[e] == '\n'
  {
    i + Find(s[i..], '\n')
  }

  /** A line break at `e`, or the end at `e`, with none from `i` up to it, is where the line ends. */
  lemma LineEndAt(s: string, i: nat, e: nat)
    requires i <= e <= |s|
    requires forall k :: i <= k < e ==> s[k] != '\n'
    requires e < |s| ==> s[e] == '\n'
    ensures LineEnd(s, i) == e
  {
  }
}

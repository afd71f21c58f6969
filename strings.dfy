/**
 The parts of Rust's `String` and slice API that the header encoder relies on:
 the lexicographic order `Ord for String` (which `slice::sort` uses), the
 in-place sort of a vector of strings, and `join` with a separator. A `split`
 is defined as well, as the inverse of `join`, so that the segments of a joined
 string can be talked about.

 Rust compares strings byte by byte in their UTF-8 encoding; UTF-8 preserves the
 order of code points, so comparing `char`s (Unicode scalar values) one by one
 gives the same order.
 */
module Strings {

  /** Lexicographic order on strings: a proper prefix comes first. */
  predicate LessEq(a: string, b: string)
    decreases |a|
  {
    |a| == 0 || (|b| > 0 && (a[0] < b[0] || (a[0] == b[0] && LessEq(a[1..], b[1..]))))
  }

  lemma {:induction false} LessEqReflexive(a: string)
    ensures LessEq(a, a)
    decreases |a|
  {
    if |a| > 0 { LessEqReflexive(a[1..]); }
  }

  lemma {:induction false} LessEqTotal(a: string, b: string)
    ensures LessEq(a, b) || LessEq(b, a)
    decreases |a|
  {
    if |a| > 0 && |b| > 0 && a[0] == b[0] { LessEqTotal(a[1..], b[1..]); }
  }

  lemma {:induction false} LessEqAntisymmetric(a: string, b: string)
    requires LessEq(a, b) && LessEq(b, a)
    ensures a == b
    decreases |a|
  {
    if |a| > 0 {
      LessEqAntisymmetric(a[1..], b[1..]);
      assert a == [a[0]] + a[1..] && b == [b[0]] + b[1..];
    }
  }

  lemma {:induction false} LessEqTransitive(a: string, b: string, c: string)
    requires LessEq(a, b) && LessEq(b, c)
    ensures LessEq(a, c)
    decreases |a|
  {
    if |a| > 0 && a[0] == b[0] && b[0] == c[0] {
      LessEqTransitive(a[1..], b[1..], c[1..]);
    }
  }

  /** Ascending order, every pair compared (so no transitivity is needed to use it). */
  predicate Sorted(s: seq<string>)
  {
    forall i, j :: 0 <= i < j < |s| ==> LessEq(s[i], s[j])
  }

  /** Two sorted sequences holding the same strings, with the same multiplicities, are equal. */
  lemma {:induction false} SortedUnique(x: seq<string>, y: seq<string>)
    requires Sorted(x) && Sorted(y)
    requires multiset(x) == multiset(y)
    ensures x == y
    decreases |x|
  {
    assert |y| == |multiset(y)| == |multiset(x)| == |x|;
    if |x| > 0 {
      SortedHeadIsLeast(x);
      SortedHeadIsLeast(y);
      LessEqAntisymmetric(x[0], y[0]);
      SortedTail(x);
      SortedTail(y);
      SortedUnique(x[1..], y[1..]);
      assert x == [x[0]] + x[1..] && y == [y[0]] + y[1..];
    }
  }

  lemma SortedHeadIsLeast(x: seq<string>)
    requires Sorted(x) && |x| > 0
    ensures IsLeast(x[0], multiset(x))
  {
    forall e | e in multiset(x) ensures LessEq(x[0], e) {
      var k :| 0 <= k < |x| && x[k] == e;
      if k == 0 { LessEqReflexive(e); }
    }
  }

  lemma SortedTail(x: seq<string>)
    requires Sorted(x) && |x| > 0
    ensures Sorted(x[1..]) && multiset(x[1..]) == multiset(x) - multiset{x[0]}
  {
    assert x == [x[0]] + x[1..];
  }

  /** `x` is a least element of `b`. */
  ghost predicate IsLeast(x: string, b: multiset<string>)
  {
    x in b && forall y :: y in b ==> LessEq(x, y)
  }

  lemma {:induction false} LeastExists(b: multiset<string>)
    requires |b| > 0
    ensures exists x :: IsLeast(x, b)
    decreases |b|
  {
    var z :| z in b;
    var rest := b - multiset{z};
    if |rest| == 0 {
      assert b == multiset{z};
      LessEqReflexive(z);
      assert IsLeast(z, b);
    } else {
      LeastExists(rest);
      var m :| IsLeast(m, rest);
      if LessEq(z, m) {
        forall y | y in b ensures LessEq(z, y) {
          if y == z { LessEqReflexive(z); } else { assert y in rest; LessEqTransitive(z, m, y); }
        }
        assert IsLeast(z, b);
      } else {
        LessEqTotal(z, m);
        assert IsLeast(m, b);
      }
    }
  }

  /** The strings of `b` in ascending order: what sorting any arrangement of `b` yields. */
  ghost function SortBag(b: multiset<string>): (s: seq<string>)
    ensures multiset(s) == b
    ensures Sorted(s)
    decreases |b|
  {
    if |b| == 0 then []
    else
      LeastExists(b);
      var x :| IsLeast(x, b);
      var rest := SortBag(b - multiset{x});
      LeastFirst(x, rest, b);
      [x] + rest
  }

  lemma LeastFirst(x: string, rest: seq<string>, b: multiset<string>)
    requires IsLeast(x, b)
    requires Sorted(rest) && multiset(rest) == b - multiset{x}
    ensures Sorted([x] + rest) && multiset([x] + rest) == b
  {
    forall j | 0 <= j < |rest| ensures LessEq(x, rest[j]) {
      assert rest[j] in multiset(rest);
    }
  }

  /** Ascending and a permutation of the input: exactly the sorted form of its strings. */
  lemma SortedIsSortBag(s: seq<string>)
    requires Sorted(s)
    ensures s == SortBag(multiset(s))
  {
    SortedUnique(s, SortBag(multiset(s)));
  }

  /** `slice::sort` on a vector of strings: afterwards ascending, and a permutation of before. */
  method SortInPlace(a: array<string>)
    modifies a
    ensures Sorted(a[..])
    ensures multiset(a[..]) == old(multiset(a[..]))
    ensures a[..] == SortBag(old(multiset(a[..])))
  {
    var i := 0;
    while i < a.Length
      invariant 0 <= i <= a.Length
      invariant forall p, q :: 0 <= p < q < i ==> LessEq(a[p], a[q])
      invariant multiset(a[..]) == old(multiset(a[..]))
    {
      InsertLast(a, i);
      i := i + 1;
    }
    SortedIsSortBag(a[..]);
  }

  /** One step of insertion sort: `a[i]` moves down into the sorted prefix `a[..i]`. */
  method InsertLast(a: array<string>, i: nat)
    requires i < a.Length
    requires forall p, q :: 0 <= p < q < i ==> LessEq(a[p], a[q])
    modifies a
    ensures forall p, q :: 0 <= p < q <= i ==> LessEq(a[p], a[q])
    ensures multiset(a[..]) == old(multiset(a[..]))
  {
    var j := i;
    while j > 0 && !LessEq(a[j - 1], a[j])
      invariant 0 <= j <= i
      invariant forall p, q :: 0 <= p < q <= i && p != j && q != j ==> LessEq(a[p], a[q])
      invariant forall q :: j < q <= i ==> LessEq(a[j], a[q])
      invariant multiset(a[..]) == old(multiset(a[..]))
    {
      LessEqTotal(a[j - 1], a[j]);
      Swap(a, j - 1, j);
      j := j - 1;
    }
    forall p | 0 <= p < j ensures LessEq(a[p], a[j]) {
      if p < j - 1 { LessEqTransitive(a[p], a[j - 1], a[j]); }
    }
  }

  method Swap(a: array<string>, i: nat, j: nat)
    requires i < j < a.Length
    modifies a
    ensures a[i] == old(a[j]) && a[j] == old(a[i])
    ensures forall k :: 0 <= k < a.Length && k != i && k != j ==> a[k] == old(a[k])
    ensures multiset(a[..]) == old(multiset(a[..]))
  {
    a[i], a[j] := a[j], a[i];
  }

  /** `slice::join`: the parts with `sep` between consecutive ones. */
  function Join(parts: seq<string>, sep: string): string
    decreases |parts|
  {
    if |parts| == 0 then ""
    else if |parts| == 1 then parts[0]
    else parts[0] + sep + Join(parts[1..], sep)
  }

  lemma JoinTwo(a: string, b: string, sep: string)
    ensures Join([a, b], sep) == a + sep + b
  {
    assert [a, b][1..] == [b];
  }

  /** Splits at every occurrence of `c`; the pieces contain no `c`. */
  function Split(s: string, c: char): (r: seq<string>)
    ensures |r| > 0
    ensures forall i :: 0 <= i < |r| ==> c !in r[i]
    decreases |s|
  {
    if |s| == 0 then [""]
    else
      var rest := Split(s[1..], c);
      if s[0] == c then [""] + rest
      else [[s[0]] + rest[0]] + rest[1..]
  }

  lemma {:induction false} SplitWithout(s: string, c: char)
    requires c !in s
    ensures Split(s, c) == [s]
    decreases |s|
  {
    if |s| > 0 {
      SplitWithout(s[1..], c);
      assert s == [s[0]] + s[1..];
    }
  }

  lemma {:induction false} SplitAfter(s: string, c: char, t: string)
    requires c !in s
    ensures Split(s + [c] + t, c) == [s] + Split(t, c)
    decreases |s|
  {
    if |s| == 0 {
      assert s + [c] + t == [c] + t;
      assert ([c] + t)[1..] == t;
    } else {
      var u := s + [c] + t;
      assert u[1..] == s[1..] + [c] + t;
      SplitAfter(s[1..], c, t);
      assert [s[0]] + s[1..] == s;
    }
  }

  /** Splitting a joined sequence at the separator gives back the parts, when no part holds it. */
  lemma {:induction false} SplitJoin(parts: seq<string>, c: char)
    requires |parts| > 0
    requires forall i :: 0 <= i < |parts| ==> c !in parts[i]
    ensures Split(Join(parts, [c]), c) == parts
    decreases |parts|
  {
    if |parts| == 1 {
      SplitWithout(parts[0], c);
    } else {
      SplitJoin(parts[1..], c);
      SplitAfter(parts[0], c, Join(parts[1..], [c]));
      assert parts == [parts[0]] + parts[1..];
    }
  }
}

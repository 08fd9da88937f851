/** `unique` from util.go: sort a string slice, then squeeze out repeats in
    place. Go orders strings byte-wise on their UTF-8 encoding, which is
    the same as ordering rune sequences code point by code point. */
module Unique {

  /** Go's `<` on strings: lexicographic, a proper prefix first. */
  predicate Less(a: string, b: string) {
    if |a| == 0 then |b| > 0
    else |b| > 0 && (a[0] < b[0] || (a[0] == b[0] && Less(a[1..], b[1..])))
  }

  predicate LessEq(a: string, b: string) {
    a == b || Less(a, b)
  }

  lemma {:induction false} LessIrreflexive(a: string)
    ensures !Less(a, a)
  {
    if |a| > 0 {
      LessIrreflexive(a[1..]);
    }
  }

  lemma {:induction false} LessTransitive(a: string, b: string, c: string)
    requires Less(a, b) && Less(b, c)
    ensures Less(a, c)
  {
    if |a| > 0 && a[0] == b[0] && b[0] == c[0] {
      LessTransitive(a[1..], b[1..], c[1..]);
    }
  }

  lemma {:induction false} LessTotal(a: string, b: string)
    ensures a == b || Less(a, b) || Less(b, a)
  {
    if |a| > 0 && |b| > 0 && a[0] == b[0] {
      LessTotal(a[1..], b[1..]);
      if a[1..] == b[1..] {
        assert a == [a[0]] + a[1..] && b == [b[0]] + b[1..];
      }
    }
  }

  lemma LessAsymmetric(a: string, b: string)
    requires Less(a, b)
    ensures !Less(b, a)
  {
    if Less(b, a) {
      LessTransitive(a, b, a);
      LessIrreflexive(a);
    }
  }

  ghost predicate Sorted(s: seq<string>) {
    forall i, j :: 0 <= i < j < |s| ==> LessEq(s[i], s[j])
  }

  ghost predicate StrictlyAscending(s: seq<string>) {
    forall i, j :: 0 <= i < j < |s| ==> Less(s[i], s[j])
  }

  // ------------------------------------------------------------ sorting

  /** Inserts `x` into a sorted sequence. */
  function Insert(x: string, s: seq<string>): (r: seq<string>)
    requires Sorted(s)
    ensures Sorted(r)
    ensures multiset(r) == multiset(s) + multiset{x}
  {
    if |s| == 0 then [x]
    else if LessEq(x, s[0]) then
      InsertFront(x, s);
      [x] + s
    else
      var t := Insert(x, s[1..]);
      InsertBehind(x, s, t);
      assert s == [s[0]] + s[1..];
      [s[0]] + t
  }

  lemma InsertFront(x: string, s: seq<string>)
    requires Sorted(s) && |s| > 0 && LessEq(x, s[0])
    ensures Sorted([x] + s)
  {
    var r := [x] + s;
    forall i, j | 0 <= i < j < |r|
      ensures LessEq(r[i], r[j])
    {
      if i == 0 && j > 1 && x != s[0] && s[0] != s[j - 1] {
        LessTransitive(x, s[0], s[j - 1]);
      }
    }
  }

  lemma InsertBehind(x: string, s: seq<string>, t: seq<string>)
    requires Sorted(s) && |s| > 0 && !LessEq(x, s[0])
    requires Sorted(t) && multiset(t) == multiset(s[1..]) + multiset{x}
    ensures Sorted([s[0]] + t)
  {
    LessTotal(x, s[0]);
    var r := [s[0]] + t;
    forall j | 0 <= j < |t|
      ensures LessEq(s[0], t[j])
    {
      assert t[j] in multiset(t);
      if t[j] != x {
        assert t[j] in multiset(s[1..]);
        var k :| 0 <= k < |s[1..]| && s[1..][k] == t[j];
        assert s[k + 1] == t[j];
      }
    }
    forall i, j | 0 <= i < j < |r|
      ensures LessEq(r[i], r[j])
    {
      if i > 0 {
        assert r[i] == t[i - 1] && r[j] == t[j - 1];
      } else {
        assert r[j] == t[j - 1];
      }
    }
  }

  /** `sort.Strings`: a sorted permutation. */
  function SortStrings(s: seq<string>): (r: seq<string>)
    ensures Sorted(r)
    ensures multiset(r) == multiset(s)
  {
    if |s| == 0 then []
    else
      assert s == [s[0]] + s[1..];
      Insert(s[0], SortStrings(s[1..]))
  }

  // ------------------------------------------------------------- unique

  /** A new element after the last kept one extends the kept prefix. */
  lemma DedupeKeep(out: seq<string>, sorted: seq<string>, j: nat)
    requires Sorted(sorted) && 0 < j < |sorted|
    requires StrictlyAscending(out) && |out| > 0 && out[|out| - 1] == sorted[j - 1]
    requires forall x :: x in out <==> x in sorted[..j]
    requires sorted[j] != sorted[j - 1]
    ensures StrictlyAscending(out + [sorted[j]])
    ensures forall x :: x in out + [sorted[j]] <==> x in sorted[..j + 1]
  {
    assert Less(sorted[j - 1], sorted[j]);
    var out' := out + [sorted[j]];
    forall k, l | 0 <= k < l < |out'|
      ensures Less(out'[k], out'[l])
    {
      if l == |out| && k < |out| - 1 {
        LessTransitive(out[k], out[|out| - 1], sorted[j]);
      }
    }
    assert sorted[..j + 1] == sorted[..j] + [sorted[j]];
  }

  /** A repeat of the last kept element changes nothing. */
  lemma DedupeSkip(out: seq<string>, sorted: seq<string>, j: nat)
    requires 0 < j < |sorted| && |out| > 0 && out[|out| - 1] == sorted[j - 1]
    requires forall x :: x in out <==> x in sorted[..j]
    requires sorted[j] == sorted[j - 1]
    ensures forall x :: x in out <==> x in sorted[..j + 1]
  {
    assert sorted[..j + 1] == sorted[..j] + [sorted[j]];
  }

  /** `unique`: the sorted slice with repeats squeezed out. The result is
      strictly ascending and holds exactly the elements of the input; an
      empty input is returned as it is. */
  method Unique(a: seq<string>) returns (r: seq<string>)
    ensures StrictlyAscending(r)
    ensures forall x :: x in r <==> x in a
    ensures |r| <= |a|
    ensures |a| == 0 ==> r == a
  {
    if |a| < 1 {
      return a;
    }
    var sorted := SortStrings(a);
    SameElements(sorted, a);
    assert |sorted| == |multiset(sorted)| == |multiset(a)| == |a|;
    r := Squeeze(sorted);
  }

  /** The loop of `unique` over the sorted slice; its kept prefix
      `s[:i+1]` is the sequence `r`. */
  method Squeeze(sorted: seq<string>) returns (r: seq<string>)
    requires Sorted(sorted) && |sorted| > 0
    ensures StrictlyAscending(r)
    ensures forall x :: x in r <==> x in sorted
    ensures |r| <= |sorted|
  {
    r := [sorted[0]];
    assert sorted[..1] == [sorted[0]];
    var j := 1;
    while j < |sorted|
      invariant 1 <= j <= |sorted|
      invariant 1 <= |r| <= j
      invariant StrictlyAscending(r)
      invariant r[|r| - 1] == sorted[j - 1]
      invariant forall x :: x in r <==> x in sorted[..j]
    {
      if r[|r| - 1] != sorted[j] {
        DedupeKeep(r, sorted, j);
        r := r + [sorted[j]];
      } else {
        DedupeSkip(r, sorted, j);
      }
      j := j + 1;
    }
    assert sorted[..j] == sorted;
  }

  lemma SameElements(sorted: seq<string>, a: seq<string>)
    requires multiset(sorted) == multiset(a)
    ensures forall x :: x in sorted <==> x in a
  {
    forall x
      ensures x in sorted <==> x in a
    {
      assert x in sorted <==> x in multiset(sorted);
      assert x in a <==> x in multiset(a);
    }
  }

  /** Two strictly ascending sequences with the same elements are equal:
      the result of `unique` is the one canonical listing of its set. */
  lemma {:induction false} StrictlyAscendingUnique(r: seq<string>, q: seq<string>)
    requires StrictlyAscending(r) && StrictlyAscending(q)
    requires forall x :: x in r <==> x in q
    ensures r == q
    decreases |r|
  {
    assert |r| > 0 ==> r[0] in r;
    assert |q| > 0 ==> q[0] in q;
    if |r| > 0 && |q| > 0 {
      if r[0] != q[0] {
        assert r[0] in q && q[0] in r;
        var m :| 0 <= m < |q| && q[m] == r[0];
        var k :| 0 <= k < |r| && r[k] == q[0];
        LessAsymmetric(r[0], q[0]);
      } else {
        forall x ensures x in r[1..] <==> x in q[1..] {
          if x in r[1..] {
            var k :| 0 <= k < |r| - 1 && r[1..][k] == x;
            assert Less(r[0], r[k + 1]);
            LessIrreflexive(r[0]);
            assert x in q;
            var m :| 0 <= m < |q| && q[m] == x;
            assert q[1..][m - 1] == x;
          }
          if x in q[1..] {
            var k :| 0 <= k < |q| - 1 && q[1..][k] == x;
            assert Less(q[0], q[k + 1]);
            LessIrreflexive(q[0]);
            assert x in r;
            var m :| 0 <= m < |r| && r[m] == x;
            assert r[1..][m - 1] == x;
          }
        }
        StrictlyAscendingUnique(r[1..], q[1..]);
        assert r == [r[0]] + r[1..] && q == [q[0]] + q[1..];
      }
    }
  }
}

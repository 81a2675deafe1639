/**
 * The order Rust's `String::cmp` uses (lexicographic by character; a proper
 * prefix comes first) and a stable sort by a caller-given comparison, the
 * guarantee `slice::sort` and `slice::sort_by` give.
 */
module Ordering {

  /** `a <= b` in Rust's string order. Since UTF-8 preserves code point order, comparing chars is comparing bytes. */
  predicate LexLe(a: string, b: string) {
    a == [] || (b != [] && (a[0] < b[0] || (a[0] == b[0] && LexLe(a[1..], b[1..]))))
  }

  lemma {:induction false} LexLeTotal(a: string, b: string)
    ensures LexLe(a, b) || LexLe(b, a)
  {
    if a != [] && b != [] && a[0] == b[0] {
      LexLeTotal(a[1..], b[1..]);
    }
  }

  lemma {:induction false} LexLeAntisymmetric(a: string, b: string)
    requires LexLe(a, b) && LexLe(b, a)
    ensures a == b
  {
    if a != [] && b != [] {
      LexLeAntisymmetric(a[1..], b[1..]);
      assert a == [a[0]] + a[1..] && b == [b[0]] + b[1..];
    }
  }

  lemma {:induction false} LexLeTransitive(a: string, b: string, c: string)
    requires LexLe(a, b) && LexLe(b, c)
    ensures LexLe(a, c)
  {
    if a != [] && b != [] && c != [] && a[0] == b[0] == c[0] {
      LexLeTransitive(a[1..], b[1..], c[1..]);
    }
  }

  /** A comparison that is total and transitive: what a sort needs to produce ordered output. */
  ghost predicate TotalPreorder<T(!new)>(le: (T, T) -> bool) {
    && (forall a, b :: le(a, b) || le(b, a))
    && (forall a, b, c :: le(a, b) && le(b, c) ==> le(a, c))
  }

  ghost predicate Antisymmetric<T(!new)>(le: (T, T) -> bool) {
    forall a, b :: le(a, b) && le(b, a) ==> a == b
  }

  ghost predicate SortedBy<T>(s: seq<T>, le: (T, T) -> bool) {
    forall i, j :: 0 <= i < j < |s| ==> le(s[i], s[j])
  }

  lemma LexLeTotalOrder()
    ensures TotalPreorder(LexLe) && Antisymmetric(LexLe)
  {
    forall a, b ensures LexLe(a, b) || LexLe(b, a) {
      LexLeTotal(a, b);
    }
    forall a, b, c | LexLe(a, b) && LexLe(b, c) ensures LexLe(a, c) {
      LexLeTransitive(a, b, c);
    }
    forall a, b | LexLe(a, b) && LexLe(b, a) ensures a == b {
      LexLeAntisymmetric(a, b);
    }
  }

  /** Inserts `x` into `s` just before the first element that is not `le` `x`, so after every equal one. */
  function InsertBy<T>(x: T, s: seq<T>, le: (T, T) -> bool): (r: seq<T>)
    ensures multiset(r) == multiset(s) + multiset{x}
  {
    if s == [] || !le(s[0], x) then [x] + s
    else
      assert s == [s[0]] + s[1..];
      [s[0]] + InsertBy(x, s[1..], le)
  }

  /** Insertion sort, taking the elements from first to last, so that equal elements keep their order. */
  function SortBy<T>(s: seq<T>, le: (T, T) -> bool): (r: seq<T>)
    ensures multiset(r) == multiset(s)
  {
    if s == [] then []
    else
      assert s == s[..|s| - 1] + [s[|s| - 1]];
      InsertBy(s[|s| - 1], SortBy(s[..|s| - 1], le), le)
  }

  lemma {:induction false} InsertBySorted<T(!new)>(x: T, s: seq<T>, le: (T, T) -> bool)
    requires TotalPreorder(le) && SortedBy(s, le)
    ensures SortedBy(InsertBy(x, s, le), le)
  {
    if s == [] || !le(s[0], x) {
    } else {
      var rest := InsertBy(x, s[1..], le);
      InsertBySorted(x, s[1..], le);
      forall e | e in rest ensures le(s[0], e) {
        assert e in multiset(rest);
        if e != x {
          assert e in multiset(s[1..]);
        }
      }
      assert InsertBy(x, s, le) == [s[0]] + rest;
      ConsSorted(s[0], rest, le);
    }
  }

  /** An element below everything in an ordered sequence can be put in front of it. */
  lemma ConsSorted<T>(h: T, rest: seq<T>, le: (T, T) -> bool)
    requires SortedBy(rest, le) && forall e :: e in rest ==> le(h, e)
    ensures SortedBy([h] + rest, le)
  {
    var r := [h] + rest;
    forall i, j | 0 <= i < j < |r| ensures le(r[i], r[j]) {
      if i == 0 {
        assert r[j] == rest[j - 1] && rest[j - 1] in rest;
      } else {
        assert r[i] == rest[i - 1] && r[j] == rest[j - 1];
      }
    }
  }

  /** The sort's output is ordered and, by its contract, a permutation of its input. */
  lemma {:induction false} SortBySorted<T(!new)>(s: seq<T>, le: (T, T) -> bool)
    requires TotalPreorder(le)
    ensures SortedBy(SortBy(s, le), le) && multiset(SortBy(s, le)) == multiset(s)
  {
    if s != [] {
      SortBySorted(s[..|s| - 1], le);
      InsertBySorted(s[|s| - 1], SortBy(s[..|s| - 1], le), le);
    }
  }

  /** The elements of `s` that `le` ranks equal to `y`, in their order in `s`. */
  function EqualTo<T>(s: seq<T>, y: T, le: (T, T) -> bool): (r: seq<T>)
    ensures |r| <= |s|
  {
    if s == [] then []
    else (if le(s[0], y) && le(y, s[0]) then [s[0]] else []) + EqualTo(s[1..], y, le)
  }

  lemma {:induction false} EqualToAppend<T>(a: seq<T>, b: seq<T>, y: T, le: (T, T) -> bool)
    ensures EqualTo(a + b, y, le) == EqualTo(a, y, le) + EqualTo(b, y, le)
  {
    if a != [] {
      assert (a + b)[1..] == a[1..] + b;
      EqualToAppend(a[1..], b, y, le);
    } else {
      assert a + b == b;
    }
  }

  lemma {:induction false} InsertByEqualTo<T(!new)>(x: T, s: seq<T>, y: T, le: (T, T) -> bool)
    requires TotalPreorder(le) && SortedBy(s, le)
    ensures EqualTo(InsertBy(x, s, le), y, le)
         == EqualTo(s, y, le) + (if le(x, y) && le(y, x) then [x] else [])
  {
    var tail := if le(x, y) && le(y, x) then [x] else [];
    if s == [] {
      EqualToCons(x, [], y, le);
    } else if !le(s[0], x) {
      // every element of s is above x, so none of them ranks equal to y when x does
      EqualToCons(x, s, y, le);
      if tail != [] {
        NoneEqualAbove(x, s, y, le);
      }
    } else {
      assert SortedBy(s[1..], le);
      InsertByEqualTo(x, s[1..], y, le);
      assert InsertBy(x, s, le) == [s[0]] + InsertBy(x, s[1..], le);
      EqualToConsBoth(s[0], InsertBy(x, s[1..], le), s[1..], tail, y, le);
      assert s == [s[0]] + s[1..];
    }
  }

  /** Putting the same element in front of two sequences keeps the relation between their `EqualTo`s. */
  lemma EqualToConsBoth<T>(h: T, r: seq<T>, t: seq<T>, tail: seq<T>, y: T, le: (T, T) -> bool)
    requires EqualTo(r, y, le) == EqualTo(t, y, le) + tail
    ensures EqualTo([h] + r, y, le) == EqualTo([h] + t, y, le) + tail
  {
    var head := if le(h, y) && le(y, h) then [h] else [];
    var er, et := EqualTo(r, y, le), EqualTo(t, y, le);
    EqualToCons(h, r, y, le);
    EqualToCons(h, t, y, le);
    AppendAssociative(head, et, tail);
  }

  lemma AppendAssociative<T>(a: seq<T>, b: seq<T>, c: seq<T>)
    ensures a + (b + c) == (a + b) + c
  {
  }

  /** Unfolds `EqualTo` once at the front of a sequence. */
  lemma EqualToCons<T>(h: T, t: seq<T>, y: T, le: (T, T) -> bool)
    ensures EqualTo([h] + t, y, le) == (if le(h, y) && le(y, h) then [h] else []) + EqualTo(t, y, le)
  {
    assert ([h] + t)[0] == h && ([h] + t)[1..] == t;
  }

  lemma {:induction false} NoneEqualAbove<T(!new)>(x: T, s: seq<T>, y: T, le: (T, T) -> bool)
    requires TotalPreorder(le) && SortedBy(s, le)
    requires s != [] && !le(s[0], x) && le(x, y) && le(y, x)
    ensures EqualTo(s, y, le) == []
  {
    if |s| > 1 {
      assert le(s[0], s[1]);
      assert !le(s[1], x);
      NoneEqualAbove(x, s[1..], y, le);
    }
  }

  /** Stability: for every element, the elements ranked equal to it come out in their input order. */
  lemma {:induction false} SortByStable<T(!new)>(s: seq<T>, y: T, le: (T, T) -> bool)
    requires TotalPreorder(le)
    ensures EqualTo(SortBy(s, le), y, le) == EqualTo(s, y, le)
  {
    if s != [] {
      var init, last := s[..|s| - 1], s[|s| - 1];
      var sortedInit := SortBy(init, le);
      assert SortBy(s, le) == InsertBy(last, sortedInit, le);
      SortByStable(init, y, le);
      SortBySorted(init, le);
      InsertByEqualTo(last, sortedInit, y, le);
      EqualToLast(s, y, le);
    }
  }

  /** Unfolds `EqualTo` once at the back of a sequence. */
  lemma EqualToLast<T>(s: seq<T>, y: T, le: (T, T) -> bool)
    requires s != []
    ensures EqualTo(s, y, le)
         == EqualTo(s[..|s| - 1], y, le) + (if le(s[|s| - 1], y) && le(y, s[|s| - 1]) then [s[|s| - 1]] else [])
  {
    var init, last := s[..|s| - 1], s[|s| - 1];
    assert s == init + [last];
    EqualToAppend(init, [last], y, le);
    EqualToCons(last, [], y, le);
    assert [last] + [] == [last];
  }

  /** Under an antisymmetric total order, two ordered arrangements of the same elements are the same sequence. */
  lemma {:induction false} SortedUnique<T(!new)>(a: seq<T>, b: seq<T>, le: (T, T) -> bool)
    requires TotalPreorder(le) && Antisymmetric(le)
    requires SortedBy(a, le) && SortedBy(b, le) && multiset(a) == multiset(b)
    ensures a == b
  {
    if a != [] {
      assert |b| == |multiset(b)| == |multiset(a)| == |a|;
      SortedHeadsEqual(a, b, le);
      MultisetTail(a, b);
      assert SortedBy(a[1..], le) && SortedBy(b[1..], le);
      SortedUnique(a[1..], b[1..], le);
      assert a == [a[0]] + a[1..] && b == [b[0]] + b[1..];
    }
  }

  lemma SortedHeadsEqual<T(!new)>(a: seq<T>, b: seq<T>, le: (T, T) -> bool)
    requires TotalPreorder(le) && Antisymmetric(le)
    requires SortedBy(a, le) && SortedBy(b, le) && multiset(a) == multiset(b) && a != [] && b != []
    ensures a[0] == b[0]
  {
    assert a[0] in multiset(b) && b[0] in multiset(a);
    var k :| 0 <= k < |b| && b[k] == a[0];
    var m :| 0 <= m < |a| && a[m] == b[0];
    assert le(a[0], b[0]) by {
      if m != 0 { assert le(a[0], a[m]); }
    }
    assert le(b[0], a[0]) by {
      if k != 0 { assert le(b[0], b[k]); }
    }
  }

  lemma MultisetTail<T>(a: seq<T>, b: seq<T>)
    requires a != [] && b != [] && a[0] == b[0] && multiset(a) == multiset(b)
    ensures multiset(a[1..]) == multiset(b[1..])
  {
    assert a == [a[0]] + a[1..] && b == [b[0]] + b[1..];
    assert multiset(a[1..]) == multiset(a) - multiset{a[0]};
    assert multiset(b[1..]) == multiset(b) - multiset{b[0]};
  }

  /** Taking out the element at `k` takes exactly one copy of it out of the multiset. */
  lemma MultisetSplit<T>(b: seq<T>, k: nat)
    requires k < |b|
    ensures multiset(b) == multiset(b[..k] + b[k + 1..]) + multiset{b[k]}
  {
    assert b == b[..k] + [b[k]] + b[k + 1..];
  }

  /** Removing the last element of one arrangement and an equal element of another keeps them arrangements of each other. */
  lemma MultisetRemoveLast<T>(a: seq<T>, b: seq<T>, k: nat)
    requires a != [] && k < |b| && b[k] == a[|a| - 1] && multiset(a) == multiset(b)
    ensures multiset(a[..|a| - 1]) == multiset(b[..k] + b[k + 1..])
  {
    MultisetSplit(b, k);
    assert a == a[..|a| - 1] + [a[|a| - 1]];
    assert multiset(a) == multiset(a[..|a| - 1]) + multiset{b[k]};
    assert multiset(a[..|a| - 1]) == multiset(a) - multiset{b[k]};
  }

  ghost predicate Distinct<T>(s: seq<T>) {
    forall i, j :: 0 <= i < j < |s| ==> s[i] != s[j]
  }

  /** A sequence without repeats has as many elements as the set of its elements. */
  lemma {:induction false} DistinctCardinality<T>(s: seq<T>)
    requires Distinct(s)
    ensures |set x | x in s| == |s|
  {
    if s != [] {
      var init, last := s[..|s| - 1], s[|s| - 1];
      assert Distinct(init);
      DistinctCardinality(init);
      assert (set x | x in s) == (set x | x in init) + {last};
      assert last !in init;
    }
  }

  /** A sort keeps the length and the elements of its input. */
  lemma SortByElements<T>(s: seq<T>, le: (T, T) -> bool)
    ensures |SortBy(s, le)| == |s|
    ensures forall x :: x in SortBy(s, le) <==> x in s
  {
    var r := SortBy(s, le);
    assert |r| == |multiset(r)| == |multiset(s)| == |s|;
    forall x ensures x in r <==> x in s {
      assert x in r <==> x in multiset(r);
      assert x in s <==> x in multiset(s);
    }
  }

  /** A sequence has no repeats exactly when its set of elements is as large as it is. */
  lemma CardinalityDistinct<T>(s: seq<T>)
    requires |set x | x in s| == |s|
    ensures Distinct(s)
  {
    if !Distinct(s) {
      var i, j :| 0 <= i < j < |s| && s[i] == s[j];
      var without := s[..j] + s[j + 1..];
      forall x | x in s ensures x in without {
        var k :| 0 <= k < |s| && s[k] == x;
        if k < j { assert without[k] == x; }
        else if k > j { assert without[k - 1] == x; }
        else { assert without[i] == x; }
      }
      assert (set x | x in s) <= (set x | x in without);
      SetOfSeqBound(without);
      SubsetCardinality(set x | x in s, set x | x in without);
      assert false;
    }
  }

  lemma SubsetCardinality<T>(a: set<T>, b: set<T>)
    requires a <= b
    ensures |a| <= |b|
  {
    assert b == a + (b - a);
  }

  lemma {:induction false} SetOfSeqBound<T>(s: seq<T>)
    ensures |set x | x in s| <= |s|
  {
    if s != [] {
      var init := s[..|s| - 1];
      SetOfSeqBound(init);
      assert (set x | x in s) == (set x | x in init) + {s[|s| - 1]};
    }
  }

  /** Rearranging a sequence without repeats leaves it without repeats. */
  lemma DistinctPermutation<T>(a: seq<T>, b: seq<T>)
    requires Distinct(a) && multiset(a) == multiset(b)
    ensures Distinct(b)
  {
    DistinctCardinality(a);
    assert |a| == |multiset(a)| == |multiset(b)| == |b|;
    assert (set x | x in a) == (set x | x in b) by {
      forall x ensures x in a <==> x in b {
        assert x in a <==> x in multiset(a);
        assert x in b <==> x in multiset(b);
      }
    }
    CardinalityDistinct(b);
  }

  /** Two sequences without repeats that hold the same elements are arrangements of one multiset. */
  lemma {:induction false} SameElementsSameMultiset<T>(a: seq<T>, b: seq<T>)
    requires Distinct(a) && Distinct(b) && forall x :: x in a <==> x in b
    ensures multiset(a) == multiset(b)
    decreases |a|
  {
    if a == [] {
      forall x ensures multiset(b)[x] == 0 {
        assert x !in b;
      }
      assert multiset(b) == multiset{};
    } else {
      var x := a[0];
      assert x in a;
      var k :| 0 <= k < |b| && b[k] == x;
      var b' := b[..k] + b[k + 1..];
      DropMatching(a, b, k);
      SameElementsSameMultiset(a[1..], b');
      assert a == [x] + a[1..];
      MultisetSplit(b, k);
    }
  }

  /** Dropping the first element of `a` and its copy in `b` keeps two repeat-free sequences of the same elements. */
  lemma DropMatching<T>(a: seq<T>, b: seq<T>, k: nat)
    requires Distinct(a) && Distinct(b) && forall x :: x in a <==> x in b
    requires a != [] && k < |b| && b[k] == a[0]
    ensures Distinct(a[1..]) && Distinct(b[..k] + b[k + 1..])
    ensures forall y :: y in a[1..] <==> y in b[..k] + b[k + 1..]
  {
    assert Distinct(a[1..]);
    DistinctDrop(b, k);
    forall y ensures y in a[1..] <==> y in b[..k] + b[k + 1..] {
      DropOne(a, b, k, y);
    }
  }

  /** Removing one element from a sequence without repeats leaves one without repeats. */
  lemma DistinctDrop<T>(b: seq<T>, k: nat)
    requires Distinct(b) && k < |b|
    ensures Distinct(b[..k] + b[k + 1..])
  {
    var b' := b[..k] + b[k + 1..];
    forall i, j | 0 <= i < j < |b'| ensures b'[i] != b'[j] {
      var i' := if i < k then i else i + 1;
      var j' := if j < k then j else j + 1;
      assert b'[i] == b[i'] && b'[j] == b[j'];
    }
  }

  lemma DropOne<T>(a: seq<T>, b: seq<T>, k: nat, y: T)
    requires Distinct(a) && Distinct(b) && forall x :: x in a <==> x in b
    requires a != [] && k < |b| && b[k] == a[0]
    ensures y in a[1..] <==> y in b[..k] + b[k + 1..]
  {
    var b' := b[..k] + b[k + 1..];
    if y in a[1..] {
      var i :| 0 <= i < |a[1..]| && a[1..][i] == y;
      assert a[i + 1] == y;
      assert y in a;
      var m :| 0 <= m < |b| && b[m] == y;
      if m < k { assert b'[m] == y; } else { assert m != k; assert b'[m - 1] == y; }
    }
    if y in b' {
      var m :| 0 <= m < |b'| && b'[m] == y;
      var m' := if m < k then m else m + 1;
      assert b[m'] == y;
      assert y in b;
      var i :| 0 <= i < |a| && a[i] == y;
      assert i != 0;
      assert a[1..][i - 1] == y;
    }
  }

  /**
   * Two ordered arrangements of the same elements that keep every group of equally
   * ranked elements in the same order are the same sequence: a stable sort has one result.
   */
  lemma {:induction false} StableSortUnique<T(!new)>(b: seq<T>, c: seq<T>, le: (T, T) -> bool)
    requires TotalPreorder(le) && SortedBy(b, le) && SortedBy(c, le) && multiset(b) == multiset(c)
    requires forall y :: EqualTo(b, y, le) == EqualTo(c, y, le)
    ensures b == c
  {
    if b != [] {
      assert |c| == |b| by {
        assert |multiset(c)| == |multiset(b)|;
      }
      var x := b[0];
      assert x in multiset(c);
      var k :| 0 <= k < |c| && c[k] == x;
      assert c[0] in multiset(b);
      var m :| 0 <= m < |b| && b[m] == c[0];
      assert le(c[0], x) && le(x, c[0]) by {
        if k > 0 { assert le(c[0], c[k]); }
        if m > 0 { assert le(b[0], b[m]); }
      }
      assert le(x, x);
      assert EqualTo(b, x, le) == EqualTo(c, x, le);
      assert EqualTo(b, x, le)[0] == x;
      assert EqualTo(c, x, le)[0] == c[0];
      forall y ensures EqualTo(b[1..], y, le) == EqualTo(c[1..], y, le) {
        var head := if le(x, y) && le(y, x) then [x] else [];
        assert EqualTo(b, y, le) == head + EqualTo(b[1..], y, le);
        assert EqualTo(c, y, le) == head + EqualTo(c[1..], y, le);
        assert EqualTo(b[1..], y, le) == EqualTo(b, y, le)[|head|..];
        assert EqualTo(c[1..], y, le) == EqualTo(c, y, le)[|head|..];
      }
      MultisetTail(b, c);
      StableSortUnique(b[1..], c[1..], le);
      assert b == [x] + b[1..] && c == [x] + c[1..];
    }
  }
}

/**
 * `print_results`: the plain-text report. The records are sorted by test name and
 * then by patch number, each test's name is printed once above its entries, and
 * the totals close the report.
 */
module Report {
  import opened Wrappers
  import opened Decimal
  import opened Ordering
  import opened Palette
  import opened Record

  /** The report's comparison: by test name, and by patch number within a test. */
  predicate RecordLe(a: Test, b: Test): (le: bool)
    ensures le ==> a.test == b.test || LexLe(a.test, b.test)
    ensures a.test == b.test ==> (le <==> a.patch <= b.patch)
  {
    if a.test == b.test then a.patch <= b.patch else LexLe(a.test, b.test)
  }

  lemma RecordLeTotalPreorder()
    ensures TotalPreorder(RecordLe)
  {
    LexLeTotalOrder();
  }

  /** One line of the report, before it is formatted and coloured. */
  datatype Line =
    | Header(test: string)
    | Entry(patch: u8, result: i64, colour: Colour)
    | Rule
    | Totals(total: nat, pass: nat, fail: nat)

  /** A record's entry line: its patch and exit code, in the exit code's colour. */
  function EntryOf(t: Test): (l: Line)
    ensures l.Entry? && l.patch == t.patch && l.result == t.result
    ensures l.colour == Green <==> t.result == 0
    ensures l.colour == Red <==> t.result != 0
  {
    Entry(t.patch, t.result, ExitColour(t.result))
  }

  /** The lines printed for the records `s`, in order: a header wherever the test name differs from the previous record's. */
  function Listing(s: seq<Test>): (lines: seq<Line>)
    ensures |s| <= |lines| <= 2 * |s|
    ensures s != [] ==> lines[0] == Header(s[0].test)
  {
    if s == [] then []
    else
      var init, t := s[..|s| - 1], s[|s| - 1];
      Listing(init) + (if init == [] || init[|init| - 1].test != t.test then [Header(t.test)] else []) + [EntryOf(t)]
  }

  /** The test names of the header lines, in order. */
  function Headers(lines: seq<Line>): seq<string> {
    if lines == [] then []
    else Headers(lines[..|lines| - 1]) + (if lines[|lines| - 1].Header? then [lines[|lines| - 1].test] else [])
  }

  /** The entry lines, in order. */
  function Entries(lines: seq<Line>): seq<Line> {
    if lines == [] then []
    else Entries(lines[..|lines| - 1]) + (if lines[|lines| - 1].Entry? then [lines[|lines| - 1]] else [])
  }

  lemma {:induction false} HeadersAppend(a: seq<Line>, b: seq<Line>)
    ensures Headers(a + b) == Headers(a) + Headers(b)
  {
    if b == [] {
      assert a + b == a;
    } else {
      assert (a + b)[..|a + b| - 1] == a + b[..|b| - 1];
      HeadersAppend(a, b[..|b| - 1]);
    }
  }

  lemma {:induction false} EntriesAppend(a: seq<Line>, b: seq<Line>)
    ensures Entries(a + b) == Entries(a) + Entries(b)
  {
    if b == [] {
      assert a + b == a;
    } else {
      assert (a + b)[..|a + b| - 1] == a + b[..|b| - 1];
      EntriesAppend(a, b[..|b| - 1]);
    }
  }

  /** The headers of the records' last line block: the new test's name, if it starts one. */
  lemma BlockLines(s: seq<Test>)
    requires s != []
    ensures var init, t := s[..|s| - 1], s[|s| - 1];
      var header := if init == [] || init[|init| - 1].test != t.test then [Header(t.test)] else [];
      && Headers(Listing(s)) == Headers(Listing(init)) + (if header == [] then [] else [t.test])
      && Entries(Listing(s)) == Entries(Listing(init)) + [EntryOf(t)]
  {
    var init, t := s[..|s| - 1], s[|s| - 1];
    var header := if init == [] || init[|init| - 1].test != t.test then [Header(t.test)] else [];
    var block := header + [EntryOf(t)];
    AppendAssociative(Listing(init), header, [EntryOf(t)]);
    assert Listing(s) == Listing(init) + block;
    HeadersAppend(Listing(init), block);
    EntriesAppend(Listing(init), block);
    BlockContents(header, t);
  }

  /** The headers and entries of one record's block of lines. */
  lemma BlockContents(header: seq<Line>, t: Test)
    requires header == [] || header == [Header(t.test)]
    ensures Headers(header + [EntryOf(t)]) == (if header == [] then [] else [t.test])
    ensures Entries(header + [EntryOf(t)]) == [EntryOf(t)]
  {
    var block := header + [EntryOf(t)];
    assert block[..|block| - 1] == header;
    if header != [] {
      assert header[..0] == [];
      assert Headers(header) == [t.test];
      assert Entries(header) == [];
    }
  }

  /** Every record has exactly one entry line, in record order. */
  lemma {:induction false} ListingEntries(s: seq<Test>)
    ensures |Entries(Listing(s))| == |s|
    ensures forall i :: 0 <= i < |s| ==> Entries(Listing(s))[i] == EntryOf(s[i])
  {
    if s != [] {
      var init := s[..|s| - 1];
      BlockLines(s);
      ListingEntries(init);
      var es := Entries(Listing(s));
      assert es == Entries(Listing(init)) + [EntryOf(s[|s| - 1])];
      forall i | 0 <= i < |s| ensures es[i] == EntryOf(s[i]) {
        if i < |init| {
          assert s[i] == init[i];
        }
      }
    }
  }

  /** Some record of `s` belongs to test `h`. */
  ghost predicate HasTest(s: seq<Test>, h: string) {
    exists i :: 0 <= i < |s| && s[i].test == h
  }

  lemma HasTestLast(s: seq<Test>, h: string)
    requires s != []
    ensures HasTest(s, h) <==> HasTest(s[..|s| - 1], h) || s[|s| - 1].test == h
  {
    var init := s[..|s| - 1];
    if HasTest(init, h) {
      var i :| 0 <= i < |init| && init[i].test == h;
      assert s[i] == init[i];
    }
    if HasTest(s, h) && s[|s| - 1].test != h {
      var i :| 0 <= i < |s| && s[i].test == h;
      assert i < |init| && init[i] == s[i];
    }
  }

  /** The headers name exactly the tests of the records, and the last one names the last record's test. */
  lemma {:induction false} ListingHeaders(s: seq<Test>)
    ensures forall h :: h in Headers(Listing(s)) <==> HasTest(s, h)
    ensures s != [] ==> Headers(Listing(s)) != [] && Headers(Listing(s))[|Headers(Listing(s))| - 1] == s[|s| - 1].test
  {
    if s != [] {
      var init, t := s[..|s| - 1], s[|s| - 1];
      BlockLines(s);
      ListingHeaders(init);
      forall h ensures h in Headers(Listing(s)) <==> HasTest(s, h) {
        HasTestLast(s, h);
      }
    }
  }

  /** In the sorted report every test's name is printed exactly once. */
  lemma {:induction false} SortedHeadersDistinct(s: seq<Test>)
    requires SortedBy(s, RecordLe)
    ensures Distinct(Headers(Listing(s)))
  {
    if s != [] {
      var init, t := s[..|s| - 1], s[|s| - 1];
      assert SortedBy(init, RecordLe);
      BlockLines(s);
      SortedHeadersDistinct(init);
      ListingHeaders(init);
      if init != [] && init[|init| - 1].test != t.test {
        // an earlier header naming `t.test` would come from a record ranked between two of that test's records
        if t.test in Headers(Listing(init)) {
          var i :| 0 <= i < |init| && init[i].test == t.test;
          var p := init[|init| - 1];
          assert RecordLe(init[i], p) && RecordLe(p, t) by {
            if i < |init| - 1 { assert RecordLe(s[i], s[|init| - 1]); }
            assert RecordLe(s[|init| - 1], s[|s| - 1]);
          }
          LexLeAntisymmetric(p.test, t.test);
          assert false;
        }
      }
    }
  }

  /** The number of sorted report headers is the number of distinct test names. */
  lemma OneHeaderPerTest(s: seq<Test>)
    requires SortedBy(s, RecordLe)
    ensures |Headers(Listing(s))| == |set t | t in s :: t.test|
  {
    var hs := Headers(Listing(s));
    SortedHeadersDistinct(s);
    DistinctCardinality(hs);
    ListingHeaders(s);
    assert (set x | x in hs) == (set t | t in s :: t.test) by {
      forall h | h in hs ensures h in (set t | t in s :: t.test) {
        var i :| 0 <= i < |s| && s[i].test == h;
        assert s[i] in s;
      }
      forall t | t in s ensures t.test in hs {
        var i :| 0 <= i < |s| && s[i] == t;
      }
    }
  }

  /** The records whose exit code is zero (`passing`) or non-zero (`!passing`). */
  function Tally(s: seq<Test>, passing: bool): (n: nat)
    ensures n <= |s|
  {
    if s == [] then 0
    else Tally(s[..|s| - 1], passing) + (if (s[|s| - 1].result == 0) == passing then 1 else 0)
  }

  lemma {:induction false} TallyTotal(s: seq<Test>)
    ensures Tally(s, true) + Tally(s, false) == |s|
  {
    if s != [] {
      TallyTotal(s[..|s| - 1]);
    }
  }

  lemma {:induction false} TallyAppend(a: seq<Test>, b: seq<Test>, passing: bool)
    ensures Tally(a + b, passing) == Tally(a, passing) + Tally(b, passing)
  {
    if b == [] {
      assert a + b == a;
    } else {
      assert (a + b)[..|a + b| - 1] == a + b[..|b| - 1];
      TallyAppend(a, b[..|b| - 1], passing);
    }
  }

  /** Reordering the records does not change the totals. */
  lemma {:induction false} TallyPermutation(a: seq<Test>, b: seq<Test>, passing: bool)
    requires multiset(a) == multiset(b)
    ensures Tally(a, passing) == Tally(b, passing)
  {
    if a == [] {
      assert |b| == |multiset(b)| == 0;
    } else {
      var init, x := a[..|a| - 1], a[|a| - 1];
      assert a == init + [x];
      assert x in multiset(b);
      var k :| 0 <= k < |b| && b[k] == x;
      var rest := b[..k] + b[k + 1..];
      assert b == b[..k] + [x] + b[k + 1..];
      MultisetRemoveLast(a, b, k);
      TallyPermutation(init, rest, passing);
      TallyAppend(init, [x], passing);
      TallyAppend(b[..k] + [x], b[k + 1..], passing);
      TallyAppend(b[..k], [x], passing);
      TallyAppend(b[..k], b[k + 1..], passing);
    }
  }

  /**
   * What the sort step promises: the report lists the records ordered by test
   * and patch, as a permutation, and records ranked equal keep their input order.
   */
  lemma ReportOrder(s: seq<Test>)
    ensures var r := SortBy(s, RecordLe);
      && SortedBy(r, RecordLe)
      && multiset(r) == multiset(s)
      && forall y :: EqualTo(r, y, RecordLe) == EqualTo(s, y, RecordLe)
  {
    RecordLeTotalPreorder();
    SortBySorted(s, RecordLe);
    forall y ensures EqualTo(SortBy(s, RecordLe), y, RecordLe) == EqualTo(s, y, RecordLe) {
      SortByStable(s, y, RecordLe);
    }
  }

  /** Any stable sort by the report's comparison, such as the library's merge sort, yields the same order. */
  lemma StableSortsAgree(s: seq<Test>, r: seq<Test>)
    requires SortedBy(r, RecordLe) && multiset(r) == multiset(s)
    requires forall y :: EqualTo(r, y, RecordLe) == EqualTo(s, y, RecordLe)
    ensures r == SortBy(s, RecordLe)
  {
    ReportOrder(s);
    RecordLeTotalPreorder();
    StableSortUnique(r, SortBy(s, RecordLe), RecordLe);
  }

  /** Extending the records by one adds its header, when it starts a new test, its entry, and its tally. */
  lemma ListingStep(s: seq<Test>, i: nat)
    requires i < |s|
    ensures Listing(s[..i + 1]) == Listing(s[..i])
      + (if i == 0 || s[i - 1].test != s[i].test then [Header(s[i].test)] else []) + [EntryOf(s[i])]
    ensures Tally(s[..i + 1], true) == Tally(s[..i], true) + (if s[i].result == 0 then 1 else 0)
    ensures Tally(s[..i + 1], false) == Tally(s[..i], false) + (if s[i].result != 0 then 1 else 0)
  {
    assert s[..i + 1][..i] == s[..i];
  }

  /** `results.sort_by(...)`: the records in place, ordered by test name and then patch id, stably. */
  method SortResults(a: array<Test>)
    modifies a
    ensures a[..] == SortBy(old(a[..]), RecordLe)
  {
    var sorted := SortBy(a[..], RecordLe);
    assert |sorted| == a.Length by {
      assert |multiset(sorted)| == |multiset(old(a[..]))|;
    }
    forall i | 0 <= i < a.Length {
      a[i] := sorted[i];
    }
  }

  /** The loop over the sorted records, the closing rule and the totals line. */
  method ListResults(s: seq<Test>) returns (lines: seq<Line>, pass: nat, fail: nat)
    ensures lines == Listing(s) + [Rule, Totals(pass + fail, pass, fail)]
    ensures pass == Tally(s, true) && fail == Tally(s, false)
    ensures pass + fail == |s|
  {
    pass, fail := 0, 0;
    lines := [];
    var previous: Option<string> := None;
    for i := 0 to |s|
      invariant lines == Listing(s[..i])
      invariant previous == if i == 0 then None else Some(s[i - 1].test)
      invariant pass == Tally(s[..i], true) && fail == Tally(s[..i], false)
    {
      var t := s[i];
      ListingStep(s, i);
      if Some(t.test) != previous {
        lines := lines + [Header(t.test)];
        previous := Some(t.test);
      }
      if t.result != 0 {
        lines := lines + [Entry(t.patch, t.result, Red)];
        fail := fail + 1;
      } else {
        lines := lines + [Entry(t.patch, t.result, Green)];
        pass := pass + 1;
      }
    }
    assert s[..|s|] == s;
    lines := lines + [Rule, Totals(pass + fail, pass, fail)];
    TallyTotal(s);
  }

  /**
   * `print_results`: sorts the records in place, then emits one header per run of
   * equal test names, one entry per record and the totals.
   */
  method PrintResults(a: array<Test>) returns (lines: seq<Line>, pass: nat, fail: nat)
    modifies a
    ensures a[..] == SortBy(old(a[..]), RecordLe)
    ensures lines == Listing(a[..]) + [Rule, Totals(pass + fail, pass, fail)]
    ensures pass == Tally(old(a[..]), true) && fail == Tally(old(a[..]), false)
    ensures pass + fail == a.Length
  {
    ghost var input := a[..];
    SortResults(a);
    lines, pass, fail := ListResults(a[..]);
    TallyPermutation(input, a[..], true);
    TallyPermutation(input, a[..], false);
  }
}

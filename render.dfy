/**
 * The values the browser's two panes are drawn from (`render_list` and
 * `render_selected_item`): each test's row label and colour, the patch tab
 * strip of the selected test, the selected patch, its highlight colour, the
 * log path and the first visible log line. The widgets themselves belong to
 * the terminal library and are not modelled.
 */
module Render {
  import opened Wrappers
  import opened Decimal
  import opened Ordering
  import opened Palette
  import opened Record
  import opened Store
  import opened Navigation

  /** The number of patches of a test whose exit code is 0. */
  function PassCount(inner: map<u8, i64>): (n: nat)
    ensures n <= |inner|
  {
    var pass := set p: u8 | p in inner && inner[p] == 0;
    SubsetCardinality(pass, inner.Keys);
    |pass|
  }

  /** The number of patches of a test whose exit code is not 0. */
  function FailCount(inner: map<u8, i64>): nat {
    |set p: u8 | p in inner && inner[p] != 0|
  }

  /** Passes and failures split the patches between them. */
  lemma PassPlusFail(inner: map<u8, i64>)
    ensures PassCount(inner) + FailCount(inner) == |inner|
  {
    var pass := set p: u8 | p in inner && inner[p] == 0;
    var fail := set p: u8 | p in inner && inner[p] != 0;
    assert pass + fail == inner.Keys;
    assert pass * fail == {};
  }

  /** A subset as large as its superset is the whole superset. */
  lemma SubsetOfEqualSize<T>(a: set<T>, b: set<T>)
    requires a <= b && |a| == |b|
    ensures a == b
  {
    assert |b - a| == |b| - |a|;
  }

  datatype Row = Row(caption: string, colour: Colour)

  /** Red when nothing passed, green when everything passed, yellow for a mix. */
  function RowColour(pass: nat, totals: nat): (c: Colour)
    ensures c == LightRed <==> pass == 0
    ensures c == LightGreen <==> 0 < pass == totals
    ensures c == LightYellow <==> 0 < pass && pass != totals
  {
    if pass == 0 then LightRed else if pass == totals then LightGreen else LightYellow
  }

  /** The list row of test `k`: `"{k}  {pass}/{totals}"`, coloured by how many of its patches passed. */
  function ListRow(k: string, inner: map<u8, i64>): (r: Row)
    ensures r.caption == k + "  " + DecimalString(PassCount(inner)) + "/" + DecimalString(|inner|)
    ensures r.colour == LightRed <==> forall p :: p in inner ==> inner[p] != 0
    ensures r.colour == LightGreen <==> inner != map[] && forall p :: p in inner ==> inner[p] == 0
    ensures r.colour == LightYellow <==>
              (exists p :: p in inner && inner[p] == 0) && (exists p :: p in inner && inner[p] != 0)
  {
    CountMeaning(inner);
    Row(k + "  " + DecimalString(PassCount(inner)) + "/" + DecimalString(|inner|), RowColour(PassCount(inner), |inner|))
  }

  /** No pass means every exit code is non-zero; as many passes as patches means every exit code is 0. */
  lemma CountMeaning(inner: map<u8, i64>)
    ensures PassCount(inner) == 0 <==> forall p :: p in inner ==> inner[p] != 0
    ensures PassCount(inner) == |inner| <==> forall p :: p in inner ==> inner[p] == 0
  {
    var pass := set p: u8 | p in inner && inner[p] == 0;
    if exists p :: p in inner && inner[p] == 0 {
      var p :| p in inner && inner[p] == 0;
      assert p in pass;
    }
    if |pass| == |inner| {
      SubsetOfEqualSize(pass, inner.Keys);
    }
    if exists p :: p in inner && inner[p] != 0 {
      var p :| p in inner && inner[p] != 0;
      assert p !in pass;
      assert pass < inner.Keys;
    }
    assert PassCount(inner) == |pass|;
    assert |inner.Keys| == |inner|;
    if forall p :: p in inner ==> inner[p] == 0 {
      assert pass == inner.Keys;
    }
  }

  /** One test with a passing patch 1 and a failing patch 2 is listed as `alpha  1/2` in the partial colour. */
  lemma PartialRowExample()
    ensures var store := Aggregate([Test(1, 0, "alpha"), Test(2, 1, "alpha")]);
      var inner: map<u8, i64> := map[1 := 0, 2 := 1];
      && store == map["alpha" := inner]
      && PassCount(inner) == 1 && |inner| == 2
      && ListRow("alpha", inner) == Row("alpha  1/2", LightYellow)
  {
    var first, second := Test(1, 0, "alpha"), Test(2, 1, "alpha");
    assert [first, second][..1] == [first];
    assert Aggregate([first]) == map["alpha" := map[1 := 0]] by {
      assert [first][..0] == [];
    }
    var inner: map<u8, i64> := map[1 := 0, 2 := 1];
    assert PassCount(inner) == 1 by {
      assert (set p: u8 | p in inner && inner[p] == 0) == {1};
    }
    assert |inner| == 2 by {
      assert inner.Keys == {1, 2};
    }
    SmallNumberTexts();
  }

  /** Rows in key order, and the highlight colour of the selected row (the selected row's own colour). */
  datatype ListPane = ListPane(rows: seq<Row>, highlight: Option<Colour>)

  /** `render_list`. The selected row is looked up with `unwrap`, so a selection must name an existing row. */
  function List(results: Results, keys: seq<string>, selected: Option<nat>): (l: ListPane)
    requires forall i :: 0 <= i < |keys| ==> keys[i] in results
    requires selected.Some? ==> selected.value < |keys|
    ensures |l.rows| == |keys|
    ensures forall i :: 0 <= i < |keys| ==> l.rows[i] == ListRow(keys[i], results[keys[i]])
    ensures l.highlight.Some? <==> selected.Some?
    ensures selected.Some? ==> l.highlight.value == ListRow(keys[selected.value], results[keys[selected.value]]).colour
  {
    var rows := seq(|keys|, i requires 0 <= i < |keys| => ListRow(keys[i], results[keys[i]]));
    ListPane(rows, if selected.Some? then Some(rows[selected.value].colour) else None)
  }

  /** The patch ids in `keys` from `from` upwards, in numeric order. */
  function Ascending(keys: set<u8>, from: nat): (r: seq<u8>)
    ensures forall i, j :: 0 <= i < j < |r| ==> r[i] < r[j]
    ensures forall p: u8 :: p in r <==> p in keys && p >= from
    decreases 0x100 - from
  {
    if from >= 0x100 then []
    else
      var p: u8 := from;
      var rest := Ascending(keys, from + 1);
      assert forall j :: 0 <= j < |rest| ==> rest[j] > p by {
        forall j | 0 <= j < |rest| ensures rest[j] > p { assert rest[j] in rest; }
      }
      (if p in keys then [p] else []) + rest
  }

  function DecimalStrings(ps: seq<u8>): (r: seq<string>)
    ensures |r| == |ps| && forall i :: 0 <= i < |ps| ==> r[i] == DecimalString(ps[i])
  {
    seq(|ps|, i requires 0 <= i < |ps| => DecimalString(ps[i]))
  }

  /** The texts of an enumeration of a test's patch ids: one per patch, no repeats, and nothing else. */
  lemma EnumerationNames(inner: map<u8, i64>, order: seq<u8>)
    requires Distinct(order) && forall p: u8 :: p in order <==> p in inner
    ensures var names := DecimalStrings(order);
      && |names| == |inner|
      && Distinct(names)
      && (forall p: u8 :: p in inner <==> DecimalString(p) in names)
      && (forall t :: t in names ==> exists p: u8 :: p in inner && t == DecimalString(p))
  {
    NamesLength(inner, order);
    NamesDistinct(order);
    NamesCover(inner, order);
  }

  lemma NamesLength(inner: map<u8, i64>, order: seq<u8>)
    requires Distinct(order) && forall p: u8 :: p in order <==> p in inner
    ensures |order| == |inner|
  {
    DistinctCardinality(order);
    assert (set x: u8 | x in order) == inner.Keys;
    assert |inner.Keys| == |inner|;
  }

  lemma NamesDistinct(order: seq<u8>)
    requires Distinct(order)
    ensures Distinct(DecimalStrings(order))
  {
    var names := DecimalStrings(order);
    forall i, j | 0 <= i < j < |names| ensures names[i] != names[j] {
      assert DigitsValue(names[i]) == order[i] && DigitsValue(names[j]) == order[j];
    }
  }

  lemma NamesCover(inner: map<u8, i64>, order: seq<u8>)
    requires forall p: u8 :: p in order <==> p in inner
    ensures var names := DecimalStrings(order);
      && (forall p: u8 :: p in inner <==> DecimalString(p) in names)
      && (forall t :: t in names ==> exists p: u8 :: p in inner && t == DecimalString(p))
  {
    var names := DecimalStrings(order);
    forall p: u8 | p in inner ensures DecimalString(p) in names {
      var i :| 0 <= i < |order| && order[i] == p;
      assert names[i] == DecimalString(p);
    }
    forall p: u8 | DecimalString(p) in names ensures p in inner {
      var i :| 0 <= i < |names| && names[i] == DecimalString(p);
      DecimalStringInjective(order[i], p);
      assert order[i] in order;
    }
    forall t | t in names ensures exists p: u8 :: p in inner && t == DecimalString(p) {
      var i :| 0 <= i < |names| && names[i] == t;
      assert order[i] in order;
      assert order[i] in inner && t == DecimalString(order[i]);
    }
  }

  /**
   * The tab strip: the test's patch ids as decimal text, sorted as strings, so
   * "10" comes before "2". The map's iteration order is arbitrary; the model
   * starts from numeric order, and TabsIndependentOfKeyOrder shows that the
   * starting order does not matter.
   */
  function PatchTabs(inner: map<u8, i64>): (tabs: seq<string>)
    ensures |tabs| == |inner| && Distinct(tabs)
    ensures SortedBy(tabs, LexLe)
    ensures forall p: u8 :: p in inner <==> DecimalString(p) in tabs
    ensures forall t :: t in tabs ==> exists p: u8 :: p in inner && t == DecimalString(p)
  {
    var names := DecimalStrings(Ascending(inner.Keys, 0));
    EnumerationNames(inner, Ascending(inner.Keys, 0));
    SortedNames(names);
    SortBy(names, LexLe)
  }

  /** Sorting keeps the length, the elements and the absence of repeats, and puts the texts in string order. */
  lemma SortedNames(names: seq<string>)
    requires Distinct(names)
    ensures var tabs := SortBy(names, LexLe);
      |tabs| == |names| && Distinct(tabs) && SortedBy(tabs, LexLe) && forall t :: t in tabs <==> t in names
  {
    LexLeTotalOrder();
    SortBySorted(names, LexLe);
    SortByElements(names, LexLe);
    DistinctPermutation(names, SortBy(names, LexLe));
  }

  /** Whatever order the map yields its patch ids in, sorting their text gives the same tab strip. */
  lemma TabsIndependentOfKeyOrder(inner: map<u8, i64>, order: seq<u8>)
    requires Distinct(order) && forall p: u8 :: p in order <==> p in inner
    ensures SortBy(DecimalStrings(order), LexLe) == PatchTabs(inner)
  {
    var names := DecimalStrings(order);
    var tabs := PatchTabs(inner);
    EnumerationNames(inner, order);
    LexLeTotalOrder();
    SortBySorted(names, LexLe);
    forall t ensures t in names <==> t in tabs {
      if t in tabs {
        var p: u8 :| p in inner && t == DecimalString(p);
      }
      if t in names {
        var p: u8 :| p in inner && t == DecimalString(p);
      }
    }
    SameElementsSameMultiset(names, tabs);
    SortedUnique(SortBy(names, LexLe), tabs, LexLe);
  }

  /** Patches 2 and 10 are shown as the tabs `10`, `2`: string order, not numeric order. */
  lemma TabOrderExample(inner: map<u8, i64>)
    requires inner.Keys == {2, 10}
    ensures PatchTabs(inner) == ["10", "2"]
  {
    var tabs := PatchTabs(inner);
    SmallNumberTexts();
    assert |tabs| == 2 by {
      assert |inner| == |inner.Keys|;
      PairSize(2, 10);
    }
    assert 2 in inner && 10 in inner;
    assert "2" in tabs && "10" in tabs;
    TwoInOrder(tabs, "10", "2");
  }

  lemma TwoInOrder(tabs: seq<string>, a: string, b: string)
    requires |tabs| == 2 && a in tabs && b in tabs && a != b && SortedBy(tabs, LexLe) && !LexLe(b, a)
    ensures tabs == [a, b]
  {
    assert LexLe(tabs[0], tabs[1]);
    assert tabs == [tabs[0], tabs[1]];
  }

  lemma PairSize(a: u8, b: u8)
    requires a != b
    ensures |{a, b}| == 2
  {
  }

  /** Each tab is the text of one of the test's patch ids, so parsing it back as `u8` succeeds. */
  lemma TabParses(inner: map<u8, i64>, ps: nat)
    requires ps < |inner|
    ensures ParseU8(PatchTabs(inner)[ps]).Some?
    ensures ParseU8(PatchTabs(inner)[ps]).value in inner
    ensures PatchTabs(inner)[ps] == DecimalString(ParseU8(PatchTabs(inner)[ps]).value)
  {
    ParseTab(PatchTabs(inner), inner, ps);
  }

  /** A tab that names some patch of `inner` parses back to that patch. */
  lemma ParseTab(tabs: seq<string>, inner: map<u8, i64>, ps: nat)
    requires ps < |tabs|
    requires forall t :: t in tabs ==> exists p: u8 :: p in inner && t == DecimalString(p)
    ensures ParseU8(tabs[ps]).Some? && ParseU8(tabs[ps]).value in inner
    ensures tabs[ps] == DecimalString(ParseU8(tabs[ps]).value)
  {
    assert tabs[ps] in tabs;
    var p: u8 :| p in inner && tabs[ps] == DecimalString(p);
    ParseU8DecimalString(p);
  }

  /** `patches[ps].parse::<u8>().unwrap()`: the patch id behind the selected tab. */
  function SelectedPatch(inner: map<u8, i64>, ps: nat): (p: u8)
    requires ps < |inner|
    ensures p in inner && PatchTabs(inner)[ps] == DecimalString(p)
  {
    TabParses(inner, ps);
    ParseU8(PatchTabs(inner)[ps]).value
  }

  /** The number of newline characters in `s`. */
  function NewlineCount(s: string): nat {
    if s == [] then 0 else NewlineCount(s[..|s| - 1]) + (if s[|s| - 1] == '\n' then 1 else 0)
  }

  /**
   * `str::lines().count()`: lines end at `\n` (a `\r` before it belongs to the
   * line ending), and a last line without a newline still counts.
   */
  function LineCount(s: string): (n: nat)
    ensures n == 0 <==> s == []
  {
    NewlineCount(s) + (if s != [] && s[|s| - 1] != '\n' then 1 else 0)
  }

  /** The log text shown: the file's contents, or a one-line message naming the file when it cannot be read. */
  function LogText(contents: Option<string>, file: string): (text: string)
    ensures contents.Some? ==> text == contents.value
    ensures contents.None? ==> text == "Cannot read " + file && LineCount(text) >= 1
  {
    contents.GetOr("Cannot read " + file)
  }

  /**
   * The first visible line as written at src/tui.rs:177: `scroll % lines as u16`.
   * The cast keeps the low 16 bits of the line count, and a zero divisor panics
   * (`None` here).
   */
  function StartLineAsWritten(scroll: u16, lines: nat): (r: Option<nat>)
    ensures r.None? <==> lines % 0x1_0000 == 0
    ensures r.Some? ==> r.value < lines % 0x1_0000
  {
    var divisor := lines % 0x1_0000;
    if divisor == 0 then None else Some(scroll % divisor)
  }

  /** An empty log file has no lines, so the first visible line as written divides by zero. */
  lemma EmptyLogPanics(scroll: u16)
    ensures LineCount("") == 0 && StartLineAsWritten(scroll, LineCount("")) == None
  {
  }

  /** The first visible line: the scroll offset modulo the line count, with an empty text counted as one line. */
  function StartLine(scroll: u16, lines: nat): (r: nat)
    ensures r < Max(1, lines)
    ensures lines > 0 ==> r == scroll % lines
  {
    scroll % Max(1, lines)
  }

  /** Wherever the expression as written neither divides by zero nor truncates, the two agree. */
  lemma StartLineAgrees(scroll: u16, lines: nat)
    requires 0 < lines < 0x1_0000
    ensures StartLineAsWritten(scroll, lines) == Some(StartLine(scroll, lines))
  {
  }

  /**
   * Past 65535 lines the cast changes the divisor: with 65537 lines it is 1, so
   * the source always shows the first line, while the guarded start line follows
   * the scroll offset.
   */
  lemma LongLogTruncates()
    ensures StartLineAsWritten(5, 65537) == Some(0)
    ensures StartLine(5, 65537) == 5
  {
  }

  /** Each Enter moves the first visible line down by one, and from the last line back to the first. */
  lemma ScrollForwardCycles(scroll: u16, lines: nat)
    requires scroll < 0xFFFF && lines > 0
    ensures StartLine(scroll + 1, lines)
         == if StartLine(scroll, lines) == lines - 1 then 0 else StartLine(scroll, lines) + 1
  {
    var q, r := scroll / lines, scroll % lines;
    assert scroll == q * lines + r;
    if r == lines - 1 {
      assert scroll + 1 == (q + 1) * lines + 0;
      ModUnique(scroll + 1, lines, q + 1, 0);
    } else {
      ModUnique(scroll + 1, lines, q, r + 1);
    }
  }

  /** Euclidean remainder is determined by any quotient-remainder split. */
  lemma ModUnique(x: int, n: int, q: int, r: int)
    requires n > 0 && 0 <= r < n && x == q * n + r
    ensures x % n == r
  {
    var q', r' := x / n, x % n;
    assert x == q' * n + r';
    assert (q - q') * n == r' - r;
    if q > q' {
      MulAtLeast(q - q', n);
    } else if q < q' {
      MulAtLeast(q' - q, n);
    }
  }

  lemma MulAtLeast(k: int, n: int)
    requires k >= 1 && n > 0
    ensures k * n >= n
  {
    assert k * n == n + (k - 1) * n;
  }

  /** The detail pane: an empty box, or the tab strip, the log header and the log text with its first visible line. */
  datatype Detail =
    | EmptyBox
    | Pane(tabs: seq<string>, tab: nat, highlight: Colour, header: string, file: string, text: string, startLine: nat)

  /** The index `render_selected_item` looks the test up by: the selection, or 0 when there is none. */
  function DetailIndex(n: Nav): nat {
    n.selected.GetOr(0)
  }

  /**
   * The detail pane of test `key`, whose patches are `inner`, with tab `ps`
   * selected. `read` stands for `read_to_string` on the log file.
   */
  function PatchPane(key: string, inner: map<u8, i64>, ps: nat, scroll: u16, path: string, read: string -> Option<string>): (d: Detail)
    requires ps < |inner|
    ensures d.Pane? && d.tab == ps && d.tabs == PatchTabs(inner)
    ensures var p := SelectedPatch(inner, ps);
      && d.tabs[ps] == DecimalString(p)
      && (d.highlight == Green <==> inner[p] == 0)
      && (d.highlight == Red <==> inner[p] != 0)
      && d.header == DecimalString(p) + "/" + key + "/summary"
      && d.file == path + "/" + d.header
      && d.text == LogText(read(d.file), d.file)
      && d.startLine < Max(1, LineCount(d.text))
      && d.startLine == StartLine(scroll, LineCount(d.text))
  {
    var p := SelectedPatch(inner, ps);
    var header := DecimalString(p) + "/" + key + "/summary";
    var file := path + "/" + header;
    var text := LogText(read(file), file);
    Pane(PatchTabs(inner), ps, ExitColour(inner[p]), header, file, text, StartLine(scroll, LineCount(text)))
  }

  /**
   * `render_selected_item`: an empty box unless the test at the selection (or
   * at 0) exists and a patch is selected. The selected tab is indexed
   * directly, so a selected patch index must be within the test's patches.
   */
  function DetailPane(results: Results, keys: seq<string>, n: Nav, path: string, read: string -> Option<string>): (d: Detail)
    requires forall i :: 0 <= i < |keys| ==> keys[i] in results
    requires n.patchSelected.Some? && DetailIndex(n) < |keys| ==> n.patchSelected.value < |results[keys[DetailIndex(n)]]|
    ensures d.EmptyBox? <==> DetailIndex(n) >= |keys| || n.patchSelected.None?
    ensures d.Pane? ==>
      var key := keys[DetailIndex(n)];
      d == PatchPane(key, results[key], n.patchSelected.value, n.scroll, path, read)
  {
    if DetailIndex(n) >= |keys| || n.patchSelected.None? then EmptyBox
    else
      var key := keys[DetailIndex(n)];
      PatchPane(key, results[key], n.patchSelected.value, n.scroll, path, read)
  }
}

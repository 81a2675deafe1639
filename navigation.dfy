/**
 * The navigation state of the results browser and its response to one key
 * press (`App::handle_key`), as a function of the state, the key, and the
 * number of patches of each test in list order (`counts`; its length is the
 * number of tests).
 */
module Navigation {
  import opened Wrappers
  import opened Decimal

  /** The key codes `handle_key` tells apart; `Other` stands for every other key code. */
  datatype Key = Char(c: char) | Esc | Up | Down | Left | Right | Enter | Backspace | Other

  datatype Nav = Nav(shouldExit: bool, selected: Option<nat>, patchSelected: Option<nat>, scroll: u16)

  /** `usize` on a 64-bit target. */
  const UsizeModulus: nat := 0x1_0000_0000_0000_0000

  /** The state `from_results` starts in: nothing selected, not exiting, scrolled to the top. */
  function Initial(): (n: Nav)
    ensures !n.shouldExit && n.selected.None? && n.patchSelected.None? && n.scroll == 0
  {
    Nav(false, None, None, 0)
  }

  function Min(a: nat, b: nat): nat { if a <= b then a else b }

  function Max(a: nat, b: nat): nat { if a >= b then a else b }

  /** `i.max(1) - 1`: one step back, stopping at 0, never below. */
  function Decrement(i: nat): (r: nat)
    ensures r <= i
    ensures r == (if i == 0 then 0 else i - 1)
  {
    Max(i, 1) - 1
  }

  /** `x += 1` on a `u16` in a release build: one more, wrapping from 65535 to 0. */
  function WrappingIncrement(x: u16): (r: u16)
    ensures r == if x == 0xFFFF then 0 else x + 1
  {
    (x + 1) % 0x1_0000
  }

  /**
   * Down as written at src/tui.rs:65: `i.min(len - 2) + 1`, where `len - 2` on
   * a `usize` wraps around in a release build (a debug build panics instead).
   */
  function DownIndexAsWritten(i: nat, tests: nat): (r: nat)
    requires i < UsizeModulus - 1 && tests < UsizeModulus
    ensures tests >= 2 ==> r == Min(i, tests - 2) + 1
    ensures tests < 2 ==> r == i + 1
  {
    assert tests < 2 ==> (tests - 2) % UsizeModulus == UsizeModulus + tests - 2;
    Min(i, (tests - 2) % UsizeModulus) + 1
  }

  /** With fewer than two tests, Down as written moves the selection one past where it was, off the list. */
  lemma DownAsWrittenLeavesList(i: nat, tests: nat)
    requires i < UsizeModulus - 1 && tests < 2
    ensures DownIndexAsWritten(i, tests) == i + 1 && DownIndexAsWritten(i, tests) >= tests
  {
    assert (tests - 2) % UsizeModulus == UsizeModulus + tests - 2;
  }

  /** Down with the subtraction guarded: one step forward, stopping at the last test. */
  function DownIndex(i: nat, tests: nat): (r: nat)
    ensures i < tests ==> r == Min(i + 1, tests - 1)
    ensures i < tests ==> r < tests
  {
    if tests < 2 then i else Min(i, tests - 2) + 1
  }

  /** Wherever the expression as written does not underflow, the guarded one gives the same index. */
  lemma DownIndexAgrees(i: nat, tests: nat)
    requires 2 <= tests < UsizeModulus && i < UsizeModulus - 1
    ensures DownIndex(i, tests) == DownIndexAsWritten(i, tests)
  {
  }

  /** `(p + 1).min(count - 1)`: one patch forward, stopping at the test's last patch. */
  function RightIndex(p: nat, count: nat): (r: nat)
    requires count >= 1
    ensures p < count ==> r < count
    ensures r == (if p + 1 < count then p + 1 else count - 1)
  {
    Min(p + 1, count - 1)
  }

  /**
   * The Right arm reads the patch count of the selected test (`keys().nth(i).unwrap()`)
   * when both a test and a patch are selected, so that test must exist and, as
   * in every store `from_results` builds, have a patch.
   */
  ghost predicate CanStep(n: Nav, key: Key, counts: seq<nat>) {
    key == Right && n.selected.Some? && n.patchSelected.Some? ==>
      n.selected.value < |counts| && counts[n.selected.value] >= 1
  }

  /** The keys that end the event loop: `q` and Esc. */
  predicate IsQuit(key: Key) {
    key == Esc || key == Char('q')
  }

  /** `handle_key`: the new state after one key press. */
  function Next(n: Nav, key: Key, counts: seq<nat>): (r: Nav)
    requires CanStep(n, key, counts)
    ensures r.shouldExit <==> n.shouldExit || IsQuit(key)
  {
    match key
    case Char(c) => if c == 'q' then n.(shouldExit := true) else n
    case Esc => n.(shouldExit := true)
    case Up =>
      var i := if n.selected.Some? then Decrement(n.selected.value) else 0;
      n.(scroll := 0, patchSelected := Some(0), selected := Some(i))
    case Down =>
      var i := if n.selected.Some? then DownIndex(n.selected.value, |counts|) else 0;
      n.(scroll := 0, patchSelected := Some(0), selected := Some(i))
    case Left =>
      if n.selected.Some? then
        var p := if n.patchSelected.Some? then Decrement(n.patchSelected.value) else 0;
        n.(scroll := 0, patchSelected := Some(p))
      else n.(scroll := 0, selected := Some(0), patchSelected := Some(0))
    case Right =>
      if n.selected.Some? then
        var p := if n.patchSelected.Some? then RightIndex(n.patchSelected.value, counts[n.selected.value]) else 0;
        n.(scroll := 0, patchSelected := Some(p))
      else n.(scroll := 0, selected := Some(0), patchSelected := Some(0))
    case Enter => n.(scroll := WrappingIncrement(n.scroll))
    case Backspace => n.(scroll := Decrement(n.scroll))
    case Other => n
  }

  /** A patch is selected only within a selected test, and both indices address existing entries. */
  ghost predicate InBounds(n: Nav, counts: seq<nat>) {
    && (n.patchSelected.Some? ==> n.selected.Some?)
    && (n.selected.Some? ==> n.selected.value < |counts|)
    && (n.selected.Some? && n.patchSelected.Some? ==> n.patchSelected.value < counts[n.selected.value])
  }

  /** Every store `from_results` builds gives each test at least one patch. */
  ghost predicate NonEmptyCounts(counts: seq<nat>) {
    forall i :: 0 <= i < |counts| ==> counts[i] >= 1
  }

  /** Whatever the store, no key selects a patch without a test. */
  lemma NextKeepsPatchWithinTest(n: Nav, key: Key, counts: seq<nat>)
    requires CanStep(n, key, counts)
    requires n.patchSelected.Some? ==> n.selected.Some?
    ensures Next(n, key, counts).patchSelected.Some? ==> Next(n, key, counts).selected.Some?
  {
  }

  /** With at least one test, every key keeps both indices in bounds. */
  lemma NextInBounds(n: Nav, key: Key, counts: seq<nat>)
    requires |counts| >= 1 && NonEmptyCounts(counts) && InBounds(n, counts)
    ensures CanStep(n, key, counts) && InBounds(Next(n, key, counts), counts)
  {
  }

  /** With no tests at all, the first arrow key selects a test that is not there. */
  lemma EmptyStoreSelectsPastEnd(key: Key)
    requires key in {Up, Down, Left, Right}
    ensures !InBounds(Next(Initial(), key, []), [])
  {
  }

  /** Quit (`q` or Esc) sets only the exit flag. */
  lemma QuitOnlyExits(n: Nav, key: Key, counts: seq<nat>)
    requires key == Esc || key == Char('q')
    ensures Next(n, key, counts) == n.(shouldExit := true)
  {
  }

  /** Any key the handler does not name, including every character but `q`, changes nothing. */
  lemma OtherKeysChangeNothing(n: Nav, key: Key, counts: seq<nat>)
    requires key == Other || (key.Char? && key.c != 'q')
    ensures Next(n, key, counts) == n
  {
  }

  /** Enter scrolls one line further (wrapping at 2^16, as `u16` addition does in a release build); Backspace one line back, never below 0. */
  lemma ScrollKeys(n: Nav, counts: seq<nat>)
    ensures Next(n, Enter, counts) == n.(scroll := if n.scroll == 0xFFFF then 0 else n.scroll + 1)
    ensures Next(n, Backspace, counts) == n.(scroll := if n.scroll == 0 then 0 else n.scroll - 1)
  {
  }

  /** Up and Down go back to the first patch and the top of the log, and select the first test when none was. */
  lemma VerticalMoves(n: Nav, counts: seq<nat>)
    ensures var u := Next(n, Up, counts);
      u.scroll == 0 && u.patchSelected == Some(0) && u.shouldExit == n.shouldExit
      && u.selected == Some(if n.selected.None? then 0 else if n.selected.value == 0 then 0 else n.selected.value - 1)
    ensures var d := Next(n, Down, counts);
      d.scroll == 0 && d.patchSelected == Some(0) && d.shouldExit == n.shouldExit
      && (n.selected.None? ==> d.selected == Some(0))
      && (n.selected.Some? && n.selected.value < |counts| ==> d.selected == Some(Min(n.selected.value + 1, |counts| - 1)))
  {
  }

  /** Left and Right go back to the top of the log; with no test selected they select the first test and patch. */
  lemma HorizontalMoves(n: Nav, counts: seq<nat>)
    requires CanStep(n, Right, counts)
    ensures var l := Next(n, Left, counts);
      l.scroll == 0 && l.shouldExit == n.shouldExit
      && (n.selected.None? ==> l.selected == Some(0) && l.patchSelected == Some(0))
      && (n.selected.Some? ==>
            l.selected == n.selected
            && l.patchSelected == Some(if n.patchSelected.None? then 0 else Decrement(n.patchSelected.value)))
    ensures var r := Next(n, Right, counts);
      r.scroll == 0 && r.shouldExit == n.shouldExit
      && (n.selected.None? ==> r.selected == Some(0) && r.patchSelected == Some(0))
      && (n.selected.Some? ==> r.selected == n.selected)
      && (n.selected.Some? && n.patchSelected.None? ==> r.patchSelected == Some(0))
      && (n.selected.Some? && n.patchSelected.Some? ==>
            r.patchSelected == Some(Min(n.patchSelected.value + 1, counts[n.selected.value] - 1)))
  {
  }

  /** Selection stops at the edges instead of wrapping around. */
  lemma MovesStopAtEdges(n: Nav, counts: seq<nat>)
    requires NonEmptyCounts(counts) && InBounds(n, counts) && n.selected.Some?
    ensures n.selected.value == 0 ==> Next(n, Up, counts).selected == Some(0)
    ensures n.selected.value == |counts| - 1 ==> Next(n, Down, counts).selected == n.selected
    ensures n.patchSelected == Some(0) ==> Next(n, Left, counts).patchSelected == Some(0)
    ensures n.patchSelected == Some(counts[n.selected.value] - 1) ==> Next(n, Right, counts).patchSelected == n.patchSelected
  {
  }

  /** Moving to another test always starts at its first patch and the top of its log. */
  lemma SelectionChangeResets(n: Nav, key: Key, counts: seq<nat>)
    requires CanStep(n, key, counts)
    requires Next(n, key, counts).selected != n.selected
    ensures Next(n, key, counts).patchSelected == Some(0) && Next(n, key, counts).scroll == 0
  {
  }

  /** The event loop's dispatch: the state after a run of key presses, which stops once a quit key is seen. */
  function Replay(n: Nav, keys: seq<Key>, counts: seq<nat>): (r: Nav)
    requires |counts| >= 1 && NonEmptyCounts(counts) && InBounds(n, counts)
    ensures n.shouldExit ==> r == n
    ensures r.shouldExit <==> n.shouldExit || exists i :: 0 <= i < |keys| && IsQuit(keys[i])
    decreases |keys|
  {
    if keys == [] || n.shouldExit then n
    else
      NextInBounds(n, keys[0], counts);
      QuitInRest(keys);
      Replay(Next(n, keys[0], counts), keys[1..], counts)
  }

  /** A run of keys holds a quit key exactly when its first key or the rest does. */
  lemma QuitInRest(keys: seq<Key>)
    requires keys != []
    ensures (exists i :: 0 <= i < |keys| && IsQuit(keys[i]))
        <==> IsQuit(keys[0]) || exists i :: 0 <= i < |keys[1..]| && IsQuit(keys[1..][i])
  {
    if exists i :: 0 <= i < |keys| && IsQuit(keys[i]) {
      var i :| 0 <= i < |keys| && IsQuit(keys[i]);
      if i > 0 { assert IsQuit(keys[1..][i - 1]); }
    }
    if exists i :: 0 <= i < |keys[1..]| && IsQuit(keys[1..][i]) {
      var i :| 0 <= i < |keys[1..]| && IsQuit(keys[1..][i]);
      assert IsQuit(keys[i + 1]);
    }
  }

  /** Starting from the initial state, any run of key presses keeps the state in bounds when there is a test. */
  lemma {:induction false} ReplayInBounds(n: Nav, keys: seq<Key>, counts: seq<nat>)
    requires |counts| >= 1 && NonEmptyCounts(counts) && InBounds(n, counts)
    ensures InBounds(Replay(n, keys, counts), counts)
    decreases |keys|
  {
    if keys != [] && !n.shouldExit {
      NextInBounds(n, keys[0], counts);
      ReplayInBounds(Next(n, keys[0], counts), keys[1..], counts);
    }
  }
}

/**
 * The browser's `App`: the result store, the order its `HashMap` lists the
 * tests in, the log root path, and the navigation fields that `handle_key`
 * updates in place.
 */
module Tui {
  import opened Wrappers
  import opened Decimal
  import opened Record
  import opened Store
  import opened Navigation

  class App {
    /** The store, the order `results.keys()` yields its tests in, and the log root never change after construction. */
    const results: Results
    const keys: seq<string>
    const path: string
    var shouldExit: bool
    var selected: Option<nat>
    var patchSelected: Option<nat>
    var scroll: u16

    /** `keys` lists each test of the store once, and every test has a patch. */
    ghost predicate Valid()
    {
      && IsEnumeration(keys, results.Keys)
      && forall k :: k in results ==> results[k] != map[]
    }

    /** The navigation fields as one value. */
    function State(): Nav
      reads this
    {
      Nav(shouldExit, selected, patchSelected, scroll)
    }

    /** The number of patches of each test, in key order. */
    function Counts(): (counts: seq<nat>)
      requires Valid()
      ensures |counts| == |keys| && NonEmptyCounts(counts)
    {
      PatchCounts(results, keys)
    }

    /** `App::from_results`: the folded store, the given path, and the initial navigation state. */
    constructor FromResults(records: seq<Test>, p: string)
      ensures Valid()
      ensures results == Aggregate(records) && path == p
      ensures State() == Initial()
    {
      var store, order := BuildStore(records);
      AggregateNonEmpty(records);
      results := store;
      keys := order;
      path := p;
      shouldExit := false;
      selected := None;
      patchSelected := None;
      scroll := 0;
    }

    /**
     * `App::handle_key`. Down uses the guarded index (see DownIndex); the other
     * keys do what the source does.
     */
    method HandleKey(key: Key)
      requires Valid()
      requires CanStep(State(), key, Counts())
      modifies this`shouldExit, this`selected, this`patchSelected, this`scroll
      ensures Valid()
      ensures State() == Next(old(State()), key, Counts())
    {
      ghost var counts := Counts();
      ghost var before := State();
      match key {
        case Char(c) =>
          if c == 'q' {
            shouldExit := true;
          }
          assert State() == Next(before, key, counts);
        case Esc =>
          shouldExit := true;
          assert State() == Next(before, key, counts);
        case Up =>
          scroll := 0;
          patchSelected := Some(0);
          match selected {
            case Some(i) => selected := Some(Decrement(i));
            case None => selected := Some(0);
          }
          assert State() == Next(before, key, counts);
        case Down =>
          scroll := 0;
          patchSelected := Some(0);
          match selected {
            case Some(i) => selected := Some(DownIndex(i, |keys|));
            case None => selected := Some(0);
          }
          assert State() == Next(before, key, counts);
        case Left =>
          scroll := 0;
          match selected {
            case Some(_) =>
              match patchSelected {
                case Some(p) => patchSelected := Some(Decrement(p));
                case None => patchSelected := Some(0);
              }
            case None =>
              selected := Some(0);
              patchSelected := Some(0);
          }
          assert State() == Next(before, key, counts);
        case Right =>
          scroll := 0;
          match selected {
            case Some(i) =>
              match patchSelected {
                case Some(p) => patchSelected := Some(RightIndex(p, |results[keys[i]]|));
                case None => patchSelected := Some(0);
              }
            case None =>
              selected := Some(0);
              patchSelected := Some(0);
          }
          assert State() == Next(before, key, counts);
        case Enter =>
          scroll := WrappingIncrement(scroll);
          assert State() == Next(before, key, counts);
        case Backspace =>
          scroll := Decrement(scroll);
          assert State() == Next(before, key, counts);
        case Other =>
      }
    }
  }
}

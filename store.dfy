/**
 * The result store built by `App::from_results`: test name -> patch id -> exit
 * code, folded from the records in order, so a repeated (test, patch) pair
 * keeps the last record's exit code.
 */
module Store {
  import opened Decimal
  import opened Record

  type Results = map<string, map<u8, i64>>

  /** One step of the fold: add the record to its test's inner map, creating that map on first sight. */
  function Insert(store: Results, r: Test): (s: Results)
    ensures r.test in s && r.patch in s[r.test] && s[r.test][r.patch] == r.result
  {
    var inner: map<u8, i64> := if r.test in store then store[r.test][r.patch := r.result] else map[r.patch := r.result];
    store[r.test := inner]
  }

  lemma InsertSize(store: Results, r: Test)
    ensures |Insert(store, r)| <= |store| + 1
  {
    assert Insert(store, r).Keys == store.Keys + {r.test};
  }

  /** Inserting a record touches only its own (test, patch) entry: other tests and other patches keep their exit codes. */
  lemma InsertUpdates(store: Results, r: Test)
    ensures Insert(store, r).Keys == store.Keys + {r.test}
    ensures forall k :: k in store && k != r.test ==> Insert(store, r)[k] == store[k]
    ensures Insert(store, r)[r.test].Keys == (if r.test in store then store[r.test].Keys else {}) + {r.patch}
    ensures forall p :: p in Insert(store, r)[r.test] && p != r.patch ==> Insert(store, r)[r.test][p] == store[r.test][p]
  {
  }

  /** The store after folding every record, first to last. */
  function Aggregate(records: seq<Test>): (s: Results)
    ensures |s| <= |records|
  {
    if records == [] then map[]
    else
      var store, r := Aggregate(records[..|records| - 1]), records[|records| - 1];
      InsertSize(store, r);
      Insert(store, r)
  }

  /** `order` lists every key of the store once, in some order (a `HashMap`'s `keys()` order). */
  ghost predicate IsEnumeration(order: seq<string>, keys: set<string>) {
    && (forall i, j :: 0 <= i < j < |order| ==> order[i] != order[j])
    && (forall k :: k in order <==> k in keys)
  }

  /** The store's tests are exactly the test names of the records. */
  lemma {:induction false} AggregateTests(records: seq<Test>)
    ensures Aggregate(records).Keys == set r | r in records :: r.test
  {
    if records != [] {
      var init := records[..|records| - 1];
      AggregateTests(init);
      assert records == init + [records[|records| - 1]];
    }
  }

  /** A (test, patch) pair is in the store exactly when some record carries it. */
  lemma {:induction false} AggregatePairs(records: seq<Test>, test: string, patch: u8)
    ensures (test in Aggregate(records) && patch in Aggregate(records)[test])
        <==> exists j :: 0 <= j < |records| && records[j].test == test && records[j].patch == patch
  {
    if records != [] {
      var init := records[..|records| - 1];
      AggregatePairs(init, test, patch);
      if exists j :: 0 <= j < |init| && init[j].test == test && init[j].patch == patch {
        var j :| 0 <= j < |init| && init[j].test == test && init[j].patch == patch;
        assert records[j] == init[j];
      }
      if exists j :: 0 <= j < |records| && records[j].test == test && records[j].patch == patch {
        var j :| 0 <= j < |records| && records[j].test == test && records[j].patch == patch;
        if j < |init| {
          assert init[j] == records[j];
        }
      }
    }
  }

  /** Last write wins: a pair's exit code is that of the last record carrying the pair. */
  lemma {:induction false} AggregateLastWins(records: seq<Test>, j: nat)
    requires j < |records|
    requires forall k :: j < k < |records| ==> !(records[k].test == records[j].test && records[k].patch == records[j].patch)
    ensures records[j].test in Aggregate(records) && records[j].patch in Aggregate(records)[records[j].test]
    ensures Aggregate(records)[records[j].test][records[j].patch] == records[j].result
  {
    var init := records[..|records| - 1];
    if j < |records| - 1 {
      assert init[j] == records[j];
      AggregateLastWins(init, j);
    }
  }

  /** Every test in the store has at least one patch. */
  lemma {:induction false} AggregateNonEmpty(records: seq<Test>)
    ensures forall t :: t in Aggregate(records) ==> Aggregate(records)[t] != map[]
  {
    if records != [] {
      var prev, r := Aggregate(records[..|records| - 1]), records[|records| - 1];
      AggregateNonEmpty(records[..|records| - 1]);
      forall t | t in Aggregate(records) ensures Aggregate(records)[t] != map[] {
        if t == r.test {
          assert r.patch in Aggregate(records)[t];
        } else {
          assert Aggregate(records)[t] == prev[t];
        }
      }
    }
  }

  /**
   * The loop of `from_results`. Besides the map it returns the order in which
   * the model lists the map's keys; the source iterates a `HashMap`, whose
   * order is arbitrary, so the contract promises only that every key is listed
   * once.
   */
  method BuildStore(records: seq<Test>) returns (store: Results, order: seq<string>)
    ensures store == Aggregate(records)
    ensures IsEnumeration(order, store.Keys)
  {
    store, order := map[], [];
    for i := 0 to |records|
      invariant store == Aggregate(records[..i])
      invariant IsEnumeration(order, store.Keys)
    {
      var x := records[i];
      assert records[..i + 1][..i] == records[..i];
      assert Aggregate(records[..i + 1]) == Insert(store, x);
      if x.test in store {
        var entry: map<u8, i64> := store[x.test][x.patch := x.result];
        store := store[x.test := entry];
      } else {
        var entry: map<u8, i64> := map[x.patch := x.result];
        store := store[x.test := entry];
        order := order + [x.test];
      }
    }
    assert records[..|records|] == records;
  }

  /** The number of patches of each listed test, in list order. */
  function PatchCounts(results: Results, order: seq<string>): (counts: seq<nat>)
    requires forall i :: 0 <= i < |order| ==> order[i] in results
    ensures |counts| == |order|
    ensures forall i :: 0 <= i < |order| ==> counts[i] == |results[order[i]]|
  {
    seq(|order|, i requires 0 <= i < |order| => |results[order[i]]|)
  }
}

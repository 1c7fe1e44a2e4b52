/** The range scanner: a snapshot of one range taken from the settled machine,
    an opaque action, and a diff of the same range against the snapshot; and
    the movement test that scans five ranges for two actions and keys the
    results by range name and direction. */
module RangeScanner {
  import opened MemoryDiff

  /** The ranges the movement test scans, inclusive at both ends, in order. */
  const RangesToTest: seq<MemRange> := [
    MemRange(0x0000, 0x00FF, "Zero Page"),
    MemRange(0xC000, 0xC0FF, "Work RAM Low"),
    MemRange(0xD000, 0xD0FF, "Work RAM Mid"),
    MemRange(0xDB00, 0xDBFF, "Work RAM High"),
    MemRange(0xFF80, 0xFFFE, "High RAM")
  ]

  const RightSuffix: string := "_right"
  const DownSuffix: string := "_down"

  /** One scan: `before` is the snapshot of `[start, end]` read from the settled
      machine, `changes` the diff of the range after the action, `shown` the
      first ten changes printed. */
  method ScanMemoryRange(start: Address, end: Address, settled: Memory, after: Memory)
    returns (before: map<int, Byte>, changes: seq<Change>, shown: seq<Change>)
    ensures forall a :: a in before <==> start <= a <= end
    ensures forall a :: a in before ==> before[a] == settled(a)
    ensures changes == Diff(settled, after, start, end + 1, {})
    ensures forall i :: 0 <= i < |changes| ==>
      && start <= changes[i].addr <= end
      && changes[i].before != changes[i].after
      && changes[i] == ChangeAt(settled, after, changes[i].addr)
    ensures Ascending(changes)
    ensures |changes| <= if start <= end then end - start + 1 else 0
    ensures shown == Preview(changes, 10)
  {
    before := Capture(settled, start, end + 1);
    changes := DiffAgainst(before, settled, after, start, end + 1);
    DiffSound(settled, after, start, end + 1, {});
    shown := Preview(changes, 10);
  }

  /** The result table after scanning `ranges` in order: each range adds the key
      `<name>_right` and then `<name>_down`, a later range overwriting an
      earlier one of the same name, as a dictionary assignment does. */
  function MovementResults(ranges: seq<MemRange>, settled: Memory, afterRight: Memory, afterDown: Memory)
    : map<string, seq<Change>>
  {
    if ranges == [] then map[]
    else
      var rg := ranges[|ranges| - 1];
      MovementResults(ranges[..|ranges| - 1], settled, afterRight, afterDown)
        [rg.name + RightSuffix := Diff(settled, afterRight, rg.start, rg.end + 1, {})]
        [rg.name + DownSuffix := Diff(settled, afterDown, rg.start, rg.end + 1, {})]
  }

  /** The keys two per range. */
  function MovementKeys(ranges: seq<MemRange>): set<string> {
    (set k | 0 <= k < |ranges| :: ranges[k].name + RightSuffix)
      + (set k | 0 <= k < |ranges| :: ranges[k].name + DownSuffix)
  }

  predicate DistinctNames(ranges: seq<MemRange>) {
    forall i, j :: 0 <= i < j < |ranges| ==> ranges[i].name != ranges[j].name
  }

  /** A "_right" key is never a "_down" key, and each suffix keeps names apart. */
  lemma KeysApart(n1: string, n2: string)
    ensures n1 + RightSuffix != n2 + DownSuffix
    ensures n1 + RightSuffix == n2 + RightSuffix ==> n1 == n2
    ensures n1 + DownSuffix == n2 + DownSuffix ==> n1 == n2
  {
    assert (n1 + RightSuffix)[|n1| + 5] == 't';
    assert (n2 + DownSuffix)[|n2| + 4] == 'n';
    assert n1 == (n1 + RightSuffix)[..|n1|] == (n1 + DownSuffix)[..|n1|];
    assert n2 == (n2 + RightSuffix)[..|n2|] == (n2 + DownSuffix)[..|n2|];
  }

  /** The table holds exactly the two keys of every scanned range. */
  lemma {:induction false} MovementResultsKeys(ranges: seq<MemRange>, settled: Memory, afterRight: Memory, afterDown: Memory)
    ensures MovementResults(ranges, settled, afterRight, afterDown).Keys == MovementKeys(ranges)
  {
    if ranges != [] {
      var init, rg := ranges[..|ranges| - 1], ranges[|ranges| - 1];
      MovementResultsKeys(init, settled, afterRight, afterDown);
      forall s ensures s in MovementKeys(ranges) <==>
        s in MovementKeys(init) || s == rg.name + RightSuffix || s == rg.name + DownSuffix
      {
        if s in MovementKeys(ranges) {
          var k :| 0 <= k < |ranges| && (s == ranges[k].name + RightSuffix || s == ranges[k].name + DownSuffix);
          if k < |init| {
            assert init[k] == ranges[k];
          }
        }
        if s in MovementKeys(init) {
          var k :| 0 <= k < |init| && (s == init[k].name + RightSuffix || s == init[k].name + DownSuffix);
          assert init[k] == ranges[k];
        }
      }
    }
  }

  /** Neither key of the last range is a key of an earlier range. */
  lemma LastKeysFresh(ranges: seq<MemRange>, s: string)
    requires DistinctNames(ranges) && ranges != []
    requires s in MovementKeys(ranges[..|ranges| - 1])
    ensures s != ranges[|ranges| - 1].name + RightSuffix && s != ranges[|ranges| - 1].name + DownSuffix
  {
    var init, rg := ranges[..|ranges| - 1], ranges[|ranges| - 1];
    var k :| 0 <= k < |init| && (s == init[k].name + RightSuffix || s == init[k].name + DownSuffix);
    assert init[k] == ranges[k];
    KeysApart(rg.name, init[k].name);
    KeysApart(init[k].name, rg.name);
  }

  /** With distinct range names the table has two entries per range. */
  lemma {:induction false} MovementResultsCount(ranges: seq<MemRange>, settled: Memory, afterRight: Memory, afterDown: Memory)
    requires DistinctNames(ranges)
    ensures |MovementResults(ranges, settled, afterRight, afterDown)| == 2 * |ranges|
  {
    if ranges != [] {
      var init, rg := ranges[..|ranges| - 1], ranges[|ranges| - 1];
      var m0 := MovementResults(init, settled, afterRight, afterDown);
      MovementResultsCount(init, settled, afterRight, afterDown);
      MovementResultsKeys(init, settled, afterRight, afterDown);
      KeysApart(rg.name, rg.name);
      if rg.name + RightSuffix in m0 {
        LastKeysFresh(ranges, rg.name + RightSuffix);
      }
      if rg.name + DownSuffix in m0 {
        LastKeysFresh(ranges, rg.name + DownSuffix);
      }
    }
  }

  /** With distinct range names, range `k`'s two entries hold its two scans. */
  lemma {:induction false} MovementResultsLookup(ranges: seq<MemRange>, settled: Memory, afterRight: Memory, afterDown: Memory, k: int)
    requires DistinctNames(ranges) && 0 <= k < |ranges|
    ensures ranges[k].name + RightSuffix in MovementResults(ranges, settled, afterRight, afterDown)
    ensures ranges[k].name + DownSuffix in MovementResults(ranges, settled, afterRight, afterDown)
    ensures MovementResults(ranges, settled, afterRight, afterDown)[ranges[k].name + RightSuffix]
      == Diff(settled, afterRight, ranges[k].start, ranges[k].end + 1, {})
    ensures MovementResults(ranges, settled, afterRight, afterDown)[ranges[k].name + DownSuffix]
      == Diff(settled, afterDown, ranges[k].start, ranges[k].end + 1, {})
  {
    var init, rg := ranges[..|ranges| - 1], ranges[|ranges| - 1];
    KeysApart(rg.name, rg.name);
    if k < |init| {
      assert init[k] == ranges[k];
      MovementResultsLookup(init, settled, afterRight, afterDown, k);
      KeysApart(rg.name, init[k].name);
      KeysApart(init[k].name, rg.name);
    }
  }

  /** Every range's two entries of `m` hold its two scans. */
  predicate HoldsScans(m: map<string, seq<Change>>, ranges: seq<MemRange>, settled: Memory, afterRight: Memory, afterDown: Memory) {
    forall k :: 0 <= k < |ranges| ==>
      && ranges[k].name + RightSuffix in m
      && ranges[k].name + DownSuffix in m
      && m[ranges[k].name + RightSuffix] == Diff(settled, afterRight, ranges[k].start, ranges[k].end + 1, {})
      && m[ranges[k].name + DownSuffix] == Diff(settled, afterDown, ranges[k].start, ranges[k].end + 1, {})
  }

  /** With distinct range names, every range's two entries hold its two scans. */
  lemma MovementResultsAll(ranges: seq<MemRange>, settled: Memory, afterRight: Memory, afterDown: Memory)
    requires DistinctNames(ranges)
    ensures HoldsScans(MovementResults(ranges, settled, afterRight, afterDown), ranges, settled, afterRight, afterDown)
  {
    forall k | 0 <= k < |ranges|
      ensures ranges[k].name + RightSuffix in MovementResults(ranges, settled, afterRight, afterDown)
      ensures ranges[k].name + DownSuffix in MovementResults(ranges, settled, afterRight, afterDown)
      ensures MovementResults(ranges, settled, afterRight, afterDown)[ranges[k].name + RightSuffix]
        == Diff(settled, afterRight, ranges[k].start, ranges[k].end + 1, {})
      ensures MovementResults(ranges, settled, afterRight, afterDown)[ranges[k].name + DownSuffix]
        == Diff(settled, afterDown, ranges[k].start, ranges[k].end + 1, {})
    {
      MovementResultsLookup(ranges, settled, afterRight, afterDown, k);
    }
  }

  /** The five scanned ranges have five different names. */
  lemma RangesToTestDistinct()
    ensures DistinctNames(RangesToTest)
  {
  }

  /** The outer loop: two scans per range, stored under the range's two keys. */
  method ScanAll(ranges: seq<MemRange>, settled: Memory, afterRight: Memory, afterDown: Memory)
    returns (allChanges: map<string, seq<Change>>)
    ensures allChanges == MovementResults(ranges, settled, afterRight, afterDown)
  {
    allChanges := map[];
    var k := 0;
    while k < |ranges|
      invariant 0 <= k <= |ranges|
      invariant allChanges == MovementResults(ranges[..k], settled, afterRight, afterDown)
    {
      var rg := ranges[k];
      var _, changesRight, _ := ScanMemoryRange(rg.start, rg.end, settled, afterRight);
      var _, changesDown, _ := ScanMemoryRange(rg.start, rg.end, settled, afterDown);
      allChanges := allChanges[rg.name + RightSuffix := changesRight];
      allChanges := allChanges[rg.name + DownSuffix := changesDown];
      assert ranges[..k + 1][..k] == ranges[..k] && ranges[..k + 1][k] == rg;
      k := k + 1;
    }
    assert ranges[..k] == ranges;
  }

  /** The movement test: ten entries, each range's scans after moving right and
      after moving down under `<name>_right` and `<name>_down`. */
  method TestMovement(settled: Memory, afterRight: Memory, afterDown: Memory)
    returns (allChanges: map<string, seq<Change>>)
    ensures allChanges == MovementResults(RangesToTest, settled, afterRight, afterDown)
    ensures allChanges.Keys == MovementKeys(RangesToTest)
    ensures |allChanges| == 10
    ensures HoldsScans(allChanges, RangesToTest, settled, afterRight, afterDown)
  {
    allChanges := ScanAll(RangesToTest, settled, afterRight, afterDown);
    MovementResultsKeys(RangesToTest, settled, afterRight, afterDown);
    RangesToTestDistinct();
    MovementResultsCount(RangesToTest, settled, afterRight, afterDown);
    MovementResultsAll(RangesToTest, settled, afterRight, afterDown);
  }
}

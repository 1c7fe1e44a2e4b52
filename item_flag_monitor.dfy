/** The live item-flag monitor: a rolling baseline over the flag region
    0xDB00..0xDBFF and a table of discovered items. An address is reported
    when its flag goes from 0 to 1 between two checks. */
module ItemFlags {
  import opened MemoryDiff

  const FlagStart: Address := 0xDB00
  const FlagEnd: Address := 0xDBFF

  predicate InFlagRange(a: int) {
    FlagStart <= a <= FlagEnd
  }

  /** The monitored addresses, `range(FLAG_START, FLAG_END + 1)`. */
  function FlagRange(): (r: seq<Address>)
    ensures |r| == 256 && r[0] == 0xDB00 && r[|r| - 1] == 0xDBFF
    ensures forall i :: 0 <= i < |r| ==> InFlagRange(r[i]) && r[i] == FlagStart + i
    ensures forall a :: InFlagRange(a) ==> a in r
  {
    var r := seq(FlagEnd - FlagStart + 1, i requires 0 <= i <= FlagEnd - FlagStart => (FlagStart + i) as Address);
    assert forall a :: InFlagRange(a) ==> r[a - FlagStart] == a;
    r
  }

  /** One acquisition record `{addr, old, new}`. */
  datatype Acquisition = Acquisition(addr: Address, oldValue: Byte, newValue: Byte)

  predicate Covers(flags: map<int, Byte>, lo: int, hi: int) {
    forall a :: lo <= a < hi ==> a in flags
  }

  /** Whether the check reports address `a`: its baseline value is 0 and it now reads 1. */
  predicate Acquired(prev: map<int, Byte>, mem: Memory, a: Address) {
    a in prev && prev[a] == 0 && mem(a) == 1
  }

  /** The acquisitions one check reports over the addresses `lo .. hi - 1`. */
  function Acquisitions(prev: map<int, Byte>, mem: Memory, lo: int, hi: int): seq<Acquisition>
    requires 0 <= lo && hi <= AddressSpace
    decreases hi - lo
  {
    if hi <= lo then []
    else
      Acquisitions(prev, mem, lo, hi - 1)
      + (if Acquired(prev, mem, hi - 1) then [Acquisition(hi - 1, 0, 1)] else [])
  }

  /** Every reported address lies in the range and went from 0 to 1, each
      record carries old value 0 and new value 1, and the records ascend by
      address. */
  lemma {:induction false} AcquisitionsSound(prev: map<int, Byte>, mem: Memory, lo: int, hi: int)
    requires 0 <= lo && hi <= AddressSpace
    ensures |Acquisitions(prev, mem, lo, hi)| <= if lo <= hi then hi - lo else 0
    ensures forall i :: 0 <= i < |Acquisitions(prev, mem, lo, hi)| ==>
      && lo <= Acquisitions(prev, mem, lo, hi)[i].addr < hi
      && Acquired(prev, mem, Acquisitions(prev, mem, lo, hi)[i].addr)
      && Acquisitions(prev, mem, lo, hi)[i].oldValue == 0
      && Acquisitions(prev, mem, lo, hi)[i].newValue == 1
    ensures forall i, j :: 0 <= i < j < |Acquisitions(prev, mem, lo, hi)| ==>
      Acquisitions(prev, mem, lo, hi)[i].addr < Acquisitions(prev, mem, lo, hi)[j].addr
    decreases hi - lo
  {
    if lo < hi {
      AcquisitionsSound(prev, mem, lo, hi - 1);
    }
  }

  predicate Lists(acqs: seq<Acquisition>, a: int) {
    exists i :: 0 <= i < |acqs| && acqs[i].addr == a
  }

  /** A check reports `a` exactly when `a` is in the range and went from 0 to 1:
      any other transition (1 to 0, 0 to 2, 5 to 1, ...) is never reported. */
  lemma {:induction false} AcquisitionsExact(prev: map<int, Byte>, mem: Memory, lo: int, hi: int, a: int)
    requires 0 <= lo && hi <= AddressSpace
    ensures Lists(Acquisitions(prev, mem, lo, hi), a) <==> lo <= a < hi && Acquired(prev, mem, a)
    decreases hi - lo
  {
    var r := Acquisitions(prev, mem, lo, hi);
    if Lists(r, a) {
      AcquisitionsSound(prev, mem, lo, hi);
      var i :| 0 <= i < |r| && r[i].addr == a;
    }
    if lo <= a < hi && Acquired(prev, mem, a) {
      var d := Acquisitions(prev, mem, lo, hi - 1);
      if a == hi - 1 {
        assert r[|d|].addr == a;
      } else {
        AcquisitionsExact(prev, mem, lo, hi - 1, a);
        var i :| 0 <= i < |d| && d[i].addr == a;
        assert r[i] == d[i];
      }
    }
  }

  /** The baseline after a check or a baseline update: every monitored address
      holds the current value, every other entry is kept. */
  function Rebased(prev: map<int, Byte>, mem: Memory): (r: map<int, Byte>)
    ensures forall a :: a in r <==> a in prev || InFlagRange(a)
    ensures forall a :: InFlagRange(a) ==> r[a] == mem(a)
    ensures forall a :: a in prev && !InFlagRange(a) ==> r[a] == prev[a]
  {
    var snap := Snapshot(mem, FlagStart, FlagEnd + 1);
    assert forall a :: InFlagRange(a) ==> a in snap;
    prev + snap
  }

  /** The discovered-items table after recording `acqs`: each reported address maps to 1. */
  function Recorded(items: map<int, Byte>, acqs: seq<Acquisition>): map<int, Byte>
  {
    if acqs == [] then items
    else Recorded(items, acqs[..|acqs| - 1])[acqs[|acqs| - 1].addr := 1]
  }

  /** Listing in `acqs` is listing in all but its last record, or being its last record. */
  lemma ListsSplit(acqs: seq<Acquisition>, a: int)
    requires acqs != []
    ensures Lists(acqs, a) <==> Lists(acqs[..|acqs| - 1], a) || a == acqs[|acqs| - 1].addr
  {
    var init := acqs[..|acqs| - 1];
    if Lists(acqs, a) {
      var i :| 0 <= i < |acqs| && acqs[i].addr == a;
      if i < |init| { assert init[i] == acqs[i]; }
    }
    if Lists(init, a) {
      var i :| 0 <= i < |init| && init[i].addr == a;
      assert acqs[i] == init[i];
    }
    if a == acqs[|acqs| - 1].addr {
      assert acqs[|acqs| - 1].addr == a;
    }
  }

  /** The table gains exactly the reported addresses, each with value 1; no other
      entry changes, so it never shrinks, and reporting an address it already
      holds does not grow it. */
  lemma {:induction false} RecordedKeepsOthers(items: map<int, Byte>, acqs: seq<Acquisition>)
    ensures forall a :: a in Recorded(items, acqs) <==> a in items || Lists(acqs, a)
    ensures forall a :: Lists(acqs, a) ==> Recorded(items, acqs)[a] == 1
    ensures forall a :: a in items && !Lists(acqs, a) ==> Recorded(items, acqs)[a] == items[a]
    ensures |items| <= |Recorded(items, acqs)|
    ensures (forall i :: 0 <= i < |acqs| ==> acqs[i].addr in items) ==> |Recorded(items, acqs)| == |items|
  {
    var r := Recorded(items, acqs);
    if acqs != [] {
      var init := acqs[..|acqs| - 1];
      RecordedKeepsOthers(items, init);
      assert r == Recorded(items, init)[acqs[|acqs| - 1].addr := 1];
      forall a ensures Lists(acqs, a) <==> Lists(init, a) || a == acqs[|acqs| - 1].addr {
        ListsSplit(acqs, a);
      }
    }
    forall a | a in items ensures a in r {
    }
    SubsetCard(items.Keys, r.Keys);
    if forall i :: 0 <= i < |acqs| ==> acqs[i].addr in items {
      forall a | a in r ensures a in items {
        if Lists(acqs, a) {
          var i :| 0 <= i < |acqs| && acqs[i].addr == a;
        }
      }
      assert r.Keys == items.Keys;
    }
  }

  /** What the check loop holds after visiting some addresses: the list it
      returns, the baseline and the discovered-items table. */
  datatype CheckState = CheckState(acquisitions: seq<Acquisition>, flags: map<int, Byte>, items: map<int, Byte>)

  /** The check loop, step by step, after visiting `FlagStart .. hi - 1`. */
  function CheckUpTo(prev: map<int, Byte>, items: map<int, Byte>, mem: Memory, hi: int): CheckState
    requires FlagStart <= hi <= FlagEnd + 1
    decreases hi
  {
    if hi == FlagStart then CheckState([], prev, items)
    else
      var s := CheckUpTo(prev, items, mem, hi - 1);
      var a: Address := hi - 1;
      var hit := Acquired(s.flags, mem, a);
      CheckState(
        if hit then s.acquisitions + [Acquisition(a, 0, 1)] else s.acquisitions,
        s.flags[a := mem(a)],
        if hit then s.items[a := 1] else s.items)
  }

  /** The step-by-step check reports `Acquisitions` of the baseline it started
      from, overlays the memory read so far, and records what it reported. */
  lemma {:induction false} CheckUpToMeaning(prev: map<int, Byte>, items: map<int, Byte>, mem: Memory, hi: int)
    requires FlagStart <= hi <= FlagEnd + 1
    ensures CheckUpTo(prev, items, mem, hi) == CheckState(
      Acquisitions(prev, mem, FlagStart, hi),
      prev + Snapshot(mem, FlagStart, hi),
      Recorded(items, Acquisitions(prev, mem, FlagStart, hi)))
    decreases hi
  {
    if hi > FlagStart {
      var a: Address := hi - 1;
      CheckUpToMeaning(prev, items, mem, hi - 1);
      OverlayStep(prev, mem, FlagStart, a);
      var acqs := Acquisitions(prev, mem, FlagStart, a);
      assert Acquired(prev + Snapshot(mem, FlagStart, a), mem, a) == Acquired(prev, mem, a) by {
        assert a !in Snapshot(mem, FlagStart, a);
      }
      if Acquired(prev, mem, a) {
        assert Acquisitions(prev, mem, FlagStart, hi) == acqs + [Acquisition(a, 0, 1)];
        RecordedStep(items, acqs, Acquisition(a, 0, 1));
      } else {
        assert Acquisitions(prev, mem, FlagStart, hi) == acqs + [] == acqs;
      }
    }
  }

  /** One more acquisition adds its address to the table. */
  lemma RecordedStep(items: map<int, Byte>, acqs: seq<Acquisition>, x: Acquisition)
    ensures Recorded(items, acqs + [x]) == Recorded(items, acqs)[x.addr := 1]
  {
    assert (acqs + [x])[..|acqs|] == acqs;
  }

  /** One more address read into the baseline: the overlay grows by that
      address, and before the write the address still holds its old value. */
  lemma OverlayStep(prev: map<int, Byte>, mem: Memory, lo: int, addr: Address)
    requires 0 <= lo <= addr
    ensures (prev + Snapshot(mem, lo, addr))[addr := mem(addr)] == prev + Snapshot(mem, lo, addr + 1)
    ensures addr in prev ==> (prev + Snapshot(mem, lo, addr))[addr] == prev[addr]
  {
    assert addr !in Snapshot(mem, lo, addr);
  }

  lemma SubsetCard<T>(a: set<T>, b: set<T>)
    requires a <= b
    ensures |a| <= |b|
  {
    assert b == a + (b - a);
  }

  class ItemFlagMonitor {
    var previousFlags: map<int, Byte>
    var discoveredItems: map<int, Byte>

    constructor ()
      ensures previousFlags == map[] && discoveredItems == map[]
    {
      previousFlags := map[];
      discoveredItems := map[];
    }

    /** The baseline has been taken: every monitored address has a previous value. */
    ghost predicate Baselined()
      reads this
    {
      Covers(previousFlags, FlagStart, FlagEnd + 1)
    }

    /** `update_flag_baseline`: read every monitored address into the baseline. */
    method UpdateFlagBaseline(mem: Memory)
      modifies this
      ensures Baselined()
      ensures forall a :: InFlagRange(a) ==> previousFlags[a] == mem(a)
      ensures previousFlags == Rebased(old(previousFlags), mem)
      ensures discoveredItems == old(discoveredItems)
    {
      var addr := FlagStart;
      while addr <= FlagEnd
        invariant FlagStart <= addr <= FlagEnd + 1
        invariant previousFlags == old(previousFlags) + Snapshot(mem, FlagStart, addr)
        invariant discoveredItems == old(discoveredItems)
      {
        assert addr == FlagRange()[addr - FlagStart];  // the loop visits `FlagRange()` in order
        OverlayStep(old(previousFlags), mem, FlagStart, addr);
        previousFlags := previousFlags[addr := mem(addr)];
        addr := addr + 1;
      }
    }

    /** `check_flag_changes`: report every 0 to 1 transition since the baseline,
        record it in the discovered-items table, and move the whole baseline
        forward to the current memory. */
    method CheckFlagChanges(mem: Memory) returns (newAcquisitions: seq<Acquisition>)
      requires Baselined()
      modifies this
      ensures newAcquisitions == Acquisitions(old(previousFlags), mem, FlagStart, FlagEnd + 1)
      ensures previousFlags == Rebased(old(previousFlags), mem)
      ensures discoveredItems == Recorded(old(discoveredItems), newAcquisitions)
    {
      ghost var prev0, items0 := previousFlags, discoveredItems;
      newAcquisitions := [];
      var addr := FlagStart;
      while addr <= FlagEnd
        invariant FlagStart <= addr <= FlagEnd + 1
        invariant CheckState(newAcquisitions, previousFlags, discoveredItems) == CheckUpTo(prev0, items0, mem, addr)
        invariant forall a :: a in prev0 ==> a in previousFlags
      {
        assert addr == FlagRange()[addr - FlagStart];  // the loop visits `FlagRange()` in order
        var oldVal := previousFlags[addr];
        var newVal := mem(addr);
        if oldVal == 0 && newVal == 1 {
          newAcquisitions := newAcquisitions + [Acquisition(addr, oldVal, newVal)];
          discoveredItems := discoveredItems[addr := newVal];
        }
        previousFlags := previousFlags[addr := newVal];
        addr := addr + 1;
      }
      CheckUpToMeaning(prev0, items0, mem, FlagEnd + 1);
    }

    /** The selection of `print_acquisitions`: the reported addresses in order,
        and the size of the discovered-items table, shown only when something
        was reported. */
    method PrintAcquisitions(acquisitions: seq<Acquisition>) returns (addrs: seq<Address>, total: Option<nat>)
      ensures |addrs| == |acquisitions|
      ensures forall i :: 0 <= i < |acquisitions| ==> addrs[i] == acquisitions[i].addr
      ensures total.Some? <==> acquisitions != []
      ensures total.Some? ==> total.value == |discoveredItems|
    {
      addrs := [];
      for i := 0 to |acquisitions|
        invariant |addrs| == i
        invariant forall j :: 0 <= j < i ==> addrs[j] == acquisitions[j].addr
      {
        addrs := addrs + [acquisitions[i].addr];
      }
      total := if acquisitions != [] then Some(|discoveredItems|) else None;
    }
  }

  datatype Option<T> = None | Some(value: T)

  /** The non-zero flags over `lo .. hi - 1`, as `(address, value)` pairs in address order. */
  function NonZeroFlags(mem: Memory, lo: int, hi: int): (r: seq<(Address, Byte)>)
    requires 0 <= lo && hi <= AddressSpace
    ensures forall i :: 0 <= i < |r| ==> lo <= r[i].0 < hi && r[i].1 == mem(r[i].0) && r[i].1 != 0
    ensures forall i, j :: 0 <= i < j < |r| ==> r[i].0 < r[j].0
    decreases hi - lo
  {
    if hi <= lo then []
    else NonZeroFlags(mem, lo, hi - 1) + (if mem(hi - 1) != 0 then [(hi - 1 as Address, mem(hi - 1))] else [])
  }

  /** Where a non-zero flag of the range is listed. */
  lemma {:induction false} NonZeroFlagsIndex(mem: Memory, lo: int, hi: int, a: Address) returns (i: int)
    requires 0 <= lo && hi <= AddressSpace
    requires lo <= a < hi && mem(a) != 0
    ensures 0 <= i < |NonZeroFlags(mem, lo, hi)| && NonZeroFlags(mem, lo, hi)[i].0 == a
    decreases hi - lo
  {
    var d := NonZeroFlags(mem, lo, hi - 1);
    if a == hi - 1 {
      i := |d|;
    } else {
      i := NonZeroFlagsIndex(mem, lo, hi - 1, a);
      assert NonZeroFlags(mem, lo, hi)[i] == d[i];
    }
  }

  /** Every non-zero flag in the range is listed. */
  lemma NonZeroFlagsComplete(mem: Memory, lo: int, hi: int, a: Address)
    requires 0 <= lo && hi <= AddressSpace
    requires lo <= a < hi && mem(a) != 0
    ensures exists i :: 0 <= i < |NonZeroFlags(mem, lo, hi)| && NonZeroFlags(mem, lo, hi)[i].0 == a
  {
    var i := NonZeroFlagsIndex(mem, lo, hi, a);
  }

  /** The selection of `print_current_flags`: the first 10 non-zero flags and how
      many more there are. */
  method PrintCurrentFlags(mem: Memory) returns (shown: seq<(Address, Byte)>, more: nat)
    ensures shown == Preview(NonZeroFlags(mem, FlagStart, FlagEnd + 1), 10)
    ensures more == Overflow(NonZeroFlags(mem, FlagStart, FlagEnd + 1), 10)
  {
    var nonZero: seq<(Address, Byte)> := [];
    var addr := FlagStart;
    while addr <= FlagEnd
      invariant FlagStart <= addr <= FlagEnd + 1
      invariant nonZero == NonZeroFlags(mem, FlagStart, addr)
    {
      assert addr == FlagRange()[addr - FlagStart];  // the loop visits `FlagRange()` in order
      var val := mem(addr);
      if val != 0 {
        nonZero := nonZero + [(addr, val)];
      }
      addr := addr + 1;
    }
    shown := if |nonZero| <= 10 then nonZero else nonZero[..10];
    more := if |nonZero| > 10 then |nonZero| - 10 else 0;
  }

  /** A second check against unchanged memory reports nothing: after a check or
      baseline update the baseline equals memory on every monitored address. */
  lemma UnchangedMemoryReportsNothing(prev: map<int, Byte>, mem: Memory)
    ensures Acquisitions(Rebased(prev, mem), mem, FlagStart, FlagEnd + 1) == []
  {
    NoAcquisitionsWhenEqual(Rebased(prev, mem), mem, FlagStart, FlagEnd + 1);
  }

  /** Where the baseline already equals memory, nothing is reported. */
  lemma {:induction false} NoAcquisitionsWhenEqual(prev: map<int, Byte>, mem: Memory, lo: int, hi: int)
    requires 0 <= lo && hi <= AddressSpace
    requires forall a :: lo <= a < hi ==> a in prev && prev[a] == mem(a)
    ensures Acquisitions(prev, mem, lo, hi) == []
    decreases hi - lo
  {
    if lo < hi {
      NoAcquisitionsWhenEqual(prev, mem, lo, hi - 1);
      assert prev[hi - 1] == mem(hi - 1);
    }
  }
}

/** Re-reporting: the monitor records every report in `discovered_items` but does
    not consult that table when it decides what to report, so a flag that is
    cleared and set again is reported a second time, while the table still holds
    it once. */
module ItemFlagsReacquire {
  import opened MemoryDiff
  import opened ItemFlags

  const Cleared: Memory := _ => 0

  /** Memory in which only the flag at `f` is set. */
  function OnlyFlag(f: Address): Memory {
    a => if a == f then 1 else 0
  }

  /** From a cleared baseline, setting only flag `f` reports exactly `f`. */
  lemma OnlyFlagReported(prev: map<int, Byte>, f: Address, a: int)
    requires InFlagRange(f)
    requires forall x :: InFlagRange(x) ==> x in prev && prev[x] == 0
    ensures Lists(Acquisitions(prev, OnlyFlag(f), FlagStart, FlagEnd + 1), a) <==> a == f
  {
    AcquisitionsExact(prev, OnlyFlag(f), FlagStart, FlagEnd + 1, a);
  }

  /** Clearing every flag reports nothing. */
  lemma {:induction false} ClearingReportsNothing(prev: map<int, Byte>, lo: int, hi: int)
    requires 0 <= lo && hi <= AddressSpace
    ensures Acquisitions(prev, Cleared, lo, hi) == []
    decreases hi - lo
  {
    if lo < hi {
      ClearingReportsNothing(prev, lo, hi - 1);
    }
  }

  /** Recording a list that names only `f` into a table without `f` gives `{f}`. */
  lemma RecordedOnly(items: map<int, Byte>, acqs: seq<Acquisition>, f: Address)
    requires items.Keys <= {f}
    requires forall a :: Lists(acqs, a) <==> a == f
    ensures Recorded(items, acqs).Keys == {f}
  {
    RecordedKeepsOthers(items, acqs);
    var r := Recorded(items, acqs);
    forall a | a in r ensures a == f {
      if a in items {
        assert a in {f};
      }
    }
    assert Lists(acqs, f);
  }

  /** A flag set, cleared and set again across three checks is reported by the
      first and the third check, while the table ends up holding it once. */
  lemma ReacquiredFlagReportedTwice(f: Address)
    requires InFlagRange(f)
    ensures var b0 := Rebased(map[], Cleared);
      var first := Acquisitions(b0, OnlyFlag(f), FlagStart, FlagEnd + 1);
      var b1 := Rebased(b0, OnlyFlag(f));
      var second := Acquisitions(b1, Cleared, FlagStart, FlagEnd + 1);
      var b2 := Rebased(b1, Cleared);
      var third := Acquisitions(b2, OnlyFlag(f), FlagStart, FlagEnd + 1);
      && Lists(first, f) && second == [] && Lists(third, f)
      && Recorded(Recorded(Recorded(map[], first), second), third).Keys == {f}
  {
    var b0 := Rebased(map[], Cleared);
    var first := Acquisitions(b0, OnlyFlag(f), FlagStart, FlagEnd + 1);
    var b1 := Rebased(b0, OnlyFlag(f));
    var b2 := Rebased(b1, Cleared);
    var third := Acquisitions(b2, OnlyFlag(f), FlagStart, FlagEnd + 1);
    forall a ensures Lists(first, a) <==> a == f {
      OnlyFlagReported(b0, f, a);
    }
    forall a ensures Lists(third, a) <==> a == f {
      OnlyFlagReported(b2, f, a);
    }
    ClearingReportsNothing(b1, FlagStart, FlagEnd + 1);
    RecordedOnly(map[], first, f);
    RecordedOnly(Recorded(map[], first), third, f);
  }
}

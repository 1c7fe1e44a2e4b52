/** The save-state comparator: two memories diffed over five named ranges,
    skipping the known position addresses, then narrowed to the changes small
    enough to be counters or flags. */
module SaveStateCompare {
  import opened MemoryDiff

  /** Player position and its mirrors in high RAM; never compared. */
  const PositionAddresses: set<int> := {0xC008, 0xC009, 0xC00C, 0xC00D, 0xFF98, 0xFF99, 0xFF9F, 0xFFA0}

  /** The compared ranges, inclusive at both ends, in the order they are scanned. */
  const MemoryRanges: seq<MemRange> := [
    MemRange(0x0000, 0x00FF, "Zero Page"),
    MemRange(0xC000, 0xC0FF, "Work RAM Low"),
    MemRange(0xD000, 0xD0FF, "Work RAM Mid"),
    MemRange(0xDB00, 0xDBFF, "Work RAM High"),
    MemRange(0xFF80, 0xFFFE, "High RAM")
  ]

  /** Each range ends before the next one starts. */
  predicate Ordered(ranges: seq<MemRange>) {
    forall i, j :: 0 <= i < j < |ranges| ==> ranges[i].end < ranges[j].start
  }

  /** Address `a` lies in a range of `ranges` named `tag`. */
  predicate Within(ranges: seq<MemRange>, a: int, tag: string) {
    exists k :: 0 <= k < |ranges| && ranges[k].name == tag && ranges[k].start <= a <= ranges[k].end
  }

  /** Address `a` lies in some range of `ranges`. */
  predicate Covered(ranges: seq<MemRange>, a: int) {
    exists k :: 0 <= k < |ranges| && ranges[k].start <= a <= ranges[k].end
  }

  /** The records of one range, tagged with its name. */
  function RangeChanges(base: Memory, test: Memory, rg: MemRange, ignore: set<int>): seq<Labelled> {
    Tagged(Diff(base, test, rg.start, rg.end + 1, ignore), rg.name)
  }

  /** All records: the ranges' records concatenated in list order. */
  function CompareRanges(base: Memory, test: Memory, ranges: seq<MemRange>, ignore: set<int>): seq<Labelled> {
    if ranges == [] then []
    else CompareRanges(base, test, ranges[..|ranges| - 1], ignore) + RangeChanges(base, test, ranges[|ranges| - 1], ignore)
  }

  /** Every record lies in a range carrying its tag, is not ignored, differs,
      and carries the two memories' values. */
  lemma {:induction false} CompareSound(base: Memory, test: Memory, ranges: seq<MemRange>, ignore: set<int>)
    ensures forall i :: 0 <= i < |CompareRanges(base, test, ranges, ignore)| ==>
      && Within(ranges, CompareRanges(base, test, ranges, ignore)[i].change.addr, CompareRanges(base, test, ranges, ignore)[i].tag)
      && Differs(base, test, ignore, CompareRanges(base, test, ranges, ignore)[i].change.addr)
      && CompareRanges(base, test, ranges, ignore)[i].change == ChangeAt(base, test, CompareRanges(base, test, ranges, ignore)[i].change.addr)
  {
    if ranges != [] {
      var init, rg := ranges[..|ranges| - 1], ranges[|ranges| - 1];
      var head := CompareRanges(base, test, init, ignore);
      var d := Diff(base, test, rg.start, rg.end + 1, ignore);
      var r := head + Tagged(d, rg.name);
      CompareSound(base, test, init, ignore);
      DiffSound(base, test, rg.start, rg.end + 1, ignore);
      forall i | 0 <= i < |r|
        ensures Within(ranges, r[i].change.addr, r[i].tag)
        ensures Differs(base, test, ignore, r[i].change.addr)
        ensures r[i].change == ChangeAt(base, test, r[i].change.addr)
      {
        if i < |head| {
          assert r[i] == head[i];
          var k :| 0 <= k < |init| && init[k].name == r[i].tag && init[k].start <= r[i].change.addr <= init[k].end;
          assert ranges[k] == init[k];
        } else {
          assert r[i] == Labelled(d[i - |head|], rg.name);
        }
      }
    }
  }

  lemma TaggedReports(cs: seq<Change>, tag: string, a: int)
    requires Reports(cs, a)
    ensures ReportsL(Tagged(cs, tag), a)
  {
    var i :| 0 <= i < |cs| && cs[i].addr == a;
    assert Tagged(cs, tag)[i].change == cs[i];
  }

  /** An address covered by the ranges but not by the last one is covered by the others. */
  lemma CoveredByInit(ranges: seq<MemRange>, a: int)
    requires Covered(ranges, a)
    requires !(ranges[|ranges| - 1].start <= a <= ranges[|ranges| - 1].end)
    ensures Covered(ranges[..|ranges| - 1], a)
  {
    var k :| 0 <= k < |ranges| && ranges[k].start <= a <= ranges[k].end;
    assert ranges[..|ranges| - 1][k] == ranges[k];
  }

  /** Every differing, non-ignored address of a range is reported. */
  lemma {:induction false} CompareComplete(base: Memory, test: Memory, ranges: seq<MemRange>, ignore: set<int>, a: Address)
    requires Covered(ranges, a) && Differs(base, test, ignore, a)
    ensures ReportsL(CompareRanges(base, test, ranges, ignore), a)
  {
    var init, rg := ranges[..|ranges| - 1], ranges[|ranges| - 1];
    var head := CompareRanges(base, test, init, ignore);
    var tail := RangeChanges(base, test, rg, ignore);
    if rg.start <= a <= rg.end {
      assert ReportsL(tail, a) by {
        DiffReports(base, test, rg.start, rg.end + 1, ignore, a);
        TaggedReports(Diff(base, test, rg.start, rg.end + 1, ignore), rg.name, a);
      }
    } else {
      CoveredByInit(ranges, a);
      CompareComplete(base, test, init, ignore, a);
    }
    ReportsLAppend(head, tail, a);
  }

  /** A record is reported for `a` exactly when `a` lies in some range, is not
      ignored, and the two memories differ there. */
  lemma CompareReports(base: Memory, test: Memory, ranges: seq<MemRange>, ignore: set<int>, a: int)
    ensures ReportsL(CompareRanges(base, test, ranges, ignore), a) <==>
      Covered(ranges, a) && 0 <= a < AddressSpace && Differs(base, test, ignore, a)
  {
    var r := CompareRanges(base, test, ranges, ignore);
    if ReportsL(r, a) {
      CompareSound(base, test, ranges, ignore);
      var i :| 0 <= i < |r| && r[i].change.addr == a;
      var k :| 0 <= k < |ranges| && ranges[k].name == r[i].tag && ranges[k].start <= a <= ranges[k].end;
    }
    if Covered(ranges, a) && 0 <= a < AddressSpace && Differs(base, test, ignore, a) {
      CompareComplete(base, test, ranges, ignore, a);
    }
  }

  /** No ignored address is ever reported, whatever its values. */
  lemma IgnoredNeverReported(base: Memory, test: Memory, ranges: seq<MemRange>, ignore: set<int>, a: int)
    requires a in ignore
    ensures !ReportsL(CompareRanges(base, test, ranges, ignore), a)
  {
    CompareReports(base, test, ranges, ignore, a);
  }

  /** Over ordered ranges the records come out grouped by range in list order and
      ascending by address. */
  lemma {:induction false} CompareAscending(base: Memory, test: Memory, ranges: seq<MemRange>, ignore: set<int>)
    requires Ordered(ranges)
    ensures AscendingL(CompareRanges(base, test, ranges, ignore))
  {
    if ranges != [] {
      var init, rg := ranges[..|ranges| - 1], ranges[|ranges| - 1];
      var head := CompareRanges(base, test, init, ignore);
      var tail := RangeChanges(base, test, rg, ignore);
      var r := head + tail;
      CompareAscending(base, test, init, ignore);
      CompareSound(base, test, init, ignore);
      DiffSound(base, test, rg.start, rg.end + 1, ignore);
      forall i, j | 0 <= i < j < |r| ensures r[i].change.addr < r[j].change.addr {
        if j < |head| {
          assert r[i] == head[i] && r[j] == head[j];
        } else if i >= |head| {
          assert r[i] == tail[i - |head|] && r[j] == tail[j - |head|];
        } else {
          assert r[i] == head[i];
          var k :| 0 <= k < |init| && init[k].name == head[i].tag && init[k].start <= head[i].change.addr <= init[k].end;
          assert init[k] == ranges[k];
          assert r[j] == tail[j - |head|];
        }
      }
    }
  }

  /** The comparator's own ranges are ordered. */
  lemma MemoryRangesOrdered()
    ensures Ordered(MemoryRanges)
  {
  }

  /** Comparing a memory with itself reports nothing. */
  lemma {:induction false} CompareSelf(m: Memory, ranges: seq<MemRange>, ignore: set<int>)
    ensures CompareRanges(m, m, ranges, ignore) == []
  {
    if ranges != [] {
      var rg := ranges[|ranges| - 1];
      CompareSelf(m, ranges[..|ranges| - 1], ignore);
      DiffSelf(m, rg.start, rg.end + 1, ignore);
    }
  }

  /** A tagged record with before and after swapped, keeping its tag. */
  function SwapL(l: Labelled): Labelled {
    Labelled(Swap(l.change), l.tag)
  }

  function NegatedL(ls: seq<Labelled>): (r: seq<Labelled>)
    ensures |r| == |ls|
    ensures forall i :: 0 <= i < |ls| ==> r[i] == SwapL(ls[i])
  {
    if ls == [] then [] else NegatedL(ls[..|ls| - 1]) + [SwapL(ls[|ls| - 1])]
  }

  lemma TaggedNegated(cs: seq<Change>, tag: string)
    ensures Tagged(Negated(cs), tag) == NegatedL(Tagged(cs, tag))
  {
  }

  lemma NegatedLAppend(xs: seq<Labelled>, ys: seq<Labelled>)
    ensures NegatedL(xs + ys) == NegatedL(xs) + NegatedL(ys)
  {
  }

  /** Swapping base and test reports the same addresses under the same tags,
      in the same order, each with before and after swapped and diff negated. */
  lemma {:induction false} CompareAntisymmetric(base: Memory, test: Memory, ranges: seq<MemRange>, ignore: set<int>)
    ensures CompareRanges(test, base, ranges, ignore) == NegatedL(CompareRanges(base, test, ranges, ignore))
  {
    if ranges != [] {
      var init, rg := ranges[..|ranges| - 1], ranges[|ranges| - 1];
      CompareAntisymmetric(base, test, init, ignore);
      DiffAntisymmetric(base, test, rg.start, rg.end + 1, ignore);
      TaggedNegated(Diff(base, test, rg.start, rg.end + 1, ignore), rg.name);
      NegatedLAppend(CompareRanges(base, test, init, ignore), RangeChanges(base, test, rg, ignore));
    }
  }

  /** A small meaningful change: `1 <= |diff| <= 50`. */
  predicate IsSignificant(l: Labelled) {
    1 <= Abs(l.change.diff) <= 50
  }

  /** `[c for c in ls if 1 <= abs(c.diff) <= 50]`. */
  function Significant(ls: seq<Labelled>): (r: seq<Labelled>)
    ensures |r| <= |ls|
  {
    if ls == [] then []
    else Significant(ls[..|ls| - 1]) + (if IsSignificant(ls[|ls| - 1]) then [ls[|ls| - 1]] else [])
  }

  /** The filter keeps exactly the significant records. */
  lemma {:induction false} SignificantMembers(ls: seq<Labelled>, x: Labelled)
    ensures x in Significant(ls) <==> x in ls && IsSignificant(x)
  {
    if ls != [] {
      var init := ls[..|ls| - 1];
      SignificantMembers(init, x);
      assert ls == init + [ls[|ls| - 1]];
    }
  }

  /** The filter distributes over concatenation, so it keeps the records' order. */
  lemma {:induction false} SignificantAppend(xs: seq<Labelled>, ys: seq<Labelled>)
    ensures Significant(xs + ys) == Significant(xs) + Significant(ys)
    decreases |ys|
  {
    if ys == [] {
      assert xs + ys == xs;
    } else {
      var init := ys[..|ys| - 1];
      SignificantAppend(xs, init);
      assert (xs + ys)[..|xs + ys| - 1] == xs + init;
      assert (xs + ys)[|xs + ys| - 1] == ys[|ys| - 1];
    }
  }

  /** Filtering an ascending list keeps it ascending. */
  lemma {:induction false} SignificantAscending(ls: seq<Labelled>)
    requires AscendingL(ls)
    ensures AscendingL(Significant(ls))
  {
    if ls != [] {
      var init := ls[..|ls| - 1];
      SignificantAscending(init);
      forall x | x in Significant(init) ensures x.change.addr < ls[|ls| - 1].change.addr {
        SignificantMembers(init, x);
      }
    }
  }

  /** Records of the comparator all have a non-zero diff, so on them the filter
      keeps exactly the records whose diff is at most 50 in size. */
  lemma SignificantSmall(base: Memory, test: Memory, ranges: seq<MemRange>, ignore: set<int>, x: Labelled)
    ensures var all := CompareRanges(base, test, ranges, ignore);
      x in Significant(all) <==> x in all && -50 <= x.change.diff <= 50
  {
    SignificantMembers(CompareRanges(base, test, ranges, ignore), x);
    CompareSound(base, test, ranges, ignore);
  }

  /** The inner loop over one range: addresses ascending, ignored ones skipped,
      one tagged record per differing address. */
  method CompareRange(base: Memory, test: Memory, rg: MemRange, ignore: set<int>) returns (changes: seq<Labelled>)
    ensures changes == RangeChanges(base, test, rg, ignore)
  {
    changes := [];
    ghost var raw: seq<Change> := [];
    var addr := rg.start;
    while addr < rg.end + 1
      invariant addr == rg.start || rg.start <= addr <= rg.end + 1
      invariant raw == Diff(base, test, rg.start, addr, ignore)
      invariant changes == Tagged(raw, rg.name)
    {
      DiffStep(base, test, rg.start, addr, ignore);
      if addr in ignore {
        assert raw + [] == raw;
        addr := addr + 1;
        continue;
      }
      var baseVal: int, testVal: int := base(addr), test(addr);
      if baseVal != testVal {
        var c := Change(addr, baseVal, testVal, testVal - baseVal);
        TaggedAppend(raw, c, rg.name);
        raw := raw + [c];
        changes := changes + [Labelled(c, rg.name)];
      } else {
        assert raw + [] == raw;
      }
      addr := addr + 1;
    }
  }

  /** The per-range display of the first `k` ranges: each range's first ten
      records, and how many of its records those leave out. */
  predicate Displayed(base: Memory, test: Memory, ranges: seq<MemRange>, ignore: set<int>,
                      shown: seq<seq<Labelled>>, more: seq<nat>, k: int) {
    && 0 <= k <= |ranges| && |shown| == k && |more| == k
    && (forall j :: 0 <= j < k ==> shown[j] == Preview(RangeChanges(base, test, ranges[j], ignore), 10))
    && (forall j :: 0 <= j < k ==> more[j] == Overflow(RangeChanges(base, test, ranges[j], ignore), 10))
  }

  /** Displaying one more range extends the display by that range's lines. */
  lemma DisplayedStep(base: Memory, test: Memory, ranges: seq<MemRange>, ignore: set<int>,
                      shown: seq<seq<Labelled>>, more: seq<nat>, k: int)
    requires Displayed(base, test, ranges, ignore, shown, more, k) && k < |ranges|
    ensures var changes := RangeChanges(base, test, ranges[k], ignore);
      Displayed(base, test, ranges, ignore, shown + [Preview(changes, 10)], more + [Overflow(changes, 10)], k + 1)
  {
  }

  /** The outer loop over the ranges, in list order: each range's records are
      appended to the running list, its first ten are the ones shown, and the
      rest are counted in the "... and k more changes" line. */
  method CompareAll(base: Memory, test: Memory, ranges: seq<MemRange>, ignore: set<int>)
    returns (allChanges: seq<Labelled>, shown: seq<seq<Labelled>>, more: seq<nat>)
    ensures allChanges == CompareRanges(base, test, ranges, ignore)
    ensures |shown| == |ranges| && |more| == |ranges|
    ensures forall k :: 0 <= k < |shown| ==> shown[k] == Preview(RangeChanges(base, test, ranges[k], ignore), 10)
    ensures forall k :: 0 <= k < |more| ==> more[k] == Overflow(RangeChanges(base, test, ranges[k], ignore), 10)
  {
    allChanges, shown, more := [], [], [];
    var k := 0;
    while k < |ranges|
      invariant 0 <= k <= |ranges|
      invariant allChanges == CompareRanges(base, test, ranges[..k], ignore)
      invariant Displayed(base, test, ranges, ignore, shown, more, k)
    {
      var changes := CompareRange(base, test, ranges[k], ignore);
      DisplayedStep(base, test, ranges, ignore, shown, more, k);
      shown := shown + [Preview(changes, 10)];
      more := more + [Overflow(changes, 10)];
      allChanges := allChanges + changes;
      assert ranges[..k + 1][..k] == ranges[..k];
      k := k + 1;
    }
    assert ranges[..k] == ranges;
  }

  /** The script's comparison: the five ranges in order with the position
      addresses skipped, the first ten records shown per range with the count
      of the rest, and the first fifteen significant records shown as candidates. */
  method CompareSavestates(base: Memory, test: Memory)
    returns (allChanges: seq<Labelled>, shown: seq<seq<Labelled>>, more: seq<nat>, candidates: seq<Labelled>)
    ensures allChanges == CompareRanges(base, test, MemoryRanges, PositionAddresses)
    ensures forall i :: 0 <= i < |allChanges| ==> allChanges[i].change.addr !in PositionAddresses
    ensures AscendingL(allChanges)
    ensures |shown| == |MemoryRanges|
    ensures forall k :: 0 <= k < |shown| ==>
      shown[k] == Preview(RangeChanges(base, test, MemoryRanges[k], PositionAddresses), 10)
    ensures |more| == |MemoryRanges|
    ensures forall k :: 0 <= k < |more| ==>
      more[k] == Overflow(RangeChanges(base, test, MemoryRanges[k], PositionAddresses), 10)
    ensures candidates == Preview(Significant(allChanges), 15)
  {
    allChanges, shown, more := CompareAll(base, test, MemoryRanges, PositionAddresses);
    CompareSound(base, test, MemoryRanges, PositionAddresses);
    MemoryRangesOrdered();
    CompareAscending(base, test, MemoryRanges, PositionAddresses);
    candidates := Preview(Significant(allChanges), 15);
  }
}

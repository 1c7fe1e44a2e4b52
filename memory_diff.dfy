/** Snapshot-and-diff over emulator memory: the data model and the diff
    specification shared by the item-flag monitor, the save-state comparator,
    the range scanner and the action tester. */
module MemoryDiff {

  /** One byte of the emulator's memory view, unsigned. */
  type Byte = b: int | 0 <= b < 256

  /** Size of the Game Boy's 16-bit address space. */
  const AddressSpace: int := 0x10000

  type Address = a: int | 0 <= a < 0x10000

  /** The emulator's memory view at one instant: every address reads as a byte. */
  type Memory = Address -> Byte

  /** A named inclusive address range `[start, end]`, as the scanning scripts list them. */
  datatype MemRange = MemRange(start: Address, end: Address, name: string)

  /** One change record `{addr, before, after, diff}`. */
  datatype Change = Change(addr: Address, before: Byte, after: Byte, diff: int)

  /** A change record tagged with its range name or with the action that caused it. */
  datatype Labelled = Labelled(change: Change, tag: string)

  function Abs(x: int): nat {
    if x < 0 then -x else x
  }

  /** Whether a diff that skips `ignore` records address `a`. */
  predicate Differs(before: Memory, after: Memory, ignore: set<int>, a: Address) {
    a !in ignore && before(a) != after(a)
  }

  /** The record the scripts build for address `a`; the difference is taken on
      unbounded integers, so it is signed and never wraps. */
  function ChangeAt(before: Memory, after: Memory, a: Address): Change {
    Change(a, before(a), after(a), after(a) - before(a))
  }

  /** The same record seen from the other side: before and after swapped. */
  function Swap(c: Change): Change {
    Change(c.addr, c.after, c.before, -c.diff)
  }

  predicate Ascending(cs: seq<Change>) {
    forall i, j :: 0 <= i < j < |cs| ==> cs[i].addr < cs[j].addr
  }

  predicate AscendingL(ls: seq<Labelled>) {
    forall i, j :: 0 <= i < j < |ls| ==> ls[i].change.addr < ls[j].change.addr
  }

  /** Whether some record of `cs` is about address `a`. */
  predicate Reports(cs: seq<Change>, a: int) {
    exists i :: 0 <= i < |cs| && cs[i].addr == a
  }

  predicate ReportsL(ls: seq<Labelled>, a: int) {
    exists i :: 0 <= i < |ls| && ls[i].change.addr == a
  }

  /** A record list reports `a` iff its prefix does or its last record is about `a`. */
  lemma ReportsLSnoc(ls: seq<Labelled>, l: Labelled, a: int)
    ensures ReportsL(ls + [l], a) <==> ReportsL(ls, a) || l.change.addr == a
  {
    if ReportsL(ls + [l], a) {
      var i :| 0 <= i < |ls + [l]| && (ls + [l])[i].change.addr == a;
      if i < |ls| {
        assert ls[i] == (ls + [l])[i];
      }
    }
    if ReportsL(ls, a) {
      var i :| 0 <= i < |ls| && ls[i].change.addr == a;
      assert (ls + [l])[i] == ls[i];
    }
    if l.change.addr == a {
      assert (ls + [l])[|ls|] == l;
    }
  }

  /** A record of either part is a record of their concatenation. */
  lemma ReportsLAppend(xs: seq<Labelled>, ys: seq<Labelled>, a: int)
    requires ReportsL(xs, a) || ReportsL(ys, a)
    ensures ReportsL(xs + ys, a)
  {
    if ReportsL(xs, a) {
      var i :| 0 <= i < |xs| && xs[i].change.addr == a;
      assert (xs + ys)[i] == xs[i];
    } else {
      var i :| 0 <= i < |ys| && ys[i].change.addr == a;
      assert (xs + ys)[|xs| + i] == ys[i];
    }
  }

  /** The change records for the addresses `lo .. hi - 1` (Python's
      `range(lo, hi)`), skipping `ignore`, one per address whose value differs,
      in the order the loop visits them. */
  function Diff(before: Memory, after: Memory, lo: int, hi: int, ignore: set<int>): seq<Change>
    requires 0 <= lo && hi <= AddressSpace
    decreases hi - lo
  {
    if hi <= lo then []
    else
      Diff(before, after, lo, hi - 1, ignore)
      + (if Differs(before, after, ignore, hi - 1) then [ChangeAt(before, after, hi - 1)] else [])
  }

  /** Every record is about an address of the range that is not ignored and
      whose values differ, carries those values, and the records ascend by
      address, so there is at most one per address of the range. */
  lemma {:induction false} DiffSound(before: Memory, after: Memory, lo: int, hi: int, ignore: set<int>)
    requires 0 <= lo && hi <= AddressSpace
    ensures |Diff(before, after, lo, hi, ignore)| <= if lo <= hi then hi - lo else 0
    ensures forall i :: 0 <= i < |Diff(before, after, lo, hi, ignore)| ==>
      && lo <= Diff(before, after, lo, hi, ignore)[i].addr < hi
      && Differs(before, after, ignore, Diff(before, after, lo, hi, ignore)[i].addr)
      && Diff(before, after, lo, hi, ignore)[i] == ChangeAt(before, after, Diff(before, after, lo, hi, ignore)[i].addr)
    ensures Ascending(Diff(before, after, lo, hi, ignore))
    decreases hi - lo
  {
    if lo < hi {
      DiffSound(before, after, lo, hi - 1, ignore);
    }
  }

  /** Every record has a non-zero signed difference within -255..255. */
  lemma {:induction false} DiffBounds(before: Memory, after: Memory, lo: int, hi: int, ignore: set<int>, i: int)
    requires 0 <= lo && hi <= AddressSpace
    requires 0 <= i < |Diff(before, after, lo, hi, ignore)|
    ensures var c := Diff(before, after, lo, hi, ignore)[i];
      c.diff != 0 && -255 <= c.diff <= 255 && c.diff == c.after - c.before
  {
    DiffSound(before, after, lo, hi, ignore);
  }

  /** A diff reports address `a` exactly when `a` lies in the range, is not
      ignored, and its two values differ. */
  lemma {:induction false} DiffReports(before: Memory, after: Memory, lo: int, hi: int, ignore: set<int>, a: int)
    requires 0 <= lo && hi <= AddressSpace
    ensures Reports(Diff(before, after, lo, hi, ignore), a) <==>
      lo <= a < hi && Differs(before, after, ignore, a)
    decreases hi - lo
  {
    var r := Diff(before, after, lo, hi, ignore);
    if Reports(r, a) {
      DiffSound(before, after, lo, hi, ignore);
      var i :| 0 <= i < |r| && r[i].addr == a;
    }
    if lo <= a < hi && Differs(before, after, ignore, a) {
      var d := Diff(before, after, lo, hi - 1, ignore);
      if a == hi - 1 {
        assert r[|d|].addr == a;
      } else {
        DiffReports(before, after, lo, hi - 1, ignore, a);
        var i :| 0 <= i < |d| && d[i].addr == a;
        assert r[i] == d[i];
      }
    }
  }

  /** Diffing a memory against itself yields nothing. */
  lemma {:induction false} DiffSelf(m: Memory, lo: int, hi: int, ignore: set<int>)
    requires 0 <= lo && hi <= AddressSpace
    ensures Diff(m, m, lo, hi, ignore) == []
    decreases hi - lo
  {
    if lo < hi {
      DiffSelf(m, lo, hi - 1, ignore);
    }
  }

  /** Every record with before and after swapped, in the same order. */
  function Negated(cs: seq<Change>): (r: seq<Change>)
    ensures |r| == |cs|
    ensures forall i :: 0 <= i < |cs| ==> r[i] == Swap(cs[i])
  {
    if cs == [] then [] else Negated(cs[..|cs| - 1]) + [Swap(cs[|cs| - 1])]
  }

  /** Swapping the two memories reports the same addresses in the same order,
      each difference negated. */
  lemma {:induction false} DiffAntisymmetric(before: Memory, after: Memory, lo: int, hi: int, ignore: set<int>)
    requires 0 <= lo && hi <= AddressSpace
    ensures Diff(after, before, lo, hi, ignore) == Negated(Diff(before, after, lo, hi, ignore))
    decreases hi - lo
  {
    if lo < hi {
      DiffAntisymmetric(before, after, lo, hi - 1, ignore);
      var d := Diff(before, after, lo, hi - 1, ignore);
      if Differs(before, after, ignore, hi - 1) {
        var c := ChangeAt(before, after, hi - 1);
        assert Swap(c) == ChangeAt(after, before, hi - 1);
        assert (d + [c])[..|d|] == d;
      } else {
        assert d + [] == d;
      }
    }
  }

  /** Attach the range or action tag to every record, as the scripts do when
      they build the record dictionaries. */
  function Tagged(cs: seq<Change>, tag: string): (r: seq<Labelled>)
    ensures |r| == |cs|
    ensures forall i :: 0 <= i < |cs| ==> r[i] == Labelled(cs[i], tag)
  {
    if cs == [] then [] else Tagged(cs[..|cs| - 1], tag) + [Labelled(cs[|cs| - 1], tag)]
  }

  /** One more address: the diff up to `hi + 1` extends the diff up to `hi` by
      the record for `hi`, if any. */
  lemma DiffStep(before: Memory, after: Memory, lo: int, hi: int, ignore: set<int>)
    requires 0 <= lo <= hi < AddressSpace
    ensures Diff(before, after, lo, hi + 1, ignore) == Diff(before, after, lo, hi, ignore)
      + (if Differs(before, after, ignore, hi) then [ChangeAt(before, after, hi)] else [])
  {
  }

  /** Appending one record to the untagged list appends its tagged form. */
  lemma TaggedAppend(cs: seq<Change>, c: Change, tag: string)
    ensures Tagged(cs + [c], tag) == Tagged(cs, tag) + [Labelled(c, tag)]
  {
  }

  /** The snapshot a read loop builds: exactly the addresses `lo .. hi - 1`. */
  function Snapshot(mem: Memory, lo: int, hi: int): map<int, Byte>
    requires 0 <= lo && hi <= AddressSpace
  {
    map a | lo <= a < hi :: mem(a)
  }

  /** The read loop: `for addr in range(lo, hi): snap[addr] = memory[addr]`. */
  method Capture(mem: Memory, lo: int, hi: int) returns (snap: map<int, Byte>)
    requires 0 <= lo <= AddressSpace && hi <= AddressSpace
    ensures forall a :: a in snap <==> lo <= a < hi
    ensures forall a :: a in snap ==> snap[a] == mem(a)
  {
    snap := map[];
    var addr := lo;
    while addr < hi
      invariant addr == lo || lo <= addr <= hi
      invariant forall a :: a in snap <==> lo <= a < addr
      invariant forall a :: a in snap ==> snap[a] == mem(a)
    {
      snap := snap[addr := mem(addr)];
      addr := addr + 1;
    }
  }

  /** The diff loop against a snapshot taken earlier: one record per address of
      the range whose snapshot value differs from the current memory. */
  method DiffAgainst(snap: map<int, Byte>, ghost before: Memory, after: Memory, lo: int, hi: int)
    returns (changes: seq<Change>)
    requires 0 <= lo <= AddressSpace && hi <= AddressSpace
    requires forall a :: lo <= a < hi ==> a in snap && snap[a] == before(a)
    ensures changes == Diff(before, after, lo, hi, {})
  {
    changes := [];
    var addr := lo;
    while addr < hi
      invariant addr == lo || lo <= addr <= hi
      invariant changes == Diff(before, after, lo, addr, {})
    {
      var beforeVal: int, afterVal: int := snap[addr], after(addr);
      if beforeVal != afterVal {
        changes := changes + [Change(addr, beforeVal, afterVal, afterVal - beforeVal)];
      }
      assert Diff(before, after, lo, addr + 1, {}) == Diff(before, after, lo, addr, {})
        + (if Differs(before, after, {}, addr) then [ChangeAt(before, after, addr)] else []);
      addr := addr + 1;
    }
  }

  /** The first `n` items, as `s[:n]` shows them. */
  function Preview<T>(s: seq<T>, n: nat): (r: seq<T>)
    ensures r <= s && |r| <= n
    ensures |r| < n ==> r == s
  {
    if |s| <= n then s else s[..n]
  }

  /** How many items the `s[:n]` display leaves out ("... and k more"). */
  function Overflow<T>(s: seq<T>, n: nat): (k: nat)
    ensures |Preview(s, n)| + k == |s|
    ensures k > 0 <==> |s| > n
  {
    if |s| > n then |s| - n else 0
  }
}

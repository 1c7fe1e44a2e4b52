/** The action tester and frequency analyser: a baseline of the low 0x300
    addresses, one before/after diff per tested action, and an analysis that
    counts in how many actions each address changed and ranks the addresses
    by that count. */
module Discovery {
  import opened MemoryDiff

  /** Every snapshot covers the addresses `0x0000 .. ScanEnd - 1`. */
  const ScanEnd: int := 0x300

  /** One tested action: its key in the results table and the changes it caused. */
  datatype ActionResult = ActionResult(action: string, changes: seq<Labelled>)

  /** The records a test of `action` keeps: one per address below `ScanEnd`
      whose value differs, tagged with the action's name. */
  function ActionChanges(pre: Memory, post: Memory, action: string): seq<Labelled> {
    Tagged(Diff(pre, post, 0, ScanEnd, {}), action)
  }

  /** The test's "meaningful" criterion, `abs(diff) > 0`. */
  predicate IsMeaningful(l: Labelled) {
    Abs(l.change.diff) > 0
  }

  /** `[c for c in changes if abs(c.diff) > 0]`. */
  function Meaningful(ls: seq<Labelled>): seq<Labelled> {
    if ls == [] then []
    else Meaningful(ls[..|ls| - 1]) + (if IsMeaningful(ls[|ls| - 1]) then [ls[|ls| - 1]] else [])
  }

  /** On records whose diffs are all non-zero the filter drops nothing. */
  lemma {:induction false} MeaningfulKeepsAll(ls: seq<Labelled>)
    requires forall i :: 0 <= i < |ls| ==> ls[i].change.diff != 0
    ensures Meaningful(ls) == ls
  {
    if ls != [] {
      MeaningfulKeepsAll(ls[..|ls| - 1]);
      assert ls[..|ls| - 1] + [ls[|ls| - 1]] == ls;
    }
  }

  /** A test's records always have non-zero diffs, so its filter is the identity. */
  lemma MeaningfulIdentity(pre: Memory, post: Memory, action: string)
    ensures Meaningful(ActionChanges(pre, post, action)) == ActionChanges(pre, post, action)
  {
    DiffSound(pre, post, 0, ScanEnd, {});
    MeaningfulKeepsAll(ActionChanges(pre, post, action));
  }

  /** Every record of a test is about an address below `ScanEnd` whose value
      the action changed, carries the two values and their signed difference,
      and is tagged with the action's name. */
  lemma ActionChangesRecords(pre: Memory, post: Memory, action: string, i: int)
    requires 0 <= i < |ActionChanges(pre, post, action)|
    ensures var l := ActionChanges(pre, post, action)[i];
      && 0 <= l.change.addr < ScanEnd
      && pre(l.change.addr) != post(l.change.addr)
      && l == Labelled(ChangeAt(pre, post, l.change.addr), action)
  {
    DiffSound(pre, post, 0, ScanEnd, {});
  }

  /** Every address below `ScanEnd` whose value the action changed has a record. */
  lemma ActionChangesComplete(pre: Memory, post: Memory, action: string, a: Address)
    requires a < ScanEnd && pre(a) != post(a)
    ensures ReportsL(ActionChanges(pre, post, action), a)
  {
    var d := Diff(pre, post, 0, ScanEnd, {});
    DiffReports(pre, post, 0, ScanEnd, {}, a);
    var i :| 0 <= i < |d| && d[i].addr == a;
    assert ActionChanges(pre, post, action)[i].change == d[i];
  }

  /** A test's records ascend by address, so each address appears at most once. */
  lemma ActionChangesAscending(pre: Memory, post: Memory, action: string)
    ensures AscendingL(ActionChanges(pre, post, action))
  {
    DiffSound(pre, post, 0, ScanEnd, {});
  }

  /** How many records of `ls` are about address `a`. */
  function CountIn(ls: seq<Labelled>, a: int): nat {
    if ls == [] then 0
    else CountIn(ls[..|ls| - 1], a) + (if ls[|ls| - 1].change.addr == a then 1 else 0)
  }

  /** The records of `ls` about address `a`, in order. */
  function DetailsOf(ls: seq<Labelled>, a: int): (r: seq<Labelled>)
    ensures |r| == CountIn(ls, a)
    ensures forall i :: 0 <= i < |r| ==> r[i].change.addr == a
  {
    if ls == [] then []
    else DetailsOf(ls[..|ls| - 1], a) + (if ls[|ls| - 1].change.addr == a then [ls[|ls| - 1]] else [])
  }

  /** The addresses of `ls` in order of first appearance. */
  function FirstSeen(ls: seq<Labelled>): seq<int> {
    if ls == [] then []
    else
      var order := FirstSeen(ls[..|ls| - 1]);
      if ls[|ls| - 1].change.addr in order then order else order + [ls[|ls| - 1].change.addr]
  }

  predicate NoDuplicates(s: seq<int>) {
    forall i, j :: 0 <= i < j < |s| ==> s[i] != s[j]
  }

  /** First appearance lists every reported address exactly once. */
  lemma {:induction false} FirstSeenExact(ls: seq<Labelled>)
    ensures NoDuplicates(FirstSeen(ls))
    ensures forall a :: a in FirstSeen(ls) <==> ReportsL(ls, a)
  {
    if ls != [] {
      var init, l := ls[..|ls| - 1], ls[|ls| - 1];
      FirstSeenExact(init);
      assert init + [l] == ls;
      forall a ensures ReportsL(ls, a) <==> ReportsL(init, a) || l.change.addr == a {
        ReportsLSnoc(init, l, a);
      }
    }
  }

  /** The analysis tables: the frequency dictionary's key order, the
      frequency dictionary, and the details dictionary. */
  datatype Tally = Tally(order: seq<int>, frequency: map<int, nat>, details: map<int, seq<Labelled>>)

  /** One pass of the counting loop's body over record `c`. */
  function Count(t: Tally, c: Labelled): Tally {
    var a := c.change.addr;
    Tally(
      if a in t.frequency then t.order else t.order + [a],
      t.frequency[a := (if a in t.frequency then t.frequency[a] else 0) + 1],
      t.details[a := (if a in t.details then t.details[a] else []) + [c]])
  }

  /** The tables after counting the records `ls` in order. */
  function TallyOf(ls: seq<Labelled>): Tally {
    if ls == [] then Tally([], map[], map[]) else Count(TallyOf(ls[..|ls| - 1]), ls[|ls| - 1])
  }

  /** Counting records one by one keeps first-appearance order, and leaves each
      reported address with its number of records and the records themselves. */
  lemma {:induction false} TallyMeaning(ls: seq<Labelled>)
    ensures TallyOf(ls).order == FirstSeen(ls)
    ensures forall a :: a in TallyOf(ls).frequency <==> ReportsL(ls, a)
    ensures forall a :: a in TallyOf(ls).details <==> ReportsL(ls, a)
    ensures forall a :: a in TallyOf(ls).frequency ==> TallyOf(ls).frequency[a] == CountIn(ls, a)
    ensures forall a :: a in TallyOf(ls).details ==> TallyOf(ls).details[a] == DetailsOf(ls, a)
  {
    if ls != [] {
      var init, l := ls[..|ls| - 1], ls[|ls| - 1];
      TallyMeaning(init);
      FirstSeenExact(init);
      assert init + [l] == ls;
      forall a ensures ReportsL(ls, a) <==> ReportsL(init, a) || l.change.addr == a {
        ReportsLSnoc(init, l, a);
      }
      forall a | !ReportsL(init, a) ensures CountIn(init, a) == 0 && DetailsOf(init, a) == [] {
        NotReportedCountsZero(init, a);
      }
    }
  }

  lemma {:induction false} NotReportedCountsZero(ls: seq<Labelled>, a: int)
    requires !ReportsL(ls, a)
    ensures CountIn(ls, a) == 0
  {
    if ls != [] {
      var init := ls[..|ls| - 1];
      NotReportedCountsZero(init, a);
      assert ls[|ls| - 1].change.addr != a;
    }
  }

  lemma TallyStep(ls: seq<Labelled>, c: Labelled)
    ensures TallyOf(ls + [c]) == Count(TallyOf(ls), c)
  {
    assert (ls + [c])[..|ls|] == ls;
  }

  /** `results.items()` flattened: every action's records, actions in order. */
  function AllChanges(results: seq<ActionResult>): seq<Labelled> {
    if results == [] then [] else AllChanges(results[..|results| - 1]) + results[|results| - 1].changes
  }

  lemma AllChangesStep(results: seq<ActionResult>, k: int)
    requires 0 <= k < |results|
    ensures AllChanges(results[..k + 1]) == AllChanges(results[..k]) + results[k].changes
  {
    assert results[..k + 1][..k] == results[..k];
  }

  /** In how many actions `a` changed. */
  function ActionsContaining(results: seq<ActionResult>, a: int): (n: nat)
    ensures n <= |results|
  {
    if results == [] then 0
    else ActionsContaining(results[..|results| - 1], a) + (if ReportsL(results[|results| - 1].changes, a) then 1 else 0)
  }

  lemma {:induction false} CountInAppend(xs: seq<Labelled>, ys: seq<Labelled>, a: int)
    ensures CountIn(xs + ys, a) == CountIn(xs, a) + CountIn(ys, a)
    decreases |ys|
  {
    if ys == [] {
      assert xs + ys == xs;
    } else {
      CountInAppend(xs, ys[..|ys| - 1], a);
      assert (xs + ys)[..|xs + ys| - 1] == xs + ys[..|ys| - 1];
      assert (xs + ys)[|xs + ys| - 1] == ys[|ys| - 1];
    }
  }

  /** In a list ascending by address, an address has at most one record. */
  lemma {:induction false} CountInAscending(ls: seq<Labelled>, a: int)
    requires AscendingL(ls)
    ensures CountIn(ls, a) == if ReportsL(ls, a) then 1 else 0
  {
    if ls != [] {
      var init, l := ls[..|ls| - 1], ls[|ls| - 1];
      CountInAscending(init, a);
      assert init + [l] == ls;
      ReportsLSnoc(init, l, a);
      if ReportsL(init, a) {
        var i :| 0 <= i < |init| && init[i].change.addr == a;
        assert ls[i] == init[i];
      }
    }
  }

  /** Each action's records ascending, an address's frequency is the number of
      actions in which it changed, hence at most the number of actions. */
  lemma {:induction false} FrequencyCountsActions(results: seq<ActionResult>, a: int)
    requires forall k :: 0 <= k < |results| ==> AscendingL(results[k].changes)
    ensures CountIn(AllChanges(results), a) == ActionsContaining(results, a) <= |results|
  {
    if results != [] {
      var init, last := results[..|results| - 1], results[|results| - 1];
      assert forall k :: 0 <= k < |init| ==> init[k] == results[k];
      FrequencyCountsActions(init, a);
      assert AllChanges(results) == AllChanges(init) + last.changes;
      CountInAppend(AllChanges(init), last.changes, a);
      CountInAscending(last.changes, a);
    }
  }

  /** What the analysis establishes for one address, for actions whose records
      ascend by address as every test's do: the address has a frequency iff it
      changed in some action; its frequency is the number of such actions; its
      details are its records, as many as its frequency. */
  lemma AnalysisMeaning(results: seq<ActionResult>, a: int)
    requires forall k :: 0 <= k < |results| ==> AscendingL(results[k].changes)
    ensures var t := TallyOf(AllChanges(results));
      && (a in t.frequency <==> ActionsContaining(results, a) > 0)
      && (a in t.details <==> a in t.frequency)
      && (a in t.frequency ==>
        && t.frequency[a] == ActionsContaining(results, a) <= |results|
        && |t.details[a]| == t.frequency[a]
        && forall i :: 0 <= i < |t.details[a]| ==> t.details[a][i].change.addr == a)
  {
    var all := AllChanges(results);
    TallyMeaning(all);
    FrequencyCountsActions(results, a);
    if !ReportsL(all, a) {
      NotReportedCountsZero(all, a);
    } else {
      var i :| 0 <= i < |all| && all[i].change.addr == a;
      CountPositive(all, a, i);
    }
  }

  lemma {:induction false} CountPositive(ls: seq<Labelled>, a: int, i: int)
    requires 0 <= i < |ls| && ls[i].change.addr == a
    ensures CountIn(ls, a) > 0
  {
    if i < |ls| - 1 {
      CountPositive(ls[..|ls| - 1], a, i);
    }
  }

  /** The frequency dictionary's items, in its key order. */
  function Items(order: seq<int>, frequency: map<int, nat>): (r: seq<(int, nat)>)
    requires forall i :: 0 <= i < |order| ==> order[i] in frequency
    ensures |r| == |order|
    ensures forall i :: 0 <= i < |order| ==> r[i] == (order[i], frequency[order[i]])
  {
    if order == [] then [] else Items(order[..|order| - 1], frequency) + [(order[|order| - 1], frequency[order[|order| - 1]])]
  }

  predicate NonIncreasing(s: seq<(int, nat)>) {
    forall i, j :: 0 <= i < j < |s| ==> s[i].1 >= s[j].1
  }

  /** Place `x` after every item whose count is at least its own. */
  function Insert(s: seq<(int, nat)>, x: (int, nat)): seq<(int, nat)> {
    if s == [] then [x]
    else if s[0].1 < x.1 then [x] + s
    else [s[0]] + Insert(s[1..], x)
  }

  /** `sorted(items, key=count, reverse=True)`: a stable sort by descending count. */
  function Rank(items: seq<(int, nat)>): seq<(int, nat)> {
    if items == [] then [] else Insert(Rank(items[..|items| - 1]), items[|items| - 1])
  }

  /** The items with count `f`, in order. */
  function WithCount(s: seq<(int, nat)>, f: nat): seq<(int, nat)> {
    if s == [] then [] else (if s[0].1 == f then [s[0]] else []) + WithCount(s[1..], f)
  }

  lemma {:induction false} InsertPerm(s: seq<(int, nat)>, x: (int, nat))
    ensures multiset(Insert(s, x)) == multiset(s) + multiset{x}
  {
    if s != [] && s[0].1 >= x.1 {
      InsertPerm(s[1..], x);
      assert s == [s[0]] + s[1..];
    }
  }

  lemma {:induction false} InsertSorted(s: seq<(int, nat)>, x: (int, nat))
    requires NonIncreasing(s)
    ensures NonIncreasing(Insert(s, x))
  {
    if s != [] && s[0].1 >= x.1 {
      InsertSorted(s[1..], x);
      InsertPerm(s[1..], x);
      var r := Insert(s, x);
      forall i, j | 0 <= i < j < |r| ensures r[i].1 >= r[j].1 {
        if i == 0 {
          assert r[j] in multiset(Insert(s[1..], x));
        }
      }
    }
  }

  lemma {:induction false} WithCountAppend(xs: seq<(int, nat)>, ys: seq<(int, nat)>, f: nat)
    ensures WithCount(xs + ys, f) == WithCount(xs, f) + WithCount(ys, f)
  {
    if xs != [] {
      WithCountAppend(xs[1..], ys, f);
      assert (xs + ys)[1..] == xs[1..] + ys;
    } else {
      assert xs + ys == ys;
    }
  }

  lemma {:induction false} WithCountNone(s: seq<(int, nat)>, f: nat)
    requires forall i :: 0 <= i < |s| ==> s[i].1 < f
    ensures WithCount(s, f) == []
  {
    if s != [] {
      WithCountNone(s[1..], f);
    }
  }

  /** Selecting by count from a list with one more item in front. */
  lemma WithCountCons(y: (int, nat), s: seq<(int, nat)>, f: nat)
    ensures WithCount([y] + s, f) == (if y.1 == f then [y] else []) + WithCount(s, f)
    ensures WithCount([y], f) == if y.1 == f then [y] else []
  {
    assert ([y] + s)[1..] == s;
    assert [y][1..] == [];
  }

  /** Inserting `x` into a sorted list puts it after every earlier item with
      the same count. */
  lemma {:induction false} InsertStable(s: seq<(int, nat)>, x: (int, nat), f: nat)
    requires NonIncreasing(s)
    ensures WithCount(Insert(s, x), f) == WithCount(s, f) + WithCount([x], f)
  {
    WithCountCons(x, s, f);
    if s == [] {
      assert WithCount(s, f) == [];
    } else if s[0].1 < x.1 {
      assert Insert(s, x) == [x] + s;
      if f == x.1 {
        assert forall i :: 0 <= i < |s| ==> s[i].1 <= s[0].1;
        WithCountNone(s, f);
      }
    } else {
      var rest := s[1..];
      assert NonIncreasing(rest) by {
        forall i, j | 0 <= i < j < |rest| ensures rest[i].1 >= rest[j].1 {
          assert rest[i] == s[i + 1] && rest[j] == s[j + 1];
        }
      }
      var h := if s[0].1 == f then [s[0]] else [];
      calc {
        WithCount(Insert(s, x), f);
        { assert Insert(s, x) == [s[0]] + Insert(rest, x);
          WithCountCons(s[0], Insert(rest, x), f); }
        h + WithCount(Insert(rest, x), f);
        { InsertStable(rest, x, f); }
        h + (WithCount(rest, f) + WithCount([x], f));
        (h + WithCount(rest, f)) + WithCount([x], f);
        { assert s == [s[0]] + rest;
          WithCountCons(s[0], rest, f); }
        WithCount(s, f) + WithCount([x], f);
      }
    }
  }

  /** The ranking is a rearrangement of the items. */
  lemma {:induction false} RankPerm(items: seq<(int, nat)>)
    ensures multiset(Rank(items)) == multiset(items)
  {
    if items != [] {
      var init := items[..|items| - 1];
      RankPerm(init);
      InsertPerm(Rank(init), items[|items| - 1]);
      assert init + [items[|items| - 1]] == items;
    }
  }

  /** The ranking lists counts from highest to lowest. */
  lemma {:induction false} RankSorted(items: seq<(int, nat)>)
    ensures NonIncreasing(Rank(items))
  {
    if items != [] {
      RankSorted(items[..|items| - 1]);
      InsertSorted(Rank(items[..|items| - 1]), items[|items| - 1]);
    }
  }

  /** The ranking keeps items with equal counts in their original order. */
  lemma {:induction false} RankStable(items: seq<(int, nat)>, f: nat)
    ensures WithCount(Rank(items), f) == WithCount(items, f)
  {
    if items != [] {
      var init, x := items[..|items| - 1], items[|items| - 1];
      RankStable(init, f);
      RankSorted(init);
      InsertStable(Rank(init), x, f);
      WithCountAppend(init, [x], f);
      assert init + [x] == items;
    }
  }

  /** Every ranked item is one of the items. */
  lemma RankMember(items: seq<(int, nat)>, x: (int, nat))
    requires x in Rank(items)
    ensures x in items
  {
    RankPerm(items);
    assert x in multiset(Rank(items));
  }

  /** Every ranked item's address has details to show. */
  lemma RankedKnown(ls: seq<Labelled>, x: (int, nat))
    requires forall i :: 0 <= i < |TallyOf(ls).order| ==> TallyOf(ls).order[i] in TallyOf(ls).frequency
    requires x in Rank(Items(TallyOf(ls).order, TallyOf(ls).frequency))
    ensures x.0 in TallyOf(ls).details
  {
    var t := TallyOf(ls);
    var items := Items(t.order, t.frequency);
    RankMember(items, x);
    var i :| 0 <= i < |items| && items[i] == x;
    assert t.order[i] == x.0;
    TallyMeaning(ls);
    FirstSeenExact(ls);
    assert x.0 in FirstSeen(ls);
  }

  /** Every address in the key order has a frequency. */
  lemma OrderKnown(ls: seq<Labelled>)
    ensures forall i :: 0 <= i < |TallyOf(ls).order| ==> TallyOf(ls).order[i] in TallyOf(ls).frequency
  {
    TallyMeaning(ls);
    FirstSeenExact(ls);
  }

  /** One more record of `s` seen after the records `done`. */
  lemma SeenStep(done: seq<Labelled>, s: seq<Labelled>, j: int)
    requires 0 <= j < |s|
    ensures done + s[..j + 1] == (done + s[..j]) + [s[j]]
  {
    assert s[..j + 1] == s[..j] + [s[j]];
  }

  class EfficientRamDiscovery {
    /** The last baseline snapshot of the low addresses. */
    var baseline: map<int, Byte>

    constructor()
      ensures baseline == map[]
    {
      baseline := map[];
    }

    /** Replace the baseline with a fresh snapshot of `0x0000 .. 0x02FF`. */
    method TakeBaseline(mem: Memory)
      modifies this
      ensures forall a :: a in baseline <==> 0 <= a < ScanEnd
      ensures forall a :: a in baseline ==> baseline[a] == mem(a)
    {
      baseline := map[];
      var addr := 0;
      while addr < ScanEnd
        invariant 0 <= addr <= ScanEnd
        invariant forall a :: a in baseline <==> 0 <= a < addr
        invariant forall a :: a in baseline ==> baseline[a] == mem(a)
      {
        baseline := baseline[addr := mem(addr)];
        addr := addr + 1;
      }
    }

    /** The post-action loop: one record per address whose snapshot value
        differs from the current memory, tagged with the action's name. */
    method DiffAfterAction(preSnapshot: map<int, Byte>, ghost pre: Memory, post: Memory, actionName: string)
      returns (changes: seq<Labelled>)
      requires forall a :: 0 <= a < ScanEnd ==> a in preSnapshot && preSnapshot[a] == pre(a)
      ensures changes == ActionChanges(pre, post, actionName)
    {
      changes := [];
      ghost var raw: seq<Change> := [];
      var addr := 0;
      while addr < ScanEnd
        invariant 0 <= addr <= ScanEnd
        invariant raw == Diff(pre, post, 0, addr, {})
        invariant changes == Tagged(raw, actionName)
      {
        DiffStep(pre, post, 0, addr, {});
        var postValue: int := post(addr);
        var preValue: int := preSnapshot[addr];
        if preValue != postValue {
          var c := Change(addr, preValue, postValue, postValue - preValue);
          TaggedAppend(raw, c, actionName);
          raw := raw + [c];
          changes := changes + [Labelled(c, actionName)];
        } else {
          assert raw + [] == raw;
        }
        addr := addr + 1;
      }
    }

    /** One action test: the snapshot before the action, the diff after it,
        the meaningful filter, and the first ten records shown. */
    method TestAction(actionName: string, pre: Memory, post: Memory)
      returns (meaningfulChanges: seq<Labelled>, shown: seq<Labelled>)
      ensures meaningfulChanges == ActionChanges(pre, post, actionName)
      ensures AscendingL(meaningfulChanges)
      ensures shown == Preview(meaningfulChanges, 10)
    {
      var preSnapshot := Capture(pre, 0, ScanEnd);
      var changes := DiffAfterAction(preSnapshot, pre, post, actionName);
      meaningfulChanges := Meaningful(changes);
      MeaningfulIdentity(pre, post, actionName);
      ActionChangesAscending(pre, post, actionName);
      shown := Preview(meaningfulChanges, 10);
    }

    /** The inner counting loop: one action's records counted, in order, into
        tables that already hold the counts of the records `done`. */
    method CountAction(changes: seq<Labelled>, ghost done: seq<Labelled>,
                       order0: seq<int>, frequency0: map<int, nat>, details0: map<int, seq<Labelled>>)
      returns (order: seq<int>, frequency: map<int, nat>, details: map<int, seq<Labelled>>)
      requires Tally(order0, frequency0, details0) == TallyOf(done)
      ensures Tally(order, frequency, details) == TallyOf(done + changes)
    {
      order, frequency, details := order0, frequency0, details0;
      ghost var seen := done;
      var j := 0;
      while j < |changes|
        invariant 0 <= j <= |changes|
        invariant seen == done + changes[..j]
        invariant Tally(order, frequency, details) == TallyOf(seen)
      {
        var change := changes[j];
        var addr := change.change.addr;
        ghost var before := Tally(order, frequency, details);
        if addr !in frequency {
          order := order + [addr];
        }
        frequency := frequency[addr := (if addr in frequency then frequency[addr] else 0) + 1];
        details := details[addr := (if addr in details then details[addr] else []) + [change]];
        assert Tally(order, frequency, details) == Count(before, change);
        TallyStep(seen, change);
        seen := seen + [change];
        SeenStep(done, changes, j);
        j := j + 1;
      }
      assert changes[..j] == changes;
    }

    /** The counting loops of the analysis: every record of every action, in
        order, counted into the frequency and details dictionaries. */
    method CountChanges(results: seq<ActionResult>)
      returns (order: seq<int>, frequency: map<int, nat>, details: map<int, seq<Labelled>>)
      ensures Tally(order, frequency, details) == TallyOf(AllChanges(results))
    {
      order, frequency, details := [], map[], map[];
      var k := 0;
      while k < |results|
        invariant 0 <= k <= |results|
        invariant Tally(order, frequency, details) == TallyOf(AllChanges(results[..k]))
      {
        order, frequency, details := CountAction(results[k].changes, AllChanges(results[..k]), order, frequency, details);
        AllChangesStep(results, k);
        k := k + 1;
      }
      assert results[..k] == results;
    }

    /** The analysis: count every record of every action into the frequency
        and details dictionaries, rank the addresses by frequency, and pick the
        top twenty with at most three details each. */
    method AnalyzeResults(results: seq<ActionResult>)
      returns (order: seq<int>, frequency: map<int, nat>, details: map<int, seq<Labelled>>,
               ranked: seq<(int, nat)>, top: seq<(int, nat)>, topDetails: seq<seq<Labelled>>)
      ensures Tally(order, frequency, details) == TallyOf(AllChanges(results))
      ensures forall i :: 0 <= i < |order| ==> order[i] in frequency
      ensures ranked == Rank(Items(order, frequency))
      ensures top == Preview(ranked, 20)
      ensures |topDetails| == |top|
      ensures forall i :: 0 <= i < |top| ==> top[i].0 in details && topDetails[i] == Preview(details[top[i].0], 3)
    {
      order, frequency, details := CountChanges(results);
      OrderKnown(AllChanges(results));
      ranked := Rank(Items(order, frequency));
      top := Preview(ranked, 20);
      forall n | 0 <= n < |top| ensures top[n].0 in details {
        assert top[n] == ranked[n];
        RankedKnown(AllChanges(results), top[n]);
      }
      topDetails := seq(|top|, n requires 0 <= n < |top| => Preview(details[top[n].0], 3));
    }
  }
}

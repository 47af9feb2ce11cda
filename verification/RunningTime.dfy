/** Running time of a pipe as the measure of a union of tick intervals (data_visualizer/utility.cpp). */
module RunningTime {
  import opened Common
  import opened SafeArithmetic
  import opened Sorting

  const MAX_TICK: nat := 0xFFFF_FFFF_FFFF_FFFF
  const INT32_MAX: nat := 0x7FFF_FFFF

  /** One instruction; nothing says that it starts before it ends. */
  datatype MergeInfo = MergeInfo(startTick: nat, endTick: nat)

  predicate Bounded(s: seq<MergeInfo>) {
    forall k | 0 <= k < |s| :: s[k].startTick <= MAX_TICK && s[k].endTick <= MAX_TICK
  }

  lemma BoundedExactly(s: seq<MergeInfo>)
    ensures Bounded(s) <==> forall k | 0 <= k < |s| ::
              s[k].startTick < 0x1_0000_0000_0000_0000 && s[k].endTick < 0x1_0000_0000_0000_0000
  {
  }

  // ---------------------------------------------------------------------------------------
  // The reference: sets of ticks
  // ---------------------------------------------------------------------------------------

  predicate Runs(i: MergeInfo, t: nat) {
    i.startTick <= t < i.endTick
  }

  function Ticks(i: MergeInfo): set<nat> {
    set t: nat | t < i.endTick && Runs(i, t)
  }

  function Length(i: MergeInfo): nat {
    if i.startTick < i.endTick then i.endTick - i.startTick else 0
  }

  /** The ticks during which at least one instruction runs. */
  function Covered(s: seq<MergeInfo>): set<nat> {
    if s == [] then {} else Covered(s[..|s| - 1]) + Ticks(s[|s| - 1])
  }

  function Total(s: seq<MergeInfo>): nat {
    if s == [] then 0 else Total(s[..|s| - 1]) + Length(s[|s| - 1])
  }

  lemma {:induction false} CountTicks(i: MergeInfo)
    ensures |Ticks(i)| == Length(i)
    decreases i.endTick
  {
    if i.startTick < i.endTick {
      var shorter := MergeInfo(i.startTick, i.endTick - 1);
      CountTicks(shorter);
      assert Ticks(i) == Ticks(shorter) + {i.endTick - 1};
      assert i.endTick - 1 !in Ticks(shorter);
    } else {
      assert Ticks(i) == {};
    }
  }

  lemma {:induction false} CoveredIs(s: seq<MergeInfo>, t: nat)
    ensures t in Covered(s) <==> exists k | 0 <= k < |s| :: s[k].startTick <= t < s[k].endTick
  {
    if s != [] {
      var n := |s| - 1;
      CoveredIs(s[..n], t);
      if t in Covered(s[..n]) {
        var k :| 0 <= k < n && s[..n][k].startTick <= t < s[..n][k].endTick;
        assert s[k].startTick <= t < s[k].endTick;
      }
      forall k | 0 <= k < |s| && s[k].startTick <= t < s[k].endTick ensures t in Covered(s) {
        if k < n { assert s[..n][k].startTick <= t < s[..n][k].endTick; }
      }
    }
  }

  lemma CoveredStep(s: seq<MergeInfo>, e: MergeInfo)
    ensures Covered(s + [e]) == Covered(s) + Ticks(e)
    ensures Total(s + [e]) == Total(s) + Length(e)
  {
    assert (s + [e])[..|s|] == s;
  }

  /** The order of the list does not matter. */
  lemma CoveredOfPermutation(a: seq<MergeInfo>, b: seq<MergeInfo>)
    requires multiset(a) == multiset(b)
    ensures Covered(a) == Covered(b)
  {
    hide Covered;
    SameElements(a, b);
    forall t: nat ensures t in Covered(a) <==> t in Covered(b) {
      CoveredIs(a, t);
      CoveredIs(b, t);
      if t in Covered(a) {
        var k :| 0 <= k < |a| && a[k].startTick <= t < a[k].endTick;
        assert a[k] in b;
        var j :| 0 <= j < |b| && b[j] == a[k];
      }
      if t in Covered(b) {
        var k :| 0 <= k < |b| && b[k].startTick <= t < b[k].endTick;
        assert b[k] in a;
        var j :| 0 <= j < |a| && a[j] == b[k];
      }
    }
  }

  predicate Disjoint(s: seq<MergeInfo>) {
    forall i, j | 0 <= i < j < |s| :: Ticks(s[i]) !! Ticks(s[j])
  }

  /** The union is never longer than all parts together, and just as long only if no two of them meet. */
  lemma {:induction false} UnionAtMostTotal(s: seq<MergeInfo>)
    ensures |Covered(s)| <= Total(s)
    ensures |Covered(s)| == Total(s) <==> Disjoint(s)
  {
    if s != [] {
      var n := |s| - 1;
      var front, last := s[..n], s[n];
      UnionAtMostTotal(front);
      CountTicks(last);
      assert s == front + [last];
      CoveredStep(front, last);
      hide Covered, Total, Ticks, Length;
      SizeOfUnion(Covered(front), Ticks(last));
      MeetsSome(front, last);
      DisjointStep(front, last);
    }
  }

  lemma SizeOfUnion(a: set<nat>, b: set<nat>)
    ensures |a + b| <= |a| + |b| && (|a + b| == |a| + |b| <==> a !! b)
  {
    assert |a + b| + |a * b| == |a| + |b|;
    assert |a * b| == 0 <==> a * b == {};
    assert a !! b <==> a * b == {} by {
      if a * b == {} { forall x | x in a ensures x !in b { assert x in b ==> x in a * b; } }
    }
  }

  lemma MeetsSome(front: seq<MergeInfo>, last: MergeInfo)
    ensures Covered(front) !! Ticks(last) <==> forall k | 0 <= k < |front| :: Ticks(front[k]) !! Ticks(last)
  {
    hide Covered;
    if t :| t in Covered(front) && t in Ticks(last) {
      CoveredIs(front, t);
      var k :| 0 <= k < |front| && front[k].startTick <= t < front[k].endTick;
      assert t in Ticks(front[k]);
    }
    forall k | 0 <= k < |front| && !(Ticks(front[k]) !! Ticks(last)) ensures !(Covered(front) !! Ticks(last)) {
      var t :| t in Ticks(front[k]) && t in Ticks(last);
      CoveredIs(front, t);
    }
  }

  lemma DisjointStep(front: seq<MergeInfo>, last: MergeInfo)
    ensures Disjoint(front + [last]) <==>
            Disjoint(front) && forall k | 0 <= k < |front| :: Ticks(front[k]) !! Ticks(last)
  {
    hide Ticks;
    var s := front + [last];
    if Disjoint(s) {
      forall i, j | 0 <= i < j < |front| ensures Ticks(front[i]) !! Ticks(front[j]) {
        assert Ticks(s[i]) !! Ticks(s[j]);
      }
      forall k | 0 <= k < |front| ensures Ticks(front[k]) !! Ticks(last) {
        assert Ticks(s[k]) !! Ticks(s[|front|]);
      }
    }
  }

  /** All covered ticks are below the largest word, so their number fits a word. */
  lemma CoveredFits(s: seq<MergeInfo>)
    requires Bounded(s)
    ensures |Covered(s)| <= MAX_TICK
  {
    hide Covered;
    var all := MergeInfo(0, MAX_TICK);
    forall t | t in Covered(s) ensures t in Ticks(all) {
      CoveredIs(s, t);
    }
    CountTicks(all);
    Subset(Covered(s), Ticks(all));
  }

  lemma Subset(a: set<nat>, b: set<nat>)
    requires a <= b
    ensures |a| <= |b|
  {
    assert b == a + (b - a);
  }

  // ---------------------------------------------------------------------------------------
  // The code
  // ---------------------------------------------------------------------------------------

  /** Entries that neither meet nor touch: each ends before the next begins. */
  predicate Apart(merge: seq<MergeInfo>) {
    forall i, j | 0 <= i < j < |merge| :: merge[i].endTick < merge[j].startTick
  }

  predicate StartOrdered(s: seq<MergeInfo>) {
    forall i, j | 0 <= i < j < |s| :: s[i].startTick <= s[j].startTick
  }

  /** An entry taken over by the last one, or put behind it. */
  function MergeNext(merge: seq<MergeInfo>, next: MergeInfo): seq<MergeInfo>
    requires merge != []
  {
    var last := merge[|merge| - 1];
    if last.endTick >= next.startTick
    then merge[..|merge| - 1] + [last.(endTick := if next.endTick > last.endTick then next.endTick else last.endTick)]
    else merge + [next]
  }

  /** Two intervals that meet or touch, the first beginning first, make one. */
  lemma TicksJoin(last: MergeInfo, next: MergeInfo)
    requires last.startTick <= next.startTick <= last.endTick
    ensures Ticks(last.(endTick := if next.endTick > last.endTick then next.endTick else last.endTick))
         == Ticks(last) + Ticks(next)
  {
  }

  lemma MergeNextCovers(merge: seq<MergeInfo>, next: MergeInfo)
    requires merge != [] && merge[|merge| - 1].startTick <= next.startTick
    ensures Covered(MergeNext(merge, next)) == Covered(merge) + Ticks(next)
  {
    hide Covered, Total, Ticks;
    var n := |merge| - 1;
    var front, last := merge[..n], merge[n];
    assert merge == front + [last];
    CoveredStep(front, last);
    if last.endTick >= next.startTick {
      var joined := last.(endTick := if next.endTick > last.endTick then next.endTick else last.endTick);
      CoveredStep(front, joined);
      TicksJoin(last, next);
      assert Covered(front) + (Ticks(last) + Ticks(next)) == (Covered(front) + Ticks(last)) + Ticks(next);
    } else {
      CoveredStep(merge, next);
    }
  }

  lemma MergeNextKeeps(merge: seq<MergeInfo>, next: MergeInfo)
    requires merge != [] && Apart(merge) && merge[|merge| - 1].startTick <= next.startTick
    requires Bounded(merge) && Bounded([next])
    ensures var m := MergeNext(merge, next);
            m != [] && Apart(m) && m[|m| - 1].startTick <= next.startTick && Bounded(m)
  {
    var n, m := |merge| - 1, MergeNext(merge, next);
    assert [next][0].startTick <= MAX_TICK && [next][0].endTick <= MAX_TICK;
    forall i, j | 0 <= i < j < |m| ensures m[i].endTick < m[j].startTick {
      if i < n { assert merge[i].endTick < merge[n].startTick; }
    }
  }

  method Merge(instrList: seq<MergeInfo>) returns (merge: seq<MergeInfo>)
    requires instrList != [] && StartOrdered(instrList) && Bounded(instrList)
    ensures Apart(merge) && Bounded(merge) && Covered(merge) == Covered(instrList)
  {
    hide Covered, Apart, Bounded, Ticks;
    merge := [instrList[0]];
    MergeBegins(instrList);
    for i := 1 to |instrList|
      invariant merge != [] && Apart(merge) && Bounded(merge)
      invariant merge[|merge| - 1].startTick <= instrList[i - 1].startTick
      invariant Covered(merge) == Covered(instrList[..i])
    {
      ghost var before := merge;
      OneBounded(instrList, i);
      MergeNextKeeps(merge, instrList[i]);
      MergeNextCovers(merge, instrList[i]);
      CoveredStep(instrList[..i], instrList[i]);
      assert instrList[..i] + [instrList[i]] == instrList[..i + 1];
      var lastInfo := merge[|merge| - 1];
      if lastInfo.endTick >= instrList[i].startTick {
        var end := if instrList[i].endTick > lastInfo.endTick then instrList[i].endTick else lastInfo.endTick;
        merge := merge[..|merge| - 1] + [lastInfo.(endTick := end)];
      } else {
        merge := merge + [instrList[i]];
      }
      assert merge == MergeNext(before, instrList[i]);
    }
    assert instrList[..|instrList|] == instrList;
  }

  lemma MergeBegins(instrList: seq<MergeInfo>)
    requires instrList != [] && Bounded(instrList)
    ensures var merge := [instrList[0]];
            Apart(merge) && Bounded(merge) && Covered(merge) == Covered(instrList[..1])
  {
    assert instrList[..1] == [instrList[0]];
  }

  lemma OneBounded(s: seq<MergeInfo>, i: nat)
    requires Bounded(s) && i < |s|
    ensures Bounded([s[i]])
  {
  }

  /** Separate intervals cover as many ticks as they have together; malformed ones count for nothing. */
  lemma ApartIsDisjoint(merge: seq<MergeInfo>)
    requires Apart(merge)
    ensures |Covered(merge)| == Total(merge)
  {
    hide Covered, Total;
    UnionAtMostTotal(merge);
    forall i, j | 0 <= i < j < |merge| ensures Ticks(merge[i]) !! Ticks(merge[j]) {
      assert merge[i].endTick < merge[j].startTick;
    }
  }

  lemma {:induction false} TotalPrefix(s: seq<MergeInfo>, k: nat)
    requires k <= |s|
    ensures Total(s[..k]) <= Total(s)
    decreases |s| - k
  {
    if k < |s| {
      assert s[..k + 1] == s[..k] + [s[k]];
      CoveredStep(s[..k], s[k]);
      TotalPrefix(s, k + 1);
    } else {
      assert s[..k] == s;
    }
  }

  method SumOf(merge: seq<MergeInfo>) returns (runningTime: nat)
    requires Bounded(merge) && Total(merge) <= MAX_TICK
    ensures runningTime == Total(merge)
  {
    runningTime := 0;
    for k := 0 to |merge|
      invariant runningTime == Total(merge[..k]) <= MAX_TICK
    {
      assert merge[..k + 1] == merge[..k] + [merge[k]];
      CoveredStep(merge[..k], merge[k]);
      TotalPrefix(merge, k + 1);
      if merge[k].startTick >= merge[k].endTick {
        continue;
      }
      var partCycles := merge[k].endTick - merge[k].startTick;
      runningTime := SafeAdd(partCycles, runningTime, MAX_TICK, true);
    }
    assert merge[..|merge|] == merge;
  }

  function StartOf(s: seq<MergeInfo>): (rank: map<MergeInfo, int>)
    ensures forall e | e in s :: e in rank && rank[e] == e.startTick
  {
    map e | e in s :: e.startTick
  }

  /** The list is sorted in place; the result is the number of ticks at which anything runs. */
  method CalculateRunningTime(instrList: array<MergeInfo>) returns (runningTime: nat)
    requires Bounded(instrList[..])
    modifies instrList
    ensures multiset(instrList[..]) == old(multiset(instrList[..])) && StartOrdered(instrList[..])
    ensures runningTime == |Covered(old(instrList[..]))|
  {
    ghost var given := instrList[..];
    if instrList.Length == 0 {
      return 0;
    }
    var sorted := SortByRank(instrList[..], StartOf(instrList[..]));
    SameElements(sorted, given);
    forall k | 0 <= k < instrList.Length {
      instrList[k] := sorted[k];
    }
    assert instrList[..] == sorted;
    hide Covered, Total;
    SortedIsOrdered(sorted, given);
    CoveredOfPermutation(sorted, given);
    var merge := Merge(instrList[..]);
    ApartIsDisjoint(merge);
    CoveredFits(merge);
    runningTime := SumOf(merge);
  }

  lemma SortedIsOrdered(sorted: seq<MergeInfo>, given: seq<MergeInfo>)
    requires Bounded(given) && multiset(sorted) == multiset(given)
    requires Ranked(sorted, StartOf(given)) && Ordered(sorted, StartOf(given))
    ensures StartOrdered(sorted) && Bounded(sorted)
  {
    hide StartOf;
    SameElements(sorted, given);
    forall i, j | 0 <= i < j < |sorted| ensures sorted[i].startTick <= sorted[j].startTick {
      assert sorted[i] in given && sorted[j] in given;
    }
    forall k | 0 <= k < |sorted| ensures sorted[k].startTick <= MAX_TICK && sorted[k].endTick <= MAX_TICK {
      assert sorted[k] in given;
    }
  }

  /** Cycles without regard to overlaps, clamped to what the charts can show. */
  method CalCycles(instrList: seq<MergeInfo>) returns (result: nat)
    requires Bounded(instrList)
    ensures result == if Total(instrList) > 0x7FFF_FFFF then 0x7FFF_FFFF else Total(instrList)
  {
    var cycles := 0;
    for k := 0 to |instrList|
      invariant cycles == Min(Total(instrList[..k]), MAX_TICK)
    {
      assert instrList[..k + 1] == instrList[..k] + [instrList[k]];
      CoveredStep(instrList[..k], instrList[k]);
      var temp := SafeSub(instrList[k].endTick, instrList[k].startTick, MAX_TICK, false);
      cycles := SafeAdd(cycles, temp, MAX_TICK, true);
    }
    assert instrList[..|instrList|] == instrList;
    if cycles > INT32_MAX {
      return INT32_MAX;
    }
    return cycles;
  }
}

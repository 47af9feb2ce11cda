/** The shipped events of vector cores on ASCEND950, as data (defs.h), and what becomes of them in PmuPacking. */
module EventTables {
  import opened PmuPacking

  const PIPE_UTILIZATION := "pipeutilization"
  const ARITHMETIC_UTILIZATION := "arithmeticutilization"
  const L2_CACHE := "l2cache"
  const MEMORY := "memory"
  const RESOURCE_CONFLICT_RATIO := "resourceconflictratio"
  const MEMORY_L0 := "memoryl0"
  const MEMORY_UB := "memoryub"
  const OCCUPANCY := "occupancy"
  const ROOFLINE := "roofline"

  const AIV_PIPE_UTILIZATION: seq<nat> := [0, 1, 10, 52, 53, 514, 515, 1281]
  const AIV_ARITHMETIC_UTILIZATION: seq<nat> := [1281, 1282, 1283, 1284]
  const AIV_L2_CACHE: seq<nat> := [1060, 1061, 1062, 1063, 1064, 1065, 1066, 1067, 1068, 1069, 1070, 1071]
  const AIV_MEMORY: seq<nat> :=
    [512, 513, 514, 515, 516, 518, 1058, 1059] + [1391, 1395, 1396, 1397, 1398, 1400, 1404, 1407, 1408]
  const AIV_RESOURCE_CONFLICT_RATIO: seq<nat> := [12, 13, 14, 15, 1344, 1366, 1376, 1377, 1378, 1379]
  const AIV_MEMORY_L0: seq<nat> := []
  const AIV_MEMORY_UB: seq<nat> := [1058, 1059, 1393, 1394, 1397, 1398, 1407, 1408]
  const AIV_OCCUPANCY: seq<nat> := [1058, 1059] + AIV_L2_CACHE + [1466, 1467, 1468]
  const AIV_ROOFLINE: seq<nat> := [1058, 1059, 1397, 1398, 1407, 1408] + AIV_L2_CACHE

  /** What each metric asks of a vector core. */
  const AIV_EVENTS: map<string, seq<nat>> := map[
    PIPE_UTILIZATION := AIV_PIPE_UTILIZATION,
    ARITHMETIC_UTILIZATION := AIV_ARITHMETIC_UTILIZATION,
    L2_CACHE := AIV_L2_CACHE,
    MEMORY := AIV_MEMORY,
    MEMORY_L0 := AIV_MEMORY_L0,
    MEMORY_UB := AIV_MEMORY_UB,
    OCCUPANCY := AIV_OCCUPANCY,
    ROOFLINE := AIV_ROOFLINE,
    RESOURCE_CONFLICT_RATIO := AIV_RESOURCE_CONFLICT_RATIO]

  // The replay table, ten events to a row.
  const ROW_0: seq<nat> := [1060, 1061, 1062, 1063, 1064, 1065, 1066, 1067, 1068, 1069]
  const ROW_1: seq<nat> := [1070, 1071, 512, 513, 1344, 1366, 1376, 1377, 1378, 1379]
  const ROW_2: seq<nat> := [52, 53, 516, 518, 1058, 1059, 1391, 1393, 1394, 0]
  const ROW_3: seq<nat> := [1395, 1396, 1397, 1398, 1400, 1404, 1407, 1408, 0, 0]
  const ROW_4: seq<nat> := [10, 12, 14, 15, 0, 0, 0, 0, 0, 0]
  const ROW_5: seq<nat> := [1, 514, 515, 1281, 1282, 1283, 1284, 1466, 1467, 1468]
  const REPLAY_AIV: seq<nat> := ROW_0 + ROW_1 + ROW_2 + ROW_3 + ROW_4 + ROW_5

  /** The place of an event in the table; 60 for events that it does not list. */
  function PlaceOf(e: nat): nat {
    match e
    case 1060 => 0 case 1061 => 1 case 1062 => 2 case 1063 => 3 case 1064 => 4 case 1065 => 5 case 1066 => 6
    case 1067 => 7 case 1068 => 8 case 1069 => 9 case 1070 => 10 case 1071 => 11 case 512 => 12 case 513 => 13
    case 1344 => 14 case 1366 => 15 case 1376 => 16 case 1377 => 17 case 1378 => 18 case 1379 => 19 case 52 => 20
    case 53 => 21 case 516 => 22 case 518 => 23 case 1058 => 24 case 1059 => 25 case 1391 => 26 case 1393 => 27
    case 1394 => 28 case 1395 => 30 case 1396 => 31 case 1397 => 32 case 1398 => 33 case 1400 => 34 case 1404 => 35
    case 1407 => 36 case 1408 => 37 case 10 => 40 case 12 => 41 case 14 => 42 case 15 => 43 case 1 => 50
    case 514 => 51 case 515 => 52 case 1281 => 53 case 1282 => 54 case 1283 => 55 case 1284 => 56 case 1466 => 57
    case 1467 => 58 case 1468 => 59
    case _ => 60
  }

  lemma Row0(i: nat)
    ensures i < 10 && ROW_0[i] != 0 ==> PlaceOf(ROW_0[i]) == i
  {
  }

  lemma Place0(i: nat, e: nat)
    ensures i < 10 && PlaceOf(e) == i ==> ROW_0[i] == e != 0
  {
  }

  lemma Row1(i: nat)
    ensures i < 10 && ROW_1[i] != 0 ==> PlaceOf(ROW_1[i]) == 10 + i
  {
  }

  lemma Place1(i: nat, e: nat)
    ensures i < 10 && PlaceOf(e) == 10 + i ==> ROW_1[i] == e != 0
  {
  }

  lemma Row2(i: nat)
    ensures i < 10 && ROW_2[i] != 0 ==> PlaceOf(ROW_2[i]) == 20 + i
  {
  }

  lemma Place2(i: nat, e: nat)
    ensures i < 10 && PlaceOf(e) == 20 + i ==> ROW_2[i] == e != 0
  {
  }

  lemma Row3(i: nat)
    ensures i < 10 && ROW_3[i] != 0 ==> PlaceOf(ROW_3[i]) == 30 + i
  {
  }

  lemma Place3(i: nat, e: nat)
    ensures i < 10 && PlaceOf(e) == 30 + i ==> ROW_3[i] == e != 0
  {
  }

  lemma Row4(i: nat)
    ensures i < 10 && ROW_4[i] != 0 ==> PlaceOf(ROW_4[i]) == 40 + i
  {
  }

  lemma Place4(i: nat, e: nat)
    ensures i < 10 && PlaceOf(e) == 40 + i ==> ROW_4[i] == e != 0
  {
  }

  lemma Row5(i: nat)
    ensures i < 10 && ROW_5[i] != 0 ==> PlaceOf(ROW_5[i]) == 50 + i
  {
  }

  lemma Place5(i: nat, e: nat)
    ensures i < 10 && PlaceOf(e) == 50 + i ==> ROW_5[i] == e != 0
  {
  }

  function Pick(a: seq<nat>, b: seq<nat>, c: seq<nat>, d: seq<nat>, e: seq<nat>, f: seq<nat>, i: nat): nat
    requires |a| == |b| == |c| == |d| == |e| == |f| == 10 && i < 60
  {
    if i < 10 then a[i] else if i < 20 then b[i - 10] else if i < 30 then c[i - 20]
    else if i < 40 then d[i - 30] else if i < 50 then e[i - 40] else f[i - 50]
  }

  lemma SixRows(a: seq<nat>, b: seq<nat>, c: seq<nat>, d: seq<nat>, e: seq<nat>, f: seq<nat>, i: nat)
    requires |a| == |b| == |c| == |d| == |e| == |f| == 10 && i < 60
    ensures (a + b + c + d + e + f)[i] == Pick(a, b, c, d, e, f, i)
  {
  }

  lemma TableIs()
    ensures |ROW_0| == |ROW_1| == |ROW_2| == |ROW_3| == |ROW_4| == |ROW_5| == 10
    ensures REPLAY_AIV == ROW_0 + ROW_1 + ROW_2 + ROW_3 + ROW_4 + ROW_5 && |REPLAY_AIV| == 60
  {
  }

  lemma RowPlaces(i: nat, e: nat)
    requires i < 60
    ensures |ROW_0| == |ROW_1| == |ROW_2| == |ROW_3| == |ROW_4| == |ROW_5| == 10
    ensures var entry := Pick(ROW_0, ROW_1, ROW_2, ROW_3, ROW_4, ROW_5, i);
            (entry != 0 ==> PlaceOf(entry) == i) && (PlaceOf(e) == i ==> entry == e != 0)
  {
    hide PlaceOf, ROW_0, ROW_1, ROW_2, ROW_3, ROW_4, ROW_5, REPLAY_AIV;
    TableIs();
    if i < 10 { Row0(i); Place0(i, e); }
    else if i < 20 { Row1(i - 10); Place1(i - 10, e); }
    else if i < 30 { Row2(i - 20); Place2(i - 20, e); }
    else if i < 40 { Row3(i - 30); Place3(i - 30, e); }
    else if i < 50 { Row4(i - 40); Place4(i - 40, e); }
    else { Row5(i - 50); Place5(i - 50, e); }
  }

  /** An entry of the table tells its place, and a place its event. */
  lemma Entry(i: nat, e: nat)
    requires i < 60
    ensures |REPLAY_AIV| == 60
    ensures (REPLAY_AIV[i] != 0 ==> PlaceOf(REPLAY_AIV[i]) == i) && (PlaceOf(e) == i ==> REPLAY_AIV[i] == e != 0)
  {
    hide *;
    TableIs();
    SixRows(ROW_0, ROW_1, ROW_2, ROW_3, ROW_4, ROW_5, i);
    RowPlaces(i, e);
  }

  /** The table repeats no event, so all of it is indexed. */
  lemma WholeTable()
    ensures |REPLAY_AIV| == 60 && Usable(REPLAY_AIV) == 60
  {
    hide *;
    TableIs();
    var n := Usable(REPLAY_AIV);
    if n < 60 {
      var j :| 0 <= j < n && REPLAY_AIV[..n][j] == REPLAY_AIV[n];
      Entry(n, 0);
      Entry(j, 0);
    }
  }

  lemma ListedExactly(e: nat)
    ensures Listed(e, REPLAY_AIV) <==> PlaceOf(e) < 60
  {
    hide PlaceOf, ROW_0, ROW_1, ROW_2, ROW_3, ROW_4, ROW_5, REPLAY_AIV, Usable;
    WholeTable();
    if PlaceOf(e) < 60 {
      Entry(PlaceOf(e), e);
      assert REPLAY_AIV[..60][PlaceOf(e)] == e;
    }
    if Listed(e, REPLAY_AIV) {
      var i :| 0 <= i < 60 && REPLAY_AIV[..60][i] == e;
      Entry(i, e);
    }
  }

  predicate Known(list: seq<nat>) {
    forall e | e in list :: e == 0 || PlaceOf(e) < 60
  }

  lemma KnownTogether(a: seq<nat>, b: seq<nat>)
    requires Known(a) && Known(b)
    ensures Known(a + b)
  {
    hide PlaceOf;
  }

  lemma FirstOfMemoryIsKnown()
    ensures Known([512, 513, 514, 515, 516, 518, 1058, 1059])
  {
  }

  lemma RestOfMemoryIsKnown()
    ensures Known([1391, 1395, 1396, 1397, 1398, 1400, 1404, 1407, 1408])
  {
  }

  lemma FewAreKnown()
    ensures Known([1058, 1059]) && Known([1466, 1467, 1468]) && Known([1058, 1059, 1397, 1398, 1407, 1408])
  {
  }

  lemma PipeUtilizationIsKnown()
    ensures Known(AIV_PIPE_UTILIZATION)
  {
  }

  lemma ArithmeticUtilizationIsKnown()
    ensures Known(AIV_ARITHMETIC_UTILIZATION)
  {
  }

  lemma L2CacheIsKnown()
    ensures Known(AIV_L2_CACHE)
  {
  }

  lemma MemoryIsKnown()
    ensures Known(AIV_MEMORY)
  {
    hide PlaceOf;
    FirstOfMemoryIsKnown();
    RestOfMemoryIsKnown();
    KnownTogether([512, 513, 514, 515, 516, 518, 1058, 1059],
                  [1391, 1395, 1396, 1397, 1398, 1400, 1404, 1407, 1408]);
  }

  lemma MemoryL0IsKnown()
    ensures Known(AIV_MEMORY_L0)
  {
  }

  lemma MemoryUbIsKnown()
    ensures Known(AIV_MEMORY_UB)
  {
  }

  lemma OccupancyIsKnown()
    ensures Known(AIV_OCCUPANCY)
  {
    hide PlaceOf;
    L2CacheIsKnown();
    FewAreKnown();
    KnownTogether([1058, 1059], AIV_L2_CACHE);
    KnownTogether([1058, 1059] + AIV_L2_CACHE, [1466, 1467, 1468]);
  }

  lemma RooflineIsKnown()
    ensures Known(AIV_ROOFLINE)
  {
    hide PlaceOf;
    L2CacheIsKnown();
    FewAreKnown();
    KnownTogether([1058, 1059, 1397, 1398, 1407, 1408], AIV_L2_CACHE);
  }

  /** All metrics but one ask for listed events only, event 0 aside. */
  lemma OtherMetrics()
    ensures Known(AIV_PIPE_UTILIZATION)
    ensures Known(AIV_ARITHMETIC_UTILIZATION)
    ensures Known(AIV_L2_CACHE)
    ensures Known(AIV_MEMORY)
    ensures Known(AIV_MEMORY_L0)
    ensures Known(AIV_MEMORY_UB)
    ensures Known(AIV_OCCUPANCY)
    ensures Known(AIV_ROOFLINE)
  {
    hide *;
    PipeUtilizationIsKnown();
    ArithmeticUtilizationIsKnown();
    L2CacheIsKnown();
    MemoryIsKnown();
    MemoryL0IsKnown();
    MemoryUbIsKnown();
    OccupancyIsKnown();
    RooflineIsKnown();
  }

  /** That one asks for event 13, which the table does not list, and for several that it does. */
  lemma ConflictMetric()
    ensures 12 in AIV_RESOURCE_CONFLICT_RATIO && 13 in AIV_RESOURCE_CONFLICT_RATIO
    ensures 14 in AIV_RESOURCE_CONFLICT_RATIO
  {
    hide PlaceOf;
    var list := AIV_RESOURCE_CONFLICT_RATIO;
    assert list[0] == 12 && list[1] == 13 && list[2] == 14;
  }

  lemma ConflictPlaces()
    ensures PlaceOf(12) == 41 && PlaceOf(13) == 60 && PlaceOf(14) == 42
  {
  }

  /** The lists by metric. */
  lemma MetricLists(metric: string)
    ensures RESOURCE_CONFLICT_RATIO in AIV_EVENTS
    ensures AIV_EVENTS[RESOURCE_CONFLICT_RATIO] == AIV_RESOURCE_CONFLICT_RATIO
    ensures metric in AIV_EVENTS && metric != RESOURCE_CONFLICT_RATIO ==>
              AIV_EVENTS[metric] in {AIV_PIPE_UTILIZATION, AIV_ARITHMETIC_UTILIZATION, AIV_L2_CACHE, AIV_MEMORY,
                                     AIV_MEMORY_L0, AIV_MEMORY_UB, AIV_OCCUPANCY, AIV_ROOFLINE}
  {
    var known := {PIPE_UTILIZATION, ARITHMETIC_UTILIZATION, L2_CACHE, MEMORY, MEMORY_L0, MEMORY_UB, OCCUPANCY,
                  ROOFLINE, RESOURCE_CONFLICT_RATIO};
    assert metric in AIV_EVENTS ==> metric in known;
  }

  lemma OtherMetric(metric: string, e: nat)
    requires metric in AIV_EVENTS && metric != RESOURCE_CONFLICT_RATIO && e in AIV_EVENTS[metric]
    ensures e == 0 || PlaceOf(e) < 60
  {
    hide PlaceOf, AIV_EVENTS;
    MetricLists(metric);
    OtherMetrics();
    assert Known(AIV_EVENTS[metric]);
  }

  lemma {:induction false} RequestedBy(enabled: seq<string>, lists: map<string, seq<nat>>, e: nat)
    ensures e in Requests(enabled, lists) <==>
            exists k :: 0 <= k < |enabled| && enabled[k] in lists && e in lists[enabled[k]]
  {
    if enabled != [] {
      RequestedBy(enabled[1..], lists, e);
      forall k | 0 <= k < |enabled| - 1 ensures enabled[1..][k] == enabled[k + 1] {}
    }
  }

  /** What ResourceConflictRatio asks for makes sorting undefined, whatever else is enabled. */
  lemma ConflictBreaksTheSort(enabled: seq<string>)
    requires RESOURCE_CONFLICT_RATIO in enabled
    ensures var events := ToSort(Requests(enabled, AIV_EVENTS), ASCEND950);
            && 12 in events && 13 in events && 14 in events
            && Listed(12, REPLAY_AIV) && !Listed(13, REPLAY_AIV) && Listed(14, REPLAY_AIV)
            && !Sortable(events, REPLAY_AIV)
  {
    hide *;
    var requested := Requests(enabled, AIV_EVENTS);
    var events := ToSort(requested, ASCEND950);
    MetricLists(RESOURCE_CONFLICT_RATIO);
    ConflictMetric();
    ConflictPlaces();
    var k :| 0 <= k < |enabled| && enabled[k] == RESOURCE_CONFLICT_RATIO;
    forall e | e in {12, 13, 14} ensures e in events {
      RequestedBy(enabled, AIV_EVENTS, e);
      WantedMember(requested, ASCEND950, e);
    }
    ListedExactly(12);
    ListedExactly(13);
    ListedExactly(14);
    NotSortable(events, REPLAY_AIV, 12, 13, 14);
  }

  lemma NotSortable(events: seq<nat>, table: seq<nat>, a: nat, u: nat, b: nat)
    requires a in events && u in events && b in events && a != b
    requires Listed(a, table) && !Listed(u, table) && Listed(b, table)
    ensures !Sortable(events, table)
  {
    hide Listed;
  }

  lemma OthersAreListed(enabled: seq<string>)
    requires RESOURCE_CONFLICT_RATIO !in enabled
    ensures AllListed(ToSort(Requests(enabled, AIV_EVENTS), ASCEND950), REPLAY_AIV)
  {
    hide Listed, ToSort, Requests, AIV_EVENTS, REPLAY_AIV, PlaceOf;
    var requested := Requests(enabled, AIV_EVENTS);
    forall e | e in ToSort(requested, ASCEND950) ensures Listed(e, REPLAY_AIV) {
      WantedMember(requested, ASCEND950, e);
      RequestedBy(enabled, AIV_EVENTS, e);
      var k :| 0 <= k < |enabled| && enabled[k] in AIV_EVENTS && e in AIV_EVENTS[enabled[k]];
      OtherMetric(enabled[k], e);
      ListedExactly(e);
    }
  }

  /** On vector cores of ASCEND950 the selection of events is defined if and only if ResourceConflictRatio is not
      enabled; the comparator is no strict weak order otherwise. */
  lemma ConflictDecides(enabled: seq<string>, limits: Limits)
    requires Suitable(limits, REPLAY_AIV)
    ensures var events := ToSort(Requests(enabled, AIV_EVENTS), ASCEND950);
            && (Defined(events, REPLAY_AIV, limits) <==> RESOURCE_CONFLICT_RATIO !in enabled)
            && (StrictWeakOrder(events, TableIndex(REPLAY_AIV)) <==> RESOURCE_CONFLICT_RATIO !in enabled)
  {
    hide Suitable, ToSort, Requests, AIV_EVENTS, REPLAY_AIV, TableIndex, StrictWeakOrder, RESOURCE_CONFLICT_RATIO,
         LeftBySort, InRoom, AllListed, OneListed;
    SuitableBounds(limits, REPLAY_AIV);
    var requested := Requests(enabled, AIV_EVENTS);
    SortIsDefinedExactly(ToSort(requested, ASCEND950), REPLAY_AIV);
    RequestableExactly(requested, REPLAY_AIV, ASCEND950, limits);
    if RESOURCE_CONFLICT_RATIO in enabled {
      ConflictBreaksTheSort(enabled);
    } else {
      OthersAreListed(enabled);
    }
  }
}

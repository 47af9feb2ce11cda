/** Packing of PMU events into replay rounds (PmuEventsId in prof_args.cpp).

    The table lists all events of a core type, `pmuMax` to a row, rows filled up with zeros.
    Requested events of one row depend on each other and must be measured in the same round.
 */
module PmuPacking {
  import opened Arithmetic
  import opened Sorting

  /** Rounds up to a multiple of `x`, by way of a real quotient as the source does. */
  function GetUpNumCanDivisibleByX(number: nat, x: nat): (r: nat)
    ensures x == 0 ==> r == 0
    ensures x > 0 ==> r % x == 0 && number <= r < number + x
  {
    if x == 0 then 0 else
    var q := number as real / x as real;
    var ceiling := if q.Floor as real == q then q.Floor else q.Floor + 1;
    CeilingBounds(number, x, q.Floor, ceiling);
    ceiling * x
  }

  lemma CeilingBounds(number: nat, x: nat, floor: int, ceiling: int)
    requires x > 0 && floor as real <= number as real / x as real < floor as real + 1.0
    requires ceiling == if floor as real == number as real / x as real then floor else floor + 1
    ensures 0 <= ceiling * x && (ceiling * x) % x == 0 && number <= ceiling * x < number + x
  {
    FloorBounds(number as real, x as real, floor as real);
    ToRealProduct(floor, x);
    assert (floor * x) as real <= number as real < (floor * x) as real + x as real;
    assert floor * x <= number < floor * x + x;
    MultipleOf(ceiling, x);
    assert (floor + 1) * x == floor * x + x;
  }

  lemma FloorBounds(n: real, y: real, f: real)
    requires 0.0 < y && f <= n / y < f + 1.0
    ensures f * y <= n < f * y + y
    ensures f == n / y ==> f * y == n
  {
    var q := n / y;
    assert q * y == n;
    Scale(f, q, y);
    ScaleStrictly(q, f + 1.0, y);
    assert (f + 1.0) * y == f * y + y;
  }

  lemma ToRealProduct(a: int, b: int)
    ensures (a * b) as real == a as real * b as real
  {
  }

  lemma Scale(a: real, b: real, y: real)
    requires a <= b && 0.0 < y
    ensures a * y <= b * y
  {
  }

  lemma ScaleStrictly(a: real, b: real, y: real)
    requires a < b && 0.0 < y
    ensures a * y < b * y
  {
  }

  // ---------------------------------------------------------------------------------------
  // Which events are requested
  // ---------------------------------------------------------------------------------------

  predicate Distinct(s: seq<nat>) {
    forall i, j | 0 <= i < j < |s| :: s[i] != s[j]
  }

  /** The lists of the enabled metrics, one after the other; metrics without a list add nothing. */
  function Requests(enabled: seq<string>, lists: map<string, seq<nat>>): seq<nat> {
    if enabled == [] then []
    else (if enabled[0] in lists then lists[enabled[0]] else []) + Requests(enabled[1..], lists)
  }

  /** `unique` keeps the first occurrence of every element of `all`, in order. */
  function Unique(all: seq<nat>): (r: seq<nat>)
    ensures Distinct(r)
    ensures forall e :: e in r <==> e in all
  {
    if all == [] then [] else
    var front, last := Unique(all[..|all| - 1]), all[|all| - 1];
    assert all == all[..|all| - 1] + [last];
    if last in front then front else front + [last]
  }

  lemma UniqueStep(all: seq<nat>, e: nat)
    ensures Unique(all + [e]) == if e in Unique(all) then Unique(all) else Unique(all) + [e]
  {
    assert (all + [e])[..|all|] == all;
  }

  /** Where an element first occurs. */
  function FirstAt(all: seq<nat>, e: nat): (i: nat)
    requires e in all
    ensures i < |all| && all[i] == e && e !in all[..i]
  {
    if all[0] == e then 0 else 1 + FirstAt(all[1..], e)
  }

  lemma FirstAtIs(all: seq<nat>, e: nat, i: nat)
    requires i < |all| && all[i] == e && e !in all[..i]
    ensures e in all && FirstAt(all, e) == i
  {
  }

  /** The elements come in the order in which they first occur. */
  lemma {:induction false} UniqueInOrder(all: seq<nat>, i: nat, j: nat)
    requires i < j < |Unique(all)|
    ensures Unique(all)[i] in all && Unique(all)[j] in all
    ensures FirstAt(all, Unique(all)[i]) < FirstAt(all, Unique(all)[j])
    decreases |all|
  {
    hide FirstAt;
    var n := |all| - 1;
    var front, last := all[..n], all[n];
    assert all == front + [last];
    var before := Unique(front);
    forall e | e in front ensures FirstAt(all, e) == FirstAt(front, e) {
      var k := FirstAt(front, e);
      assert all[..k] == front[..k];
      FirstAtIs(all, e, k);
    }
    if j < |before| {
      UniqueInOrder(front, i, j);
    } else {
      assert last !in front && Unique(all)[j] == last && before[i] in front;
      FirstAtIs(all, last, n);
    }
  }

  /** The requests of metrics, one after the other. */
  lemma {:induction false} RequestsInOrder(a: seq<string>, b: seq<string>, metric: string, lists: map<string, seq<nat>>)
    ensures Requests(a + b, lists) == Requests(a, lists) + Requests(b, lists)
    ensures Requests([metric], lists) == if metric in lists then lists[metric] else []
  {
    var none: seq<string> := [];
    assert [metric][1..] == none;
    if a == [] {
      assert a + b == b;
    } else {
      assert (a + b)[1..] == a[1..] + b;
      RequestsInOrder(a[1..], b, metric, lists);
    }
  }

  method GetEventsByMetrics(enabled: seq<string>, lists: map<string, seq<nat>>) returns (eventVec: seq<nat>)
    ensures eventVec == Unique(Requests(enabled, lists))
  {
    var eventSet: set<nat> := {};
    eventVec := [];
    ghost var seen: seq<nat> := [];
    for m := 0 to |enabled|
      invariant eventVec == Unique(seen) && eventSet == set e | e in eventVec
      invariant seen + Requests(enabled[m..], lists) == Requests(enabled, lists)
    {
      hide Unique;
      RequestsStep(seen, enabled, m, lists);
      if enabled[m] in lists {
        eventVec, eventSet := AddAll(eventVec, eventSet, lists[enabled[m]], seen);
        seen := seen + lists[enabled[m]];
      }
    }
    assert seen + [] == seen;
  }

  lemma RequestsStep(seen: seq<nat>, enabled: seq<string>, m: nat, lists: map<string, seq<nat>>)
    requires m < |enabled|
    ensures var more := if enabled[m] in lists then lists[enabled[m]] else [];
            seen + Requests(enabled[m..], lists) == (seen + more) + Requests(enabled[m + 1..], lists)
    ensures enabled[m] !in lists ==> seen + Requests(enabled[m..], lists) == seen + Requests(enabled[m + 1..], lists)
  {
    assert enabled[m..][1..] == enabled[m + 1..];
    var more, rest := if enabled[m] in lists then lists[enabled[m]] else [], Requests(enabled[m + 1..], lists);
    assert seen + (more + rest) == (seen + more) + rest;
    if enabled[m] !in lists { assert seen + more == seen; }
  }

  /** The inner loop: one metric's events. */
  method AddAll(events: seq<nat>, known: set<nat>, list: seq<nat>, ghost seen: seq<nat>)
    returns (eventVec: seq<nat>, eventSet: set<nat>)
    requires events == Unique(seen) && known == set e | e in events
    ensures eventVec == Unique(seen + list) && eventSet == set e | e in eventVec
  {
    hide Unique;
    eventVec, eventSet := events, known;
    assert seen + list[..0] == seen;
    for k := 0 to |list|
      invariant eventVec == Unique(seen + list[..k]) && eventSet == set e | e in eventVec
    {
      UniqueStep(seen + list[..k], list[k]);
      assert (seen + list[..k]) + [list[k]] == seen + list[..k + 1];
      if list[k] !in eventSet {
        eventVec := eventVec + [list[k]];
        eventSet := eventSet + {list[k]};
      }
    }
    assert list[..|list|] == list;
  }

  // ---------------------------------------------------------------------------------------
  // Table order
  // ---------------------------------------------------------------------------------------

  /** Where the table first repeats an event; nothing from there on is indexed. */
  function Usable(table: seq<nat>): (n: nat)
    ensures n <= |table|
    ensures forall i, j | 0 <= i < j < n && table[i] == table[j] :: table[i] == 0
    ensures n < |table| ==> table[n] != 0 && table[n] in table[..n]
  {
    UsableFrom(table, 0)
  }

  function UsableFrom(table: seq<nat>, from: nat): (n: nat)
    requires from <= |table|
    requires forall i, j | 0 <= i < j < from && table[i] == table[j] :: table[i] == 0
    ensures from <= n <= |table|
    ensures forall i, j | 0 <= i < j < n && table[i] == table[j] :: table[i] == 0
    ensures n < |table| ==> table[n] != 0 && table[n] in table[..n]
    decreases |table| - from
  {
    if from == |table| || (table[from] != 0 && table[from] in table[..from]) then from
    else UsableFrom(table, from + 1)
  }

  predicate Indexes(indexMap: map<nat, nat>, table: seq<nat>, n: nat)
    requires n <= |table|
  {
    && (forall e | e in indexMap :: e != 0 && indexMap[e] < n && table[indexMap[e]] == e)
    && (forall i | 0 <= i < n && table[i] != 0 :: table[i] in indexMap && indexMap[table[i]] == i)
  }

  predicate InTableOrder(events: seq<nat>, indexMap: map<nat, nat>)
    requires forall e | e in events :: e in indexMap
  {
    forall i, j | 0 <= i < j < |events| :: indexMap[events[i]] < indexMap[events[j]]
  }

  /** The indexing loop: it ends where the table first repeats an event. */
  method IndexTable(table: seq<nat>) returns (indexMap: map<nat, nat>)
    ensures Indexes(indexMap, table, Usable(table))
  {
    indexMap := map[];
    var index := 0;
    while index < |table|
      invariant index <= |table| && UsableFrom(table, 0) >= index
      invariant forall i, j | 0 <= i < j < index && table[i] == table[j] :: table[i] == 0
      invariant Usable(table) == UsableFrom(table, index)
      invariant Indexes(indexMap, table, index)
    {
      if table[index] in indexMap {
        break;
      }
      if table[index] != 0 {
        indexMap := indexMap[table[index] := index];
      }
      index := index + 1;
    }
    assert index == Usable(table);
  }

  /** The index of the table, as a value. */
  function TableIndex(table: seq<nat>): (indexMap: map<nat, nat>)
    ensures Indexes(indexMap, table, Usable(table))
  {
    map i | 0 <= i < Usable(table) && table[i] != 0 :: table[i] := i
  }

  lemma OneIndex(indexMap: map<nat, nat>, table: seq<nat>)
    requires Indexes(indexMap, table, Usable(table))
    ensures indexMap == TableIndex(table)
  {
    hide Usable, TableIndex;
    var other := TableIndex(table);
    assert forall e | e in indexMap :: e in other && other[e] == indexMap[e];
    assert forall e | e in other :: e in indexMap;
  }

  // ---------------------------------------------------------------------------------------
  // When the order is one that can be sorted by
  // ---------------------------------------------------------------------------------------

  /** The comparator: an event without an index is before nothing and behind nothing. */
  predicate Less(indexMap: map<nat, nat>, pre: nat, next: nat) {
    pre in indexMap && next in indexMap && indexMap[pre] < indexMap[next]
  }

  predicate Tied(indexMap: map<nat, nat>, a: nat, b: nat) {
    !Less(indexMap, a, b) && !Less(indexMap, b, a)
  }

  /** What std::sort demands of its comparator; without it sorting is undefined. */
  predicate StrictWeakOrder(events: seq<nat>, indexMap: map<nat, nat>) {
    && (forall a | a in events :: !Less(indexMap, a, a))
    && (forall a, b, c | a in events && b in events && c in events ::
          Less(indexMap, a, b) && Less(indexMap, b, c) ==> Less(indexMap, a, c))
    && (forall a, b, c | a in events && b in events && c in events ::
          Tied(indexMap, a, b) && Tied(indexMap, b, c) ==> Tied(indexMap, a, c))
  }

  /** The table lists the event before it repeats one. */
  predicate Listed(e: nat, table: seq<nat>) {
    e != 0 && e in table[..Usable(table)]
  }

  predicate AllListed(events: seq<nat>, table: seq<nat>) {
    forall e | e in events :: Listed(e, table)
  }

  predicate OneListed(events: seq<nat>, table: seq<nat>) {
    forall a, b | a in events && b in events && Listed(a, table) && Listed(b, table) :: a == b
  }

  /** The table lists all of the events, or no two of them. */
  predicate Sortable(events: seq<nat>, table: seq<nat>) {
    AllListed(events, table) || OneListed(events, table)
  }

  lemma ListedIsIndexed(e: nat, table: seq<nat>)
    ensures Listed(e, table) <==> e in TableIndex(table)
  {
    hide Usable, TableIndex;
    if Listed(e, table) {
      var i :| 0 <= i < Usable(table) && table[..Usable(table)][i] == e;
      assert table[i] in TableIndex(table);
    }
    if e in TableIndex(table) {
      var i := TableIndex(table)[e];
      assert table[..Usable(table)][i] == e;
    }
  }

  lemma SameIndexSameEvent(a: nat, b: nat, table: seq<nat>)
    requires a in TableIndex(table) && b in TableIndex(table)
    ensures TableIndex(table)[a] == TableIndex(table)[b] ==> a == b
  {
    hide Usable, TableIndex;
  }

  /** The comparator can be sorted by if and only if the table lists all of the events or no two of them: a missing
      event ties with both of two listed ones, which do not tie. */
  lemma SortIsDefinedExactly(events: seq<nat>, table: seq<nat>)
    ensures StrictWeakOrder(events, TableIndex(table)) <==> Sortable(events, table)
  {
    hide Usable, TableIndex, Listed;
    var m := TableIndex(table);
    forall e ensures Listed(e, table) <==> e in m { ListedIsIndexed(e, table); }
    forall a, b | a in m && b in m && m[a] == m[b] ensures a == b { SameIndexSameEvent(a, b, table); }
    if !Sortable(events, table) {
      var u :| u in events && u !in m;
      var a, b :| a in events && b in events && a in m && b in m && a != b;
      assert Tied(m, a, u) && Tied(m, u, b) && !Tied(m, a, b);
    } else if AllListed(events, table) {
      assert forall a, b | a in events && b in events && Tied(m, a, b) :: a == b;
    } else {
      assert forall a, b | a in events && b in events :: !Less(m, a, b);
    }
  }

  /** What sorting may leave: the same events, none before one that is less. Ties are in any order. */
  predicate LeftBySort(sorted: seq<nat>, events: seq<nat>, indexMap: map<nat, nat>) {
    && multiset(sorted) == multiset(events)
    && forall i, j | 0 <= i < j < |sorted| :: !Less(indexMap, sorted[j], sorted[i])
  }

  lemma RankedIsLeft(sorted: seq<nat>, events: seq<nat>, indexMap: map<nat, nat>)
    requires multiset(sorted) == multiset(events) && Ranked(sorted, indexMap) && Ordered(sorted, indexMap)
    ensures LeftBySort(sorted, events, indexMap)
  {
  }

  lemma TiedIsLeft(sorted: seq<nat>, events: seq<nat>, table: seq<nat>)
    requires multiset(sorted) == multiset(events) && Sortable(events, table) && !Ranked(events, TableIndex(table))
    ensures LeftBySort(sorted, events, TableIndex(table))
  {
    hide Usable, TableIndex, Listed;
    var m := TableIndex(table);
    forall e ensures Listed(e, table) <==> e in m { ListedIsIndexed(e, table); }
    SameElements(sorted, events);
    forall i, j | 0 <= i < j < |sorted| ensures !Less(m, sorted[j], sorted[i]) {
      assert sorted[i] in events && sorted[j] in events;
    }
  }

  /** Stands for std::sort with this comparator. */
  method SortEvents(eventVec: seq<nat>, indexMap: map<nat, nat>, ghost table: seq<nat>) returns (sorted: seq<nat>)
    requires indexMap == TableIndex(table) && StrictWeakOrder(eventVec, indexMap)
    ensures LeftBySort(sorted, eventVec, indexMap)
  {
    hide StrictWeakOrder, LeftBySort, TableIndex, Sortable, Ordered;
    if forall e | e in eventVec :: e in indexMap {
      sorted := SortByRank(eventVec, indexMap);
      RankedIsLeft(sorted, eventVec, indexMap);
    } else {
      SortIsDefinedExactly(eventVec, table);
      sorted :| multiset(sorted) == multiset(eventVec);
      TiedIsLeft(sorted, eventVec, table);
    }
  }

  /** Sorting by a comparator that allows it; if the table lists all events, their order in the table decides. */
  method GetEventIndexMap(table: seq<nat>, eventVec: seq<nat>) returns (indexMap: map<nat, nat>, sorted: seq<nat>)
    requires Sortable(eventVec, table)
    ensures Indexes(indexMap, table, Usable(table)) && indexMap == TableIndex(table)
    ensures LeftBySort(sorted, eventVec, indexMap)
    ensures Distinct(eventVec) && AllListed(eventVec, table) ==>
              (forall e | e in sorted :: e in indexMap) && InTableOrder(sorted, indexMap)
  {
    hide *;
    indexMap := IndexTable(table);
    OneIndex(indexMap, table);
    SortIsDefinedExactly(eventVec, table);
    sorted := SortEvents(eventVec, indexMap, table);
    if Distinct(eventVec) && AllListed(eventVec, table) { SortedByIndex(sorted, eventVec, table); }
  }

  /** Events that differ have different indexes, so if all have one, sorting leaves no choice. */
  lemma SortedByIndex(sorted: seq<nat>, events: seq<nat>, table: seq<nat>)
    requires Distinct(events) && AllListed(events, table) && LeftBySort(sorted, events, TableIndex(table))
    ensures (forall e | e in sorted :: e in TableIndex(table)) && InTableOrder(sorted, TableIndex(table))
  {
    hide Usable, TableIndex, Listed, Distinct;
    var m := TableIndex(table);
    SameElements(sorted, events);
    forall e | e in sorted ensures e in m { ListedIsIndexed(e, table); }
    forall i, j | 0 <= i < j < |sorted| ensures m[sorted[i]] < m[sorted[j]] {
      if sorted[i] == sorted[j] {
        TwiceInSeq(sorted, i, j);
        DistinctCount(events, sorted[i]);
      }
      assert !Less(m, sorted[j], sorted[i]);
      SameIndexSameEvent(sorted[i], sorted[j], table);
    }
  }

  lemma TwiceInSeq(s: seq<nat>, i: nat, j: nat)
    requires i < j < |s| && s[i] == s[j]
    ensures multiset(s)[s[i]] >= 2
  {
    assert s == s[..j] + [s[j]] + s[j + 1..];
    assert s[i] in s[..j];
    assert multiset(s[..j])[s[i]] >= 1;
  }

  lemma {:induction false} DistinctCount(s: seq<nat>, e: nat)
    requires Distinct(s)
    ensures multiset(s)[e] <= 1
  {
    if s != [] {
      var front, last := s[..|s| - 1], s[|s| - 1];
      assert s == front + [last];
      DistinctCount(front, e);
      if e == last { assert e !in front; assert e !in multiset(front); }
    }
  }

  // ---------------------------------------------------------------------------------------
  // The reference: groups put into rounds, first fit into the open round or a new one
  // ---------------------------------------------------------------------------------------

  type Round = seq<nat>

  /** The length of the first group: the leading events that share a table row. */
  function GroupLength(rows: seq<nat>): (n: nat)
    requires rows != []
    ensures 1 <= n <= |rows| && (forall i | 0 <= i < n :: rows[i] == rows[0])
    ensures n < |rows| ==> rows[n] != rows[n - 1]
    decreases |rows|
  {
    if |rows| == 1 || rows[1] != rows[0] then 1 else 1 + GroupLength(rows[1..])
  }

  lemma {:induction false} GroupLengthIs(rows: seq<nat>, n: nat)
    requires 1 <= n <= |rows| && (forall i | 0 < i < n :: rows[i] == rows[i - 1])
    requires n < |rows| ==> rows[n] != rows[n - 1]
    ensures GroupLength(rows) == n
    decreases |rows|
  {
    if n > 1 { GroupLengthIs(rows[1..], n - 1); }
  }

  function Groups(events: seq<nat>, rows: seq<nat>): seq<seq<nat>>
    requires |events| == |rows|
    decreases |rows|
  {
    if rows == [] then []
    else [events[..GroupLength(rows)]] + Groups(events[GroupLength(rows)..], rows[GroupLength(rows)..])
  }

  function Place(rounds: seq<Round>, group: seq<nat>, pmuMax: Positive): seq<Round> {
    if rounds != [] && |rounds[|rounds| - 1]| + |group| <= pmuMax
    then rounds[..|rounds| - 1] + [rounds[|rounds| - 1] + group]
    else rounds + [group]
  }

  function NextFit(rounds: seq<Round>, groups: seq<seq<nat>>, pmuMax: Positive): seq<Round>
    decreases |groups|
  {
    if groups == [] then rounds else NextFit(Place(rounds, groups[0], pmuMax), groups[1..], pmuMax)
  }

  /** A group that is too long for one round takes as many as it needs. */
  function Chunks(group: seq<nat>, pmuMax: Positive): seq<Round>
    decreases |group|
  {
    if |group| <= pmuMax then [group] else [group[..pmuMax]] + Chunks(group[pmuMax..], pmuMax)
  }

  function AllChunks(groups: seq<seq<nat>>, pmuMax: Positive): seq<Round>
  {
    if groups == [] then [] else Chunks(groups[0], pmuMax) + AllChunks(groups[1..], pmuMax)
  }

  function Zeros(n: nat): (r: seq<nat>)
    ensures |r| == n && forall i | 0 <= i < n :: r[i] == 0
  {
    if n == 0 then [] else Zeros(n - 1) + [0]
  }

  function Padded(round: Round, pmuMax: Positive): seq<nat> {
    if |round| < pmuMax then round + Zeros(pmuMax - |round|) else round
  }

  /** The vector handed to the driver: every round filled up with zeros. */
  function Flat(rounds: seq<Round>, pmuMax: Positive): seq<nat> {
    if rounds == [] then [] else Flat(rounds[..|rounds| - 1], pmuMax) + Padded(rounds[|rounds| - 1], pmuMax)
  }

  /** The same with the last round still open. */
  function FlatOpen(rounds: seq<Round>, pmuMax: Positive): seq<nat> {
    if rounds == [] then [] else Flat(rounds[..|rounds| - 1], pmuMax) + rounds[|rounds| - 1]
  }

  // ---------------------------------------------------------------------------------------
  // Properties of the rounds
  // ---------------------------------------------------------------------------------------

  function Concat(groups: seq<seq<nat>>): seq<nat> {
    if groups == [] then [] else groups[0] + Concat(groups[1..])
  }

  predicate FitGroup(g: seq<nat>, pmuMax: Positive) {
    g != [] && |g| <= pmuMax && 0 !in g
  }

  predicate FitGroups(groups: seq<seq<nat>>, pmuMax: Positive) {
    forall k | 0 <= k < |groups| :: FitGroup(groups[k], pmuMax)
  }

  /** No round is empty or too long. */
  predicate Filled(rounds: seq<Round>, pmuMax: Positive) {
    forall k | 0 <= k < |rounds| :: 0 < |rounds[k]| <= pmuMax
  }

  /** Two rounds in a row hold more events than one round can take. */
  predicate Dense(rounds: seq<Round>, pmuMax: Positive) {
    forall r | 0 <= r < |rounds| - 1 :: |rounds[r]| + |rounds[r + 1]| > pmuMax
  }

  /** Table rows increase from round to round, so no row is spread over two rounds. */
  predicate RowsApart(rounds: seq<Round>, row: map<nat, nat>) {
    && (forall r, e | 0 <= r < |rounds| && e in rounds[r] :: e in row)
    && (forall q, r, e, f | 0 <= q < r < |rounds| && e in rounds[q] && f in rounds[r] :: row[e] < row[f])
  }

  /** All events of a group are of one row. */
  predicate OneRow(g: seq<nat>, row: map<nat, nat>, x: nat) {
    forall e | e in g :: e in row && row[e] == x
  }

  lemma {:induction false} ConcatAppend(a: seq<seq<nat>>, b: seq<seq<nat>>)
    ensures Concat(a + b) == Concat(a) + Concat(b)
  {
    if a == [] {
      assert a + b == b;
    } else {
      assert (a + b)[1..] == a[1..] + b;
      ConcatAppend(a[1..], b);
    }
  }

  lemma ConcatOne(g: seq<nat>)
    ensures Concat([g]) == g
  {
    var none: seq<seq<nat>> := [];
    assert [g][1..] == none;
    assert g + Concat(none) == g;
  }

  lemma PlaceKeepsEvents(rounds: seq<Round>, g: seq<nat>, pmuMax: Positive)
    ensures Concat(Place(rounds, g, pmuMax)) == Concat(rounds) + g
  {
    ConcatOne(g);
    if rounds != [] && |rounds[|rounds| - 1]| + |g| <= pmuMax {
      var front, last := rounds[..|rounds| - 1], rounds[|rounds| - 1];
      assert rounds == front + [last];
      ConcatOne(last);
      ConcatOne(last + g);
      ConcatAppend(front, [last]);
      ConcatAppend(front, [last + g]);
    } else {
      ConcatAppend(rounds, [g]);
    }
  }

  lemma NextFitCons(rounds: seq<Round>, g: seq<nat>, groups: seq<seq<nat>>, pmuMax: Positive)
    ensures NextFit(rounds, [g] + groups, pmuMax) == NextFit(Place(rounds, g, pmuMax), groups, pmuMax)
  {
    assert ([g] + groups)[1..] == groups;
  }

  lemma {:induction false} NextFitKeepsEvents(rounds: seq<Round>, groups: seq<seq<nat>>, pmuMax: Positive)
    ensures Concat(NextFit(rounds, groups, pmuMax)) == Concat(rounds) + Concat(groups)
    decreases |groups|
  {
    hide *;
    if groups == [] {
      NextFitOfNothing(rounds, pmuMax);
      ConcatNothing();
    } else {
      var g, rest := groups[0], groups[1..];
      assert groups == [g] + rest;
      NextFitCons(rounds, g, rest, pmuMax);
      PlaceKeepsEvents(rounds, g, pmuMax);
      NextFitKeepsEvents(Place(rounds, g, pmuMax), rest, pmuMax);
      ConcatCons(g, rest);
      assert (Concat(rounds) + g) + Concat(rest) == Concat(rounds) + (g + Concat(rest));
    }
  }

  lemma {:induction false} NextFitRounds(rounds: seq<Round>, groups: seq<seq<nat>>, pmuMax: Positive)
    requires FitGroups(rounds, pmuMax) && Dense(rounds, pmuMax) && FitGroups(groups, pmuMax)
    ensures var r := NextFit(rounds, groups, pmuMax);
            FitGroups(r, pmuMax) && Dense(r, pmuMax) && |rounds| <= |r| <= |rounds| + |groups|
    decreases |groups|
  {
    if groups != [] {
      assert FitGroup(groups[0], pmuMax);
      forall k | 0 <= k < |groups[1..]| ensures FitGroup(groups[1..][k], pmuMax) {
        assert groups[1..][k] == groups[k + 1];
      }
      PlaceRounds(rounds, groups[0], pmuMax);
      NextFitRounds(Place(rounds, groups[0], pmuMax), groups[1..], pmuMax);
    }
  }

  lemma PlaceRounds(rounds: seq<Round>, g: seq<nat>, pmuMax: Positive)
    requires FitGroups(rounds, pmuMax) && Dense(rounds, pmuMax) && FitGroup(g, pmuMax)
    ensures FitGroups(Place(rounds, g, pmuMax), pmuMax) && Dense(Place(rounds, g, pmuMax), pmuMax)
  {
    var placed := Place(rounds, g, pmuMax);
    if |placed| == |rounds| { assert FitGroup(rounds[|rounds| - 1], pmuMax); }
    forall k | 0 <= k < |placed| ensures FitGroup(placed[k], pmuMax) {
      if k < |rounds| { assert FitGroup(rounds[k], pmuMax); }
    }
  }

  predicate RowsIncrease(groups: seq<seq<nat>>, row: map<nat, nat>, rows: seq<nat>) {
    && |rows| == |groups|
    && (forall k | 0 <= k < |groups| :: OneRow(groups[k], row, rows[k]))
    && (forall j, k | 0 <= j < k < |rows| :: rows[j] < rows[k])
  }

  predicate RowsBelow(rounds: seq<Round>, row: map<nat, nat>, x: nat) {
    forall r, e | 0 <= r < |rounds| && e in rounds[r] :: e in row && row[e] < x
  }

  lemma PlaceRowsApart(rounds: seq<Round>, g: seq<nat>, pmuMax: Positive, row: map<nat, nat>, x: nat)
    requires RowsApart(rounds, row) && RowsBelow(rounds, row, x) && OneRow(g, row, x)
    ensures RowsApart(Place(rounds, g, pmuMax), row)
    ensures forall y | x < y :: RowsBelow(Place(rounds, g, pmuMax), row, y)
  {
    var n := |rounds|;
    if n > 0 && |rounds[n - 1]| + |g| <= pmuMax {
      AppendApart(rounds[..n - 1], rounds[n - 1], g, row, x);
    } else {
      RoundApart(rounds, g, row, x);
    }
  }

  lemma RoundApart(rounds: seq<Round>, g: seq<nat>, row: map<nat, nat>, x: nat)
    requires RowsApart(rounds, row) && RowsBelow(rounds, row, x) && OneRow(g, row, x)
    ensures RowsApart(rounds + [g], row) && forall y | x < y :: RowsBelow(rounds + [g], row, y)
  {
  }

  lemma AppendApart(front: seq<Round>, last: Round, g: seq<nat>, row: map<nat, nat>, x: nat)
    requires RowsApart(front + [last], row) && RowsBelow(front + [last], row, x) && OneRow(g, row, x)
    ensures RowsApart(front + [last + g], row) && forall y | x < y :: RowsBelow(front + [last + g], row, y)
  {
    var all, n := front + [last], |front|;
    assert all[n] == last && forall r | 0 <= r < n :: all[r] == front[r];
    assert forall e | e in last + g :: e in row && row[e] <= x && (e in all[n] || row[e] == x);
  }

  lemma {:induction false} NextFitRowsApart(rounds: seq<Round>, groups: seq<seq<nat>>, pmuMax: Positive,
                                            row: map<nat, nat>, rows: seq<nat>)
    requires RowsApart(rounds, row) && RowsIncrease(groups, row, rows)
    requires groups != [] ==> RowsBelow(rounds, row, rows[0])
    ensures RowsApart(NextFit(rounds, groups, pmuMax), row)
    decreases |groups|
  {
    if groups != [] {
      PlaceRowsApart(rounds, groups[0], pmuMax, row, rows[0]);
      forall k | 0 <= k < |groups[1..]| ensures OneRow(groups[1..][k], row, rows[1..][k]) {
        assert OneRow(groups[k + 1], row, rows[k + 1]);
      }
      NextFitRowsApart(Place(rounds, groups[0], pmuMax), groups[1..], pmuMax, row, rows[1..]);
    }
  }

  /** How good the packing is: any way of measuring the same number of events in `other` rounds
      bounds the rounds used here by 2 * other - 1. */
  lemma AtMostTwiceTheOptimum(rounds: seq<Round>, pmuMax: Positive, other: nat)
    requires FitGroups(rounds, pmuMax) && Dense(rounds, pmuMax) && rounds != []
    requires |Concat(rounds)| <= other * pmuMax
    ensures |rounds| <= 2 * other - 1
  {
    DenseHoldsMany(rounds, pmuMax);
    var n := |rounds|;
    assert FitGroup(rounds[0], pmuMax);
    assert (n / 2) * pmuMax < other * pmuMax;
    FactorOrder(n / 2, other, pmuMax);
  }

  lemma {:induction false} DenseHoldsMany(rounds: seq<Round>, pmuMax: Positive)
    requires FitGroups(rounds, pmuMax) && Dense(rounds, pmuMax)
    ensures |Concat(rounds)| >= (|rounds| / 2) * pmuMax + (if rounds == [] then 0 else 1)
    decreases |rounds|
  {
    if |rounds| == 1 {
      assert FitGroup(rounds[0], pmuMax);
    } else if |rounds| >= 2 {
      var rest := rounds[2..];
      forall k | 0 <= k < |rest| ensures FitGroup(rest[k], pmuMax) { assert FitGroup(rounds[k + 2], pmuMax); }
      forall r | 0 <= r < |rest| - 1 ensures |rest[r]| + |rest[r + 1]| > pmuMax {
        assert |rounds[r + 2]| + |rounds[r + 3]| > pmuMax;
      }
      DenseHoldsMany(rest, pmuMax);
      assert |rounds[0]| + |rounds[0 + 1]| > pmuMax;
      assert rounds[1..][1..] == rest;
      assert Concat(rounds) == rounds[0] + (rounds[1] + Concat(rest));
      assert |rounds| / 2 == |rest| / 2 + 1;
      assert (|rest| / 2 + 1) * pmuMax == (|rest| / 2) * pmuMax + pmuMax;
    }
  }

  // ---------------------------------------------------------------------------------------
  // Groups of table-ordered events
  // ---------------------------------------------------------------------------------------

  predicate Increasing(s: seq<nat>) {
    forall i, j | 0 <= i < j < |s| :: s[i] < s[j]
  }

  function RowsOf(indexes: seq<nat>, pmuMax: Positive): (r: seq<nat>)
    ensures |r| == |indexes| && forall k | 0 <= k < |r| :: r[k] == indexes[k] / pmuMax
  {
    if indexes == [] then [] else [indexes[0] / pmuMax] + RowsOf(indexes[1..], pmuMax)
  }

  lemma RowsOfSuffix(indexes: seq<nat>, pmuMax: Positive, n: nat)
    requires n <= |indexes|
    ensures RowsOf(indexes[n..], pmuMax) == RowsOf(indexes, pmuMax)[n..]
  {
  }

  /** The row of each group. */
  function GroupRows(rows: seq<nat>): seq<nat>
    decreases |rows|
  {
    if rows == [] then [] else [rows[0]] + GroupRows(rows[GroupLength(rows)..])
  }

  lemma {:induction false} GroupsConcat(events: seq<nat>, rows: seq<nat>)
    requires |events| == |rows|
    ensures Concat(Groups(events, rows)) == events
    decreases |rows|
  {
    hide *;
    if rows != [] {
      GroupsUnfold(events, rows);
      var n := GroupLength(rows);
      GroupsConcat(events[n..], rows[n..]);
      ConcatCons(events[..n], Groups(events[n..], rows[n..]));
      assert events == events[..n] + events[n..];
    } else {
      GroupsOfNothing(events, rows);
      ConcatNothing();
    }
  }

  lemma ConcatNothing()
    ensures Concat([]) == []
  {
  }

  lemma ConcatCons(g: seq<nat>, groups: seq<seq<nat>>)
    ensures Concat([g] + groups) == g + Concat(groups)
  {
    assert ([g] + groups)[1..] == groups;
  }

  /** At most pmuMax increasing indexes fall into one row. */
  lemma {:induction false} IncreasingSpread(s: seq<nat>, k: nat)
    requires Increasing(s) && k < |s|
    ensures s[k] >= s[0] + k
  {
    if k > 0 { IncreasingSpread(s, k - 1); }
  }

  lemma GroupSize(indexes: seq<nat>, pmuMax: Positive)
    requires indexes != [] && Increasing(indexes)
    ensures GroupLength(RowsOf(indexes, pmuMax)) <= pmuMax
  {
    hide GroupLength, RowsOf;
    var rows := RowsOf(indexes, pmuMax);
    var n := GroupLength(rows);
    IncreasingSpread(indexes, n - 1);
    assert rows[n - 1] == rows[0];
    SameQuotient(indexes[0], indexes[n - 1], pmuMax);
  }

  lemma {:induction false} GroupsFit(events: seq<nat>, indexes: seq<nat>, pmuMax: Positive)
    requires |events| == |indexes| && Increasing(indexes) && 0 !in events
    ensures FitGroups(Groups(events, RowsOf(indexes, pmuMax)), pmuMax)
    decreases |events|
  {
    if events != [] {
      hide GroupLength, RowsOf, FitGroup;
      var rows := RowsOf(indexes, pmuMax);
      var n := GroupLength(rows);
      GroupSize(indexes, pmuMax);
      RowsOfSuffix(indexes, pmuMax, n);
      assert 0 !in events[n..];
      GroupsFit(events[n..], indexes[n..], pmuMax);
      FirstGroupFits(events, n, pmuMax);
      FitGroupsCons(events[..n], Groups(events[n..], rows[n..]), pmuMax);
    }
  }

  lemma FirstGroupFits(events: seq<nat>, n: nat, pmuMax: Positive)
    requires 0 < n <= |events| && n <= pmuMax && 0 !in events
    ensures FitGroup(events[..n], pmuMax)
  {
    assert 0 !in events[..n];
  }

  lemma FitGroupsCons(g: seq<nat>, groups: seq<seq<nat>>, pmuMax: Positive)
    requires FitGroup(g, pmuMax) && FitGroups(groups, pmuMax)
    ensures FitGroups([g] + groups, pmuMax)
  {
    hide FitGroup;
    forall k | 0 <= k < |groups| + 1 ensures FitGroup(([g] + groups)[k], pmuMax) {
      if k > 0 { assert FitGroup(groups[k - 1], pmuMax); }
    }
  }

  predicate RowMap(events: seq<nat>, rows: seq<nat>, row: map<nat, nat>) {
    |events| == |rows| && forall k | 0 <= k < |events| :: events[k] in row && row[events[k]] == rows[k]
  }

  predicate NonDecreasing(rows: seq<nat>) {
    forall i, j | 0 <= i < j < |rows| :: rows[i] <= rows[j]
  }

  lemma RowMapSuffix(events: seq<nat>, rows: seq<nat>, row: map<nat, nat>, n: nat)
    requires RowMap(events, rows, row) && NonDecreasing(rows) && n <= |rows|
    ensures RowMap(events[n..], rows[n..], row) && NonDecreasing(rows[n..])
  {
    forall k | 0 <= k < |rows[n..]| ensures events[n..][k] in row && row[events[n..][k]] == rows[n..][k] {
      assert events[n + k] in row;
    }
  }

  /** After the first group only higher rows are left. */
  lemma LaterRows(rows: seq<nat>, n: nat)
    requires rows != [] && n == GroupLength(rows) && NonDecreasing(rows)
    ensures forall x | x in rows[n..] :: rows[0] < x && x in rows
  {
    hide GroupLength;
    forall x | x in rows[n..] ensures rows[0] < x && x in rows {
      var j :| 0 <= j < |rows[n..]| && rows[n..][j] == x;
      assert rows[n + j] == x;
      assert rows[n - 1] == rows[0] && rows[n] != rows[n - 1];
      assert rows[n - 1] <= rows[n] <= rows[n + j];
    }
  }

  lemma FirstGroupRow(events: seq<nat>, rows: seq<nat>, row: map<nat, nat>, n: nat)
    requires RowMap(events, rows, row) && rows != [] && n == GroupLength(rows)
    ensures OneRow(events[..n], row, rows[0])
  {
    hide GroupLength;
    forall e | e in events[..n] ensures e in row && row[e] == rows[0] {
      var j :| 0 <= j < n && events[j] == e;
    }
  }

  lemma {:induction false} GroupsIncrease(events: seq<nat>, rows: seq<nat>, row: map<nat, nat>)
    requires RowMap(events, rows, row) && NonDecreasing(rows)
    ensures RowsIncrease(Groups(events, rows), row, GroupRows(rows))
    ensures forall k | 0 <= k < |GroupRows(rows)| :: GroupRows(rows)[k] in rows
    decreases |rows|
  {
    if rows != [] {
      hide GroupLength, RowMap, OneRow;
      var n := GroupLength(rows);
      RowMapSuffix(events, rows, row, n);
      RowMapLength(events, rows, row);
      GroupsIncrease(events[n..], rows[n..], row);
      LaterRows(rows, n);
      FirstGroupRow(events, rows, row, n);
      RowsIncreaseCons(events[..n], rows[0], Groups(events[n..], rows[n..]), GroupRows(rows[n..]), row);
    }
  }

  lemma RowMapLength(events: seq<nat>, rows: seq<nat>, row: map<nat, nat>)
    requires RowMap(events, rows, row)
    ensures |events| == |rows|
  {
  }

  lemma RowsIncreaseCons(g: seq<nat>, x: nat, groups: seq<seq<nat>>, rows: seq<nat>, row: map<nat, nat>)
    requires OneRow(g, row, x) && RowsIncrease(groups, row, rows) && forall k | 0 <= k < |rows| :: x < rows[k]
    ensures RowsIncrease([g] + groups, row, [x] + rows)
  {
    hide OneRow;
    forall k | 0 <= k < |groups| + 1 ensures OneRow(([g] + groups)[k], row, ([x] + rows)[k]) {
      if k > 0 { assert OneRow(groups[k - 1], row, rows[k - 1]); }
    }
  }

  // ---------------------------------------------------------------------------------------
  // From rounds to the flat vector
  // ---------------------------------------------------------------------------------------

  predicate Slim(rounds: seq<Round>, pmuMax: Positive) {
    forall r | 0 <= r < |rounds| :: |rounds[r]| <= pmuMax
  }

  lemma PaddedLength(round: Round, pmuMax: Positive)
    requires |round| <= pmuMax
    ensures |Padded(round, pmuMax)| == pmuMax
  {
  }

  lemma FlatOfMore(rounds: seq<Round>, pmuMax: Positive)
    requires rounds != []
    ensures Flat(rounds, pmuMax) == Flat(rounds[..|rounds| - 1], pmuMax) + Padded(rounds[|rounds| - 1], pmuMax)
  {
  }

  lemma {:induction false} FlatLength(rounds: seq<Round>, pmuMax: Positive)
    requires Slim(rounds, pmuMax)
    ensures |Flat(rounds, pmuMax)| == |rounds| * pmuMax
  {
    if rounds != [] {
      var n := |rounds| - 1;
      FlatOfMore(rounds, pmuMax);
      hide Flat;
      FlatLength(rounds[..n], pmuMax);
      PaddedLength(rounds[n], pmuMax);
      OneMore(n, pmuMax);
    }
  }

  /** Entry i of the vector is entry i % pmuMax of round i / pmuMax. */
  lemma {:induction false} FlatAt(rounds: seq<Round>, pmuMax: Positive, i: nat)
    requires Slim(rounds, pmuMax) && i < |rounds| * pmuMax
    ensures |Flat(rounds, pmuMax)| == |rounds| * pmuMax && 0 <= i / pmuMax < |rounds|
    ensures |Padded(rounds[i / pmuMax], pmuMax)| == pmuMax
    ensures Flat(rounds, pmuMax)[i] == Padded(rounds[i / pmuMax], pmuMax)[i % pmuMax]
  {
    var n := |rounds| - 1;
    var front, last := rounds[..n], rounds[n];
    FlatLength(rounds, pmuMax);
    FlatLength(front, pmuMax);
    FlatOfMore(rounds, pmuMax);
    hide Flat;
    OneMore(n, pmuMax);
    PaddedLength(last, pmuMax);
    if i < n * pmuMax {
      FlatAt(front, pmuMax, i);
      assert front[i / pmuMax] == rounds[i / pmuMax];
    } else {
      DivMod(i, pmuMax, n, i - n * pmuMax);
    }
  }

  /** The entries that are events. */
  function NonZero(s: seq<nat>): seq<nat> {
    if s == [] then [] else (if s[0] != 0 then [s[0]] else []) + NonZero(s[1..])
  }

  lemma {:induction false} NonZeroConcat(a: seq<nat>, b: seq<nat>)
    ensures NonZero(a + b) == NonZero(a) + NonZero(b)
  {
    if a == [] {
      assert a + b == b;
    } else {
      assert (a + b)[1..] == a[1..] + b;
      NonZeroConcat(a[1..], b);
    }
  }

  lemma {:induction false} NonZeroOfZeros(n: nat)
    ensures NonZero(Zeros(n)) == []
  {
    if n > 0 {
      NonZeroConcat(Zeros(n - 1), [0]);
      NonZeroOfZeros(n - 1);
      assert NonZero([0]) == [];
    }
  }

  lemma {:induction false} NonZeroOfEvents(s: seq<nat>)
    requires 0 !in s
    ensures NonZero(s) == s
  {
    if s != [] {
      assert s[0] in s && 0 !in s[1..];
      NonZeroOfEvents(s[1..]);
    }
  }

  lemma NonZeroPadded(round: Round, pmuMax: Positive)
    requires 0 !in round
    ensures NonZero(Padded(round, pmuMax)) == round
  {
    NonZeroOfEvents(round);
    if |round| < pmuMax {
      NonZeroConcat(round, Zeros(pmuMax - |round|));
      NonZeroOfZeros(pmuMax - |round|);
    }
  }

  lemma {:induction false} FlatKeepsEvents(rounds: seq<Round>, pmuMax: Positive)
    requires FitGroups(rounds, pmuMax)
    ensures NonZero(Flat(rounds, pmuMax)) == Concat(rounds)
  {
    hide *;
    if rounds == [] {
      FlatOfNothing(pmuMax);
    } else {
      FitGroupsSplit(rounds, pmuMax);
      var front, last := rounds[..|rounds| - 1], rounds[|rounds| - 1];
      FlatKeepsEvents(front, pmuMax);
      FlatOfMore(rounds, pmuMax);
      NonZeroConcat(Flat(front, pmuMax), Padded(last, pmuMax));
      NonZeroPadded(last, pmuMax);
      ConcatAppend(front, [last]);
      ConcatOne(last);
      assert rounds == front + [last];
    }
  }

  lemma FlatOfNothing(pmuMax: Positive)
    ensures NonZero(Flat([], pmuMax)) == Concat([])
  {
  }

  lemma FitGroupsSplit(rounds: seq<Round>, pmuMax: Positive)
    requires FitGroups(rounds, pmuMax) && rounds != []
    ensures FitGroups(rounds[..|rounds| - 1], pmuMax) && 0 !in rounds[|rounds| - 1]
  {
    hide FitGroup;
    var front := rounds[..|rounds| - 1];
    forall k | 0 <= k < |front| ensures FitGroup(front[k], pmuMax) {
      assert FitGroup(rounds[k], pmuMax);
    }
    LastFits(rounds, pmuMax);
  }

  lemma LastFits(rounds: seq<Round>, pmuMax: Positive)
    requires FitGroups(rounds, pmuMax) && rounds != []
    ensures 0 !in rounds[|rounds| - 1]
  {
    assert FitGroup(rounds[|rounds| - 1], pmuMax);
  }

  // ---------------------------------------------------------------------------------------
  // Filling the result array
  // ---------------------------------------------------------------------------------------

  /** The array holds `content` and then nothing but zeros. */
  predicate Holds(res: seq<nat>, content: seq<nat>) {
    && |content| <= |res| && res[..|content|] == content
    && forall k | |content| <= k < |res| :: res[k] == 0
  }

  method CopyGroup(resVec: array<nat>, from: nat, events: seq<nat>, first: nat, end: nat, ghost content: seq<nat>)
    returns (resVecIndex: nat, start: nat)
    requires first <= end <= |events| && from + (end - first) <= resVec.Length
    requires Holds(resVec[..], content) && from == |content|
    modifies resVec
    ensures start == end && resVecIndex == |content + events[first..end]|
    ensures Holds(resVec[..], content + events[first..end])
  {
    resVecIndex, start := from, first;
    while start < end
      invariant first <= start <= end && resVecIndex == from + (start - first)
      invariant resVec[..from] == content
      invariant forall k | from <= k < resVecIndex :: resVec[k] == events[first + (k - from)]
      invariant forall k | resVecIndex <= k < resVec.Length :: resVec[k] == 0
    {
      resVec[resVecIndex] := events[start];
      resVecIndex, start := resVecIndex + 1, start + 1;
    }
    assert resVec[..resVecIndex] == content + events[first..end];
  }

  /** Moving on to the next round makes the gap part of the padding. */
  lemma RoundUp(res: seq<nat>, rounds: seq<Round>, pmuMax: Positive)
    requires Filled(rounds, pmuMax)
    requires Holds(res, FlatOpen(rounds, pmuMax)) && |rounds| * pmuMax <= |res|
    ensures |Flat(rounds, pmuMax)| == |rounds| * pmuMax && Holds(res, Flat(rounds, pmuMax))
  {
    FlatLength(rounds, pmuMax);
    if rounds != [] {
      var n := |rounds| - 1;
      FlatOfMore(rounds, pmuMax);
      var front, last := Flat(rounds[..n], pmuMax), rounds[n];
      assert FlatOpen(rounds, pmuMax) == front + last;
      hide Flat, FlatOpen;
      PaddedTail(res, front, last, pmuMax);
    }
  }

  lemma PaddedTail(res: seq<nat>, front: seq<nat>, last: Round, pmuMax: Positive)
    requires Holds(res, front + last) && |last| <= pmuMax && |front| + pmuMax <= |res|
    ensures Holds(res, front + Padded(last, pmuMax))
  {
    var whole := front + Padded(last, pmuMax);
    assert |whole| == |front| + pmuMax;
    forall k | 0 <= k < |whole| ensures res[k] == whole[k] {
      if k < |front + last| { assert res[..|front + last|][k] == (front + last)[k]; }
    }
    assert res[..|whole|] == whole;
  }

  lemma FitsAreFilled(rounds: seq<Round>, pmuMax: Positive)
    requires FitGroups(rounds, pmuMax)
    ensures Filled(rounds, pmuMax) && Slim(rounds, pmuMax)
  {
    forall r | 0 <= r < |rounds| ensures 0 < |rounds[r]| <= pmuMax { assert FitGroup(rounds[r], pmuMax); }
  }

  /** What the index says: the next free place of the open round, and where the next round begins. */
  lemma OpenLength(rounds: seq<Round>, pmuMax: Positive)
    requires Filled(rounds, pmuMax)
    ensures var used := |FlatOpen(rounds, pmuMax)|;
            && GetUpNumCanDivisibleByX(used, pmuMax) == |rounds| * pmuMax
            && used == |rounds| * pmuMax - (if rounds == [] then 0 else pmuMax - |rounds[|rounds| - 1]|)
  {
    if rounds != [] {
      var n := |rounds| - 1;
      FlatLength(rounds[..n], pmuMax);
      OneMore(n, pmuMax);
      hide GetUpNumCanDivisibleByX;
      var used := |FlatOpen(rounds, pmuMax)|;
      UniqueCeiling(used, pmuMax, GetUpNumCanDivisibleByX(used, pmuMax), |rounds|);
    }
  }

  lemma UniqueCeiling(used: nat, x: nat, up: nat, n: nat)
    requires x > 0 && up % x == 0 && used <= up < used + x && used <= n * x < used + x
    ensures up == n * x
  {
    var q := up / x;
    assert up == q * x;
    assert (q - n) * x == q * x - n * x;
    SmallMultiple(q - n, x);
  }

  lemma FlatOpenOf(front: seq<Round>, last: Round, pmuMax: Positive)
    ensures FlatOpen(front + [last], pmuMax) == Flat(front, pmuMax) + last
  {
    assert (front + [last])[..|front|] == front;
  }

  lemma FlatOpenPlaced(rounds: seq<Round>, g: seq<nat>, pmuMax: Positive)
    ensures FlatOpen(Place(rounds, g, pmuMax), pmuMax) ==
            (if rounds != [] && |rounds[|rounds| - 1]| + |g| <= pmuMax then FlatOpen(rounds, pmuMax)
             else Flat(rounds, pmuMax)) + g
  {
    hide Flat, FlatOpen;
    if rounds != [] && |rounds[|rounds| - 1]| + |g| <= pmuMax {
      var front, last := rounds[..|rounds| - 1], rounds[|rounds| - 1];
      assert rounds == front + [last];
      FlatOpenOf(front, last, pmuMax);
      FlatOpenOf(front, last + g, pmuMax);
      assert (Flat(front, pmuMax) + last) + g == Flat(front, pmuMax) + (last + g);
    } else {
      FlatOpenOf(rounds, g, pmuMax);
    }
  }

  /** Reading the map at an event it does not know puts it at index 0. */
  function IndexOf(indexMap: map<nat, nat>, e: nat): nat {
    if e in indexMap then indexMap[e] else 0
  }

  function IndexesOf(events: seq<nat>, indexMap: map<nat, nat>): (r: seq<nat>)
    ensures |r| == |events| && forall k | 0 <= k < |r| :: r[k] == IndexOf(indexMap, events[k])
  {
    if events == [] then [] else [IndexOf(indexMap, events[0])] + IndexesOf(events[1..], indexMap)
  }

  // ---------------------------------------------------------------------------------------
  // Placing a group of any length
  // ---------------------------------------------------------------------------------------

  predicate FitsOpen(rounds: seq<Round>, g: seq<nat>, pmuMax: Positive) {
    rounds != [] && |rounds[|rounds| - 1]| + |g| <= pmuMax
  }

  lemma {:induction false} NextFitAppend(rounds: seq<Round>, a: seq<seq<nat>>, b: seq<seq<nat>>, pmuMax: Positive)
    ensures NextFit(rounds, a + b, pmuMax) == NextFit(NextFit(rounds, a, pmuMax), b, pmuMax)
    decreases |a|
  {
    hide Place;
    if a == [] {
      assert a + b == b;
    } else {
      assert (a + b)[1..] == a[1..] + b && (a + b)[0] == a[0];
      NextFitAppend(Place(rounds, a[0], pmuMax), a[1..], b, pmuMax);
    }
  }

  lemma NextFitOne(rounds: seq<Round>, g: seq<nat>, pmuMax: Positive)
    ensures NextFit(rounds, [g], pmuMax) == Place(rounds, g, pmuMax)
  {
    var none: seq<seq<nat>> := [];
    NextFitCons(rounds, g, none, pmuMax);
    assert [g] + none == [g];
  }

  lemma PlaceFilled(rounds: seq<Round>, g: seq<nat>, pmuMax: Positive)
    requires Filled(rounds, pmuMax) && 0 < |g| <= pmuMax
    ensures Filled(Place(rounds, g, pmuMax), pmuMax)
  {
  }

  /** A group that does not fit into the open round starts the next one and runs on from there. */
  lemma {:induction false} NewRounds(rounds: seq<Round>, g: seq<nat>, pmuMax: Positive)
    requires Filled(rounds, pmuMax) && g != [] && !FitsOpen(rounds, g, pmuMax)
    ensures var r := NextFit(rounds, Chunks(g, pmuMax), pmuMax);
            Filled(r, pmuMax) && FlatOpen(r, pmuMax) == Flat(rounds, pmuMax) + g
    decreases |g|
  {
    hide Flat, FlatOpen, NextFit;
    if |g| <= pmuMax {
      NextFitOne(rounds, g, pmuMax);
      PlaceFilled(rounds, g, pmuMax);
      FlatOpenPlaced(rounds, g, pmuMax);
    } else {
      var head, rest := g[..pmuMax], g[pmuMax..];
      assert g == head + rest;
      NextFitCons(rounds, head, Chunks(rest, pmuMax), pmuMax);
      var more := rounds + [head];
      assert Place(rounds, head, pmuMax) == more;
      PlaceFilled(rounds, head, pmuMax);
      NewRounds(more, rest, pmuMax);
      FlatOfMore(more, pmuMax);
      assert more[..|more| - 1] == rounds;
      assert (Flat(rounds, pmuMax) + head) + rest == Flat(rounds, pmuMax) + g;
    }
  }

  /** Where the events of a group end up, and that the rounds stay in shape. */
  lemma GroupPlaced(rounds: seq<Round>, g: seq<nat>, pmuMax: Positive)
    requires Filled(rounds, pmuMax) && g != []
    ensures var r := NextFit(rounds, Chunks(g, pmuMax), pmuMax);
            && Filled(r, pmuMax)
            && FlatOpen(r, pmuMax) ==
               (if FitsOpen(rounds, g, pmuMax) then FlatOpen(rounds, pmuMax) else Flat(rounds, pmuMax)) + g
  {
    hide Flat, FlatOpen, NextFit;
    if FitsOpen(rounds, g, pmuMax) {
      NextFitOne(rounds, g, pmuMax);
      PlaceFilled(rounds, g, pmuMax);
      FlatOpenPlaced(rounds, g, pmuMax);
    } else {
      NewRounds(rounds, g, pmuMax);
    }
  }

  /** The next index and what it says: a group that does not fit into what is left of the open round starts the next. */
  function NextUsed(used: nat, size: nat, pmuMax: Positive): nat {
    var up := GetUpNumCanDivisibleByX(used, pmuMax);
    (if up - used < size then up else used) + size
  }

  lemma UsedAfter(rounds: seq<Round>, g: seq<nat>, pmuMax: Positive)
    requires Filled(rounds, pmuMax) && g != []
    ensures var used := |FlatOpen(rounds, pmuMax)|;
            && GetUpNumCanDivisibleByX(used, pmuMax) == |Flat(rounds, pmuMax)| == |rounds| * pmuMax
            && (GetUpNumCanDivisibleByX(used, pmuMax) - used < |g| <==> !FitsOpen(rounds, g, pmuMax))
            && |FlatOpen(NextFit(rounds, Chunks(g, pmuMax), pmuMax), pmuMax)| == NextUsed(used, |g|, pmuMax)
  {
    hide Flat, FlatOpen, NextFit, GetUpNumCanDivisibleByX;
    OpenLength(rounds, pmuMax);
    FlatLength(rounds, pmuMax);
    GroupPlaced(rounds, g, pmuMax);
  }

  lemma {:induction false} UsedGrows(rounds: seq<Round>, groups: seq<seq<nat>>, pmuMax: Positive)
    requires Filled(rounds, pmuMax) && forall k | 0 <= k < |groups| :: groups[k] != []
    ensures var all := NextFit(rounds, AllChunks(groups, pmuMax), pmuMax);
            Filled(all, pmuMax) && |FlatOpen(all, pmuMax)| >= |FlatOpen(rounds, pmuMax)|
    decreases |groups|
  {
    hide Flat, FlatOpen, NextFit, Chunks, Filled, GetUpNumCanDivisibleByX;
    if groups == [] {
      NextFitOfNothing(rounds, pmuMax);
    } else {
      NextFitAppend(rounds, Chunks(groups[0], pmuMax), AllChunks(groups[1..], pmuMax), pmuMax);
      GroupPlaced(rounds, groups[0], pmuMax);
      UsedAfter(rounds, groups[0], pmuMax);
      UsedGrows(NextFit(rounds, Chunks(groups[0], pmuMax), pmuMax), groups[1..], pmuMax);
    }
  }

  lemma {:induction false} GroupsNotEmpty(events: seq<nat>, rows: seq<nat>)
    requires |events| == |rows|
    ensures forall k | 0 <= k < |Groups(events, rows)| :: Groups(events, rows)[k] != []
    decreases |rows|
  {
    if rows != [] {
      hide GroupLength;
      GroupsNotEmpty(events[GroupLength(rows)..], rows[GroupLength(rows)..]);
    }
  }

  /** Groups that fit into a round are not cut. */
  lemma {:induction false} NothingToCut(groups: seq<seq<nat>>, pmuMax: Positive)
    requires FitGroups(groups, pmuMax)
    ensures AllChunks(groups, pmuMax) == groups
    decreases |groups|
  {
    if groups != [] {
      assert groups == [groups[0]] + groups[1..];
      FirstOfFit(groups[0], groups[1..], pmuMax);
      NothingToCut(groups[1..], pmuMax);
    }
  }

  /** One pass of the outer loop, once the group `events[first..end]` is known. */
  method PutGroup(resVec: array<nat>, index: nat, events: seq<nat>, first: nat, end: nat, pmuMaxNum: Positive,
                  ghost rounds: seq<Round>)
    returns (resVecIndex: nat, start: nat)
    requires first < end <= |events| && Filled(rounds, pmuMaxNum)
    requires Holds(resVec[..], FlatOpen(rounds, pmuMaxNum)) && index == |FlatOpen(rounds, pmuMaxNum)|
    requires NextUsed(index, end - first, pmuMaxNum) <= resVec.Length
    modifies resVec
    ensures start == end
    ensures var open := FlatOpen(NextFit(rounds, Chunks(events[first..end], pmuMaxNum), pmuMaxNum), pmuMaxNum);
            Holds(resVec[..], open) && resVecIndex == |open|
  {
    hide Flat, FlatOpen, NextFit, Chunks, Filled, FitsOpen, Holds, GetUpNumCanDivisibleByX;
    resVecIndex, start := index, first;
    GroupPlaced(rounds, events[first..end], pmuMaxNum);
    UsedAfter(rounds, events[first..end], pmuMaxNum);
    var vacantNum := GetUpNumCanDivisibleByX(resVecIndex, pmuMaxNum) - resVecIndex;
    if vacantNum + start < end {
      RoundUp(resVec[..], rounds, pmuMaxNum);
      resVecIndex := GetUpNumCanDivisibleByX(resVecIndex, pmuMaxNum);
      resVecIndex, start := CopyGroup(resVec, resVecIndex, events, start, end, Flat(rounds, pmuMaxNum));
    } else {
      resVecIndex, start := CopyGroup(resVec, resVecIndex, events, start, end, FlatOpen(rounds, pmuMaxNum));
    }
  }

  lemma NextGroup(events: seq<nat>, rows: seq<nat>, start: nat, end: nat)
    requires |events| == |rows| && start < end <= |rows|
    requires forall k | start < k < end :: rows[k] == rows[k - 1]
    requires end < |rows| ==> rows[end] != rows[end - 1]
    ensures Groups(events[start..], rows[start..]) == [events[start..end]] + Groups(events[end..], rows[end..])
  {
    var es, rs, n := events[start..], rows[start..], end - start;
    forall i | 0 < i < n ensures rs[i] == rs[i - 1] { assert rows[start + i] == rows[start + i - 1]; }
    assert n < |rs| ==> rs[n] == rows[end] && rs[n - 1] == rows[end - 1];
    GroupLengthIs(rs, n);
    hide GroupLength;
    assert es[..n] == events[start..end] && es[n..] == events[end..] && rs[n..] == rows[end..];
    GroupsUnfold(es, rs);
  }

  lemma GroupsUnfold(events: seq<nat>, rows: seq<nat>)
    requires |events| == |rows| && rows != []
    ensures var n := GroupLength(rows);
            Groups(events, rows) == [events[..n]] + Groups(events[n..], rows[n..])
  {
    hide GroupLength;
  }

  lemma FirstOfFit(g: seq<nat>, groups: seq<seq<nat>>, pmuMax: Positive)
    requires FitGroups([g] + groups, pmuMax)
    ensures FitGroup(g, pmuMax) && FitGroups(groups, pmuMax)
  {
    hide FitGroup;
    assert ([g] + groups)[0] == g;
    forall k | 0 <= k < |groups| ensures FitGroup(groups[k], pmuMax) { assert ([g] + groups)[k + 1] == groups[k]; }
  }

  /** All rounds of one packing. */
  function Rounds(events: seq<nat>, indexes: seq<nat>, pmuMax: Positive): seq<Round>
    requires |events| == |indexes|
  {
    NextFit([], AllChunks(Groups(events, RowsOf(indexes, pmuMax)), pmuMax), pmuMax)
  }

  /** No write of the packing goes beyond the vector. */
  predicate InRoom(events: seq<nat>, indexes: seq<nat>, pmuMax: Positive, size: nat)
    requires |events| == |indexes|
  {
    |FlatOpen(Rounds(events, indexes, pmuMax), pmuMax)| <= size
  }

  /** Events in the order of a table of `bound` rows. */
  predicate Packable(events: seq<nat>, indexes: seq<nat>, pmuMax: Positive, bound: nat) {
    && |events| == |indexes| && 0 !in events && Increasing(indexes)
    && forall k | 0 <= k < |indexes| :: indexes[k] < bound * pmuMax
  }

  /** The rows of the table from which something is taken. */
  function RowsInUse(indexes: seq<nat>, pmuMax: Positive): set<nat>
  {
    set k | 0 <= k < |indexes| :: indexes[k] / pmuMax
  }

  function Elements(rows: seq<nat>): set<nat> {
    set x | x in rows
  }

  lemma PackingStart(events: seq<nat>, indexes: seq<nat>, pmuMax: Positive, bound: nat)
    requires Packable(events, indexes, pmuMax, bound)
    ensures var groups := Groups(events, RowsOf(indexes, pmuMax));
            && FitGroups(groups, pmuMax) && |groups| <= bound && |groups| <= |RowsInUse(indexes, pmuMax)|
            && Rounds(events, indexes, pmuMax) == NextFit([], groups, pmuMax)
  {
    GroupsFit(events, indexes, pmuMax);
    RowsNonDecreasing(indexes, pmuMax, bound);
    hide RowsOf;
    GroupCount(RowsOf(indexes, pmuMax), events, bound);
    GroupsPerRow(RowsOf(indexes, pmuMax), events);
    RowsAreElements(indexes, pmuMax);
    NothingToCut(Groups(events, RowsOf(indexes, pmuMax)), pmuMax);
  }

  lemma RowsNonDecreasing(indexes: seq<nat>, pmuMax: Positive, bound: nat)
    requires Increasing(indexes) && forall k | 0 <= k < |indexes| :: indexes[k] < bound * pmuMax
    ensures NonDecreasing(RowsOf(indexes, pmuMax))
    ensures forall k | 0 <= k < |indexes| :: RowsOf(indexes, pmuMax)[k] < bound
  {
    hide RowsOf;
    var rows := RowsOf(indexes, pmuMax);
    forall i, j | 0 <= i < j < |rows| ensures rows[i] <= rows[j] {
      DivMonotone(indexes[i], indexes[j], pmuMax);
    }
    forall k | 0 <= k < |rows| ensures rows[k] < bound {
      QuotientBelow(indexes[k], pmuMax, bound);
    }
  }

  lemma QuotientBelow(n: nat, x: nat, bound: nat)
    requires x > 0 && n < bound * x
    ensures n / x < bound
  {
    FactorOrder(n / x, bound, x);
  }

  /** One group per row in use. */
  lemma {:induction false} GroupCount(rows: seq<nat>, events: seq<nat>, bound: nat)
    requires |events| == |rows| && NonDecreasing(rows) && forall k | 0 <= k < |rows| :: rows[k] < bound
    ensures |Groups(events, rows)| + (if rows == [] then 0 else rows[0]) <= bound
    decreases |rows|
  {
    if rows != [] {
      var n := GroupLength(rows);
      LaterRows(rows, n);
      hide GroupLength;
      GroupCount(rows[n..], events[n..], bound);
      GroupsUnfold(events, rows);
      if n < |rows| { assert rows[n..][0] in rows[n..]; }
    }
  }

  /** Each row is one group. */
  lemma {:induction false} GroupsPerRow(rows: seq<nat>, events: seq<nat>)
    requires |events| == |rows| && NonDecreasing(rows)
    ensures |Groups(events, rows)| == |Elements(rows)|
    decreases |rows|
  {
    hide Groups, GroupLength, Elements;
    if rows == [] {
      GroupsOfNothing(events, rows);
      NoElements(rows);
    } else {
      var n := GroupLength(rows);
      LaterRows(rows, n);
      GroupsPerRow(rows[n..], events[n..]);
      GroupsUnfold(events, rows);
      ElementsSplit(rows, n);
    }
  }

  lemma NoElements(rows: seq<nat>)
    requires rows == []
    ensures Elements(rows) == {}
  {
  }

  lemma ElementsSplit(rows: seq<nat>, n: nat)
    requires 0 < n <= |rows| && (forall i | 0 <= i < n :: rows[i] == rows[0]) && rows[0] !in rows[n..]
    ensures |Elements(rows)| == 1 + |Elements(rows[n..])|
  {
    forall x ensures x in rows <==> x == rows[0] || x in rows[n..] {
      assert rows == rows[..n] + rows[n..];
    }
    assert Elements(rows) == {rows[0]} + Elements(rows[n..]);
  }

  lemma RowsAreElements(indexes: seq<nat>, pmuMax: Positive)
    ensures RowsInUse(indexes, pmuMax) == Elements(RowsOf(indexes, pmuMax))
  {
    hide RowsOf;
    var rows := RowsOf(indexes, pmuMax);
    forall x ensures x in RowsInUse(indexes, pmuMax) <==> x in rows {
      if x in rows { var k :| 0 <= k < |rows| && rows[k] == x; }
      if x in RowsInUse(indexes, pmuMax) {
        var k :| 0 <= k < |indexes| && indexes[k] / pmuMax == x;
        assert rows[k] == x;
      }
    }
  }

  /** What the outer loop keeps: `rounds` holds the events before `start`, packing the rest completes `all`. */
  ghost predicate PackingState(events: seq<nat>, rows: seq<nat>, start: nat, rounds: seq<Round>, all: seq<Round>,
                               pmuMax: Positive)
  {
    && |events| == |rows| && start <= |events| && Filled(rounds, pmuMax)
    && NextFit(rounds, AllChunks(Groups(events[start..], rows[start..]), pmuMax), pmuMax) == all
  }

  lemma PackingBegins(events: seq<nat>, indexes: seq<nat>, pmuMax: Positive, res: seq<nat>)
    requires |events| == |indexes| && forall k | 0 <= k < |res| :: res[k] == 0
    ensures |RowsOf(indexes, pmuMax)| == |events|
    ensures PackingState(events, RowsOf(indexes, pmuMax), 0, [], Rounds(events, indexes, pmuMax), pmuMax)
    ensures Holds(res, FlatOpen([], pmuMax)) && |FlatOpen([], pmuMax)| == 0
  {
    hide RowsOf, Groups, NextFit, Holds, FlatOpen;
    NothingYet(res, pmuMax);
    var rows := RowsOf(indexes, pmuMax);
    assert events[0..] == events && rows[0..] == rows;
  }

  lemma PackingStep(events: seq<nat>, rows: seq<nat>, start: nat, end: nat, rounds: seq<Round>, all: seq<Round>,
                    pmuMax: Positive)
    requires PackingState(events, rows, start, rounds, all, pmuMax)
    requires start < end <= |rows| && forall k | start < k < end :: rows[k] == rows[k - 1]
    requires end < |rows| ==> rows[end] != rows[end - 1]
    ensures Filled(rounds, pmuMax)
    ensures NextUsed(|FlatOpen(rounds, pmuMax)|, end - start, pmuMax) <= |FlatOpen(all, pmuMax)|
    ensures PackingState(events, rows, end, NextFit(rounds, Chunks(events[start..end], pmuMax), pmuMax), all, pmuMax)
  {
    hide Groups, NextFit, Chunks, Filled, FlatOpen, Flat, NextUsed;
    NextGroup(events, rows, start, end);
    var g, rest := events[start..end], Groups(events[end..], rows[end..]);
    assert ([g] + rest)[1..] == rest;
    NextFitAppend(rounds, Chunks(g, pmuMax), AllChunks(rest, pmuMax), pmuMax);
    GroupPlaced(rounds, g, pmuMax);
    UsedAfter(rounds, g, pmuMax);
    GroupsNotEmpty(events[end..], rows[end..]);
    UsedGrows(NextFit(rounds, Chunks(g, pmuMax), pmuMax), rest, pmuMax);
  }

  lemma PackingEnds(events: seq<nat>, rows: seq<nat>, rounds: seq<Round>, all: seq<Round>, pmuMax: Positive,
                    res: seq<nat>)
    requires PackingState(events, rows, |events|, rounds, all, pmuMax) && Holds(res, FlatOpen(rounds, pmuMax))
    ensures rounds == all && var up := GetUpNumCanDivisibleByX(|FlatOpen(rounds, pmuMax)|, pmuMax);
            Flat(all, pmuMax) == if up <= |res| then res[..up] else res + Zeros(up - |res|)
  {
    hide Groups, NextFit, Flat, FlatOpen, Holds, GetUpNumCanDivisibleByX, Filled;
    GroupsOfNothing(events[|events|..], rows[|events|..]);
    NextFitOfNothing(rounds, pmuMax);
    OpenLength(rounds, pmuMax);
    var up := |rounds| * pmuMax;
    var whole := if up <= |res| then res else res + Zeros(up - |res|);
    HoldsMore(res, FlatOpen(rounds, pmuMax), up);
    RoundUp(whole, rounds, pmuMax);
    HoldsPrefix(whole, Flat(rounds, pmuMax));
    assert up > |res| ==> whole[..up] == whole;
  }

  lemma HoldsMore(res: seq<nat>, content: seq<nat>, up: nat)
    requires Holds(res, content)
    ensures up > |res| ==> Holds(res + Zeros(up - |res|), content)
  {
    if up > |res| { assert (res + Zeros(up - |res|))[..|content|] == res[..|content|]; }
  }

  /** The inner loop: the end of the group that begins at `start`. */
  method GroupEnd(events: seq<nat>, indexMap: map<nat, nat>, start: nat, pmuMaxNum: Positive) returns (end: nat)
    requires start < |events|
    ensures start < end <= |events|
    ensures forall k | start < k < end ::
              IndexOf(indexMap, events[k]) / pmuMaxNum == IndexOf(indexMap, events[k - 1]) / pmuMaxNum
    ensures end < |events| ==>
              IndexOf(indexMap, events[end]) / pmuMaxNum != IndexOf(indexMap, events[end - 1]) / pmuMaxNum
  {
    hide IndexOf;
    end := start + 1;
    while end < |events|
          && IndexOf(indexMap, events[end]) / pmuMaxNum == IndexOf(indexMap, events[end - 1]) / pmuMaxNum
      invariant start < end <= |events|
      invariant forall k | start < k < end ::
                  IndexOf(indexMap, events[k]) / pmuMaxNum == IndexOf(indexMap, events[k - 1]) / pmuMaxNum
    {
      end := end + 1;
    }
  }

  /** The packing loop over the fixed-size result vector, for events in any order, with and without an index. */
  method PackEvents(events: seq<nat>, indexMap: map<nat, nat>, eventMaxNum: nat, pmuMaxNum: Positive)
    returns (packed: seq<nat>)
    requires |events| < 65535
    requires InRoom(events, IndexesOf(events, indexMap), pmuMaxNum, eventMaxNum)
    ensures packed == Flat(Rounds(events, IndexesOf(events, indexMap), pmuMaxNum), pmuMaxNum)
    ensures eventMaxNum % pmuMaxNum == 0 ==> |packed| <= eventMaxNum
  {
    hide *;
    var resVec := new nat[eventMaxNum](_ => 0);
    ghost var indexes := IndexesOf(events, indexMap);
    PackingBegins(events, indexes, pmuMaxNum, resVec[..]);
    RoomIs(events, indexes, pmuMaxNum, eventMaxNum);
    var start, end, resVecIndex := 0, 1, 0;
    ghost var rounds: seq<Round> := [];
    ghost var rows, all := RowsOf(indexes, pmuMaxNum), Rounds(events, indexes, pmuMaxNum);
    while start < |events| && events != []
      invariant start <= |events| && end == start + 1 && end <= 65535
      invariant PackingState(events, rows, start, rounds, all, pmuMaxNum)
      invariant Holds(resVec[..], FlatOpen(rounds, pmuMaxNum)) && resVecIndex == |FlatOpen(rounds, pmuMaxNum)|
    {
      end := GroupEnd(events, indexMap, start, pmuMaxNum);
      PackingStep(events, rows, start, end, rounds, all, pmuMaxNum);
      ghost var g := events[start..end];
      resVecIndex, start := PutGroup(resVec, resVecIndex, events, start, end, pmuMaxNum, rounds);
      rounds := NextFit(rounds, Chunks(g, pmuMaxNum), pmuMaxNum);
      end := end + 1;
    }
    PackingEnds(events, rows, rounds, all, pmuMaxNum, resVec[..]);
    CeilingInside(resVecIndex, pmuMaxNum, eventMaxNum);
    resVecIndex := GetUpNumCanDivisibleByX(resVecIndex, pmuMaxNum);
    packed := if resVecIndex <= eventMaxNum then resVec[..resVecIndex]
              else resVec[..] + Zeros(resVecIndex - eventMaxNum);
  }

  lemma RoomIs(events: seq<nat>, indexes: seq<nat>, pmuMax: Positive, size: nat)
    requires |events| == |indexes| && InRoom(events, indexes, pmuMax, size)
    ensures |FlatOpen(Rounds(events, indexes, pmuMax), pmuMax)| <= size
  {
  }

  lemma CeilingInside(used: nat, x: nat, size: nat)
    requires x > 0 && used <= size
    ensures size % x == 0 ==> GetUpNumCanDivisibleByX(used, x) <= size
  {
    hide GetUpNumCanDivisibleByX;
    var up := GetUpNumCanDivisibleByX(used, x);
    if size % x == 0 && up > size {
      var d := up / x - size / x;
      assert d * x == (up / x) * x - (size / x) * x == up - size;
      SmallMultiple(d, x);
    }
  }

  lemma NothingYet(res: seq<nat>, pmuMax: Positive)
    requires forall k | 0 <= k < |res| :: res[k] == 0
    ensures Holds(res, FlatOpen([], pmuMax)) && |FlatOpen([], pmuMax)| == 0
    ensures Filled([], pmuMax) && FitGroups([], pmuMax) && Dense([], pmuMax)
  {
  }

  lemma RoomLeft(n: nat, bound: nat, pmuMax: Positive, size: nat)
    requires n <= bound && bound * pmuMax <= size
    ensures n * pmuMax <= size
  {
    assert (bound - n) * pmuMax == bound * pmuMax - n * pmuMax;
  }

  lemma GroupsOfNothing(events: seq<nat>, rows: seq<nat>)
    requires events == [] && rows == []
    ensures Groups(events, rows) == []
  {
  }

  lemma NextFitOfNothing(rounds: seq<Round>, pmuMax: Positive)
    ensures NextFit(rounds, [], pmuMax) == rounds
  {
  }

  lemma HoldsPrefix(res: seq<nat>, content: seq<nat>)
    requires Holds(res, content)
    ensures |content| <= |res| && res[..|content|] == content
  {
  }

  // ---------------------------------------------------------------------------------------
  // The events in table order
  // ---------------------------------------------------------------------------------------

  /** The places below `n` where the table lists a requested event, in increasing order. */
  function Positions(table: seq<nat>, n: nat, wanted: seq<nat>): (r: seq<nat>)
    requires n <= |table|
    ensures forall k | 0 <= k < |r| :: r[k] < n && table[r[k]] != 0 && table[r[k]] in wanted
    ensures forall i | 0 <= i < n && table[i] != 0 && table[i] in wanted :: i in r
    ensures Increasing(r)
  {
    if n == 0 then []
    else if table[n - 1] != 0 && table[n - 1] in wanted then Positions(table, n - 1, wanted) + [n - 1]
    else Positions(table, n - 1, wanted)
  }

  /** The table's entries at those places: the requested events in table order. */
  function EventsAt(table: seq<nat>, places: seq<nat>): (r: seq<nat>)
    requires forall k | 0 <= k < |places| :: places[k] < |table|
    ensures |r| == |places| && forall k | 0 <= k < |places| :: r[k] == table[places[k]]
  {
    if places == [] then [] else [table[places[0]]] + EventsAt(table, places[1..])
  }

  lemma {:induction false} IncreasingUnique(a: seq<nat>, b: seq<nat>)
    requires Increasing(a) && Increasing(b) && forall x :: x in a <==> x in b
    ensures a == b
    decreases |a|
  {
    assert b != [] ==> b[0] in a;
    if a != [] {
      assert a[|a| - 1] in b;
      var m, n := |a| - 1, |b| - 1;
      assert b[n] in a;
      assert a[m] == b[n];
      forall x ensures x in a[..m] <==> x in b[..n] {
        assert x in a[..m] <==> x in a && x != a[m];
        assert x in b[..n] <==> x in b && x != b[n];
      }
      IncreasingUnique(a[..m], b[..n]);
      assert a == a[..m] + [a[m]] && b == b[..n] + [b[n]];
    }
  }

  /** Sorting leaves listed events in table order. */
  lemma SortedIsTableOrder(sorted: seq<nat>, table: seq<nat>, wanted: seq<nat>)
    requires Distinct(wanted) && AllListed(wanted, table) && LeftBySort(sorted, wanted, TableIndex(table))
    ensures var places := Positions(table, Usable(table), wanted);
            IndexesOf(sorted, TableIndex(table)) == places && sorted == EventsAt(table, places)
  {
    hide *;
    SortedByIndex(sorted, wanted, table);
    LeftIsPermutation(sorted, wanted, TableIndex(table));
    PlacesOfOrder(sorted, TableIndex(table), table, wanted);
  }

  lemma LeftIsPermutation(sorted: seq<nat>, events: seq<nat>, indexMap: map<nat, nat>)
    requires LeftBySort(sorted, events, indexMap)
    ensures multiset(sorted) == multiset(events)
  {
  }

  lemma PlacesOfOrder(sorted: seq<nat>, indexMap: map<nat, nat>, table: seq<nat>, wanted: seq<nat>)
    requires Indexes(indexMap, table, Usable(table))
    requires multiset(sorted) == multiset(wanted)
    requires (forall e | e in sorted :: e in indexMap) && InTableOrder(sorted, indexMap)
    ensures var places := Positions(table, Usable(table), wanted);
            IndexesOf(sorted, indexMap) == places && sorted == EventsAt(table, places)
  {
    hide *;
    var places, n := Positions(table, Usable(table), wanted), Usable(table);
    var indexes := IndexesOf(sorted, indexMap);
    OrderIncreases(sorted, indexMap, table, n);
    forall x ensures x in indexes <==> x in places {
      if x in indexes { IndexIsPlace(sorted, indexMap, table, wanted, x); }
      if x in places { PlaceIsIndex(sorted, indexMap, table, wanted, x); }
    }
    IncreasingUnique(indexes, places);
    assert forall k | 0 <= k < |sorted| :: table[indexes[k]] == sorted[k];
  }

  lemma OrderIncreases(sorted: seq<nat>, indexMap: map<nat, nat>, table: seq<nat>, n: nat)
    requires n <= |table| && Indexes(indexMap, table, n)
    requires (forall e | e in sorted :: e in indexMap) && InTableOrder(sorted, indexMap)
    ensures Increasing(IndexesOf(sorted, indexMap))
    ensures forall k | 0 <= k < |sorted| ::
              IndexesOf(sorted, indexMap)[k] < n && table[IndexesOf(sorted, indexMap)[k]] == sorted[k]
  {
    hide IndexesOf;
    var indexes := IndexesOf(sorted, indexMap);
    assert forall k | 0 <= k < |sorted| :: sorted[k] in indexMap && indexes[k] == indexMap[sorted[k]];
  }

  lemma IndexIsPlace(sorted: seq<nat>, indexMap: map<nat, nat>, table: seq<nat>, wanted: seq<nat>, x: nat)
    requires Indexes(indexMap, table, Usable(table)) && multiset(sorted) == multiset(wanted)
    requires (forall e | e in sorted :: e in indexMap) && x in IndexesOf(sorted, indexMap)
    ensures x in Positions(table, Usable(table), wanted)
  {
    hide Positions, Usable, IndexesOf;
    var indexes := IndexesOf(sorted, indexMap);
    var k :| 0 <= k < |indexes| && indexes[k] == x;
    assert sorted[k] in sorted && sorted[k] in indexMap;
    SameMember(sorted, wanted, sorted[k]);
    assert table[x] == sorted[k];
  }

  lemma PlaceIsIndex(sorted: seq<nat>, indexMap: map<nat, nat>, table: seq<nat>, wanted: seq<nat>, x: nat)
    requires Indexes(indexMap, table, Usable(table)) && multiset(sorted) == multiset(wanted)
    requires (forall e | e in sorted :: e in indexMap) && x in Positions(table, Usable(table), wanted)
    ensures x in IndexesOf(sorted, indexMap)
  {
    hide Positions, Usable, IndexesOf;
    var places, indexes := Positions(table, Usable(table), wanted), IndexesOf(sorted, indexMap);
    var k :| 0 <= k < |places| && places[k] == x;
    SameMember(sorted, wanted, table[x]);
    var j :| 0 <= j < |sorted| && sorted[j] == table[x];
    assert indexes[j] == x;
  }

  lemma SameMember(a: seq<nat>, b: seq<nat>, e: nat)
    requires multiset(a) == multiset(b)
    ensures e in a <==> e in b
  {
    assert e in a <==> e in multiset(a);
    assert e in b <==> e in multiset(b);
  }

  // ---------------------------------------------------------------------------------------
  // The whole operation
  // ---------------------------------------------------------------------------------------

  datatype ChipType = ASCEND950 | OtherChip

  datatype Limits = Limits(eventMaxNum: nat, pmuMaxNum: Positive)

  /** How the limits of a chip fit its table: whole rows, and room for the whole table. */
  predicate Suitable(limits: Limits, table: seq<nat>) {
    && limits.pmuMaxNum >= 2 && |table| % limits.pmuMaxNum == 0
    && |table| <= limits.eventMaxNum < 65534
  }

  /** On ASCEND950 event 0 is real, but the table cannot list it: it is taken out of the request first. */
  function WithoutZero(events: seq<nat>, chip: ChipType): (r: seq<nat>)
    requires Distinct(events)
    ensures Distinct(r) && (chip.ASCEND950? ==> 0 !in r)
    ensures forall e :: e in r <==> e in events && !(chip.ASCEND950? && e == 0)
  {
    if chip.ASCEND950? && 0 in events then
      var k: nat :| k < |events| && events[k] == 0;
      FirstZero(events, k);
      events[..k] + events[k + 1..]
    else events
  }

  lemma FirstZero(events: seq<nat>, k: nat)
    requires Distinct(events) && k < |events|
    ensures Distinct(events[..k] + events[k + 1..])
    ensures forall e :: e in events[..k] + events[k + 1..] <==> e in events && e != events[k]
  {
    var r := events[..k] + events[k + 1..];
    forall e ensures e in r <==> e in events && e != events[k] {
      if e in events && e != events[k] {
        var j :| 0 <= j < |events| && events[j] == e;
        if j < k { assert r[j] == e; } else { assert r[j - 1] == e; }
      }
      if e in r {
        var j :| 0 <= j < |r| && r[j] == e;
        assert if j < k then events[j] == e else events[j + 1] == e;
      }
    }
  }

  /** The events that are sorted and packed. */
  function ToSort(requested: seq<nat>, chip: ChipType): seq<nat> {
    WithoutZero(Unique(requested), chip)
  }

  lemma ToSortIs(requested: seq<nat>, chip: ChipType)
    ensures Distinct(ToSort(requested, chip)) && ToSort(requested, chip) == WithoutZero(Unique(requested), chip)
  {
  }

  lemma WantedMember(requested: seq<nat>, chip: ChipType, e: nat)
    ensures e in ToSort(requested, chip) <==> e in requested && !(chip.ASCEND950? && e == 0)
  {
    hide Unique, WithoutZero;
  }

  // ---------------------------------------------------------------------------------------
  // What callers must respect
  // ---------------------------------------------------------------------------------------

  /** One of the events is listed, outside the first row: the others, put at index 0, are then not of its row. */
  predicate SomeFar(events: seq<nat>, table: seq<nat>, pmuMax: Positive)
  {
    exists e :: e in events && IndexOf(TableIndex(table), e) / pmuMax > 0
  }

  /** The number of places that the worst order of such events takes. */
  function MostUsed(events: seq<nat>, table: seq<nat>, pmuMax: Positive): nat
  {
    if |events| > pmuMax && SomeFar(events, table, pmuMax) then |events| - 1 + pmuMax else |events|
  }

  /** The table lists all that is requested, 0 on ASCEND950 aside; or no two of the events, and they find room. */
  predicate Requestable(requested: seq<nat>, table: seq<nat>, chip: ChipType, limits: Limits)
  {
    var events := ToSort(requested, chip);
    || AllListed(events, table)
    || (OneListed(events, table) && MostUsed(events, table, limits.pmuMaxNum) <= limits.eventMaxNum)
  }

  /** Sorting is defined, and no order it may leave makes the packing write beyond the vector. */
  ghost predicate Defined(events: seq<nat>, table: seq<nat>, limits: Limits)
  {
    && StrictWeakOrder(events, TableIndex(table))
    && forall sorted | LeftBySort(sorted, events, TableIndex(table)) ::
         InRoom(sorted, IndexesOf(sorted, TableIndex(table)), limits.pmuMaxNum, limits.eventMaxNum)
  }

  /** The places taken by one group after the other. */
  function Uses(used: nat, groups: seq<seq<nat>>, pmuMax: Positive): nat
    decreases |groups|
  {
    if groups == [] then used else Uses(NextUsed(used, |groups[0]|, pmuMax), groups[1..], pmuMax)
  }

  lemma {:induction false} UsesIs(rounds: seq<Round>, groups: seq<seq<nat>>, pmuMax: Positive)
    requires Filled(rounds, pmuMax) && forall k | 0 <= k < |groups| :: groups[k] != []
    ensures |FlatOpen(NextFit(rounds, AllChunks(groups, pmuMax), pmuMax), pmuMax)|
         == Uses(|FlatOpen(rounds, pmuMax)|, groups, pmuMax)
    decreases |groups|
  {
    hide Flat, FlatOpen, NextFit, Chunks, Filled, NextUsed;
    if groups == [] {
      NextFitOfNothing(rounds, pmuMax);
    } else {
      NextFitAppend(rounds, Chunks(groups[0], pmuMax), AllChunks(groups[1..], pmuMax), pmuMax);
      GroupPlaced(rounds, groups[0], pmuMax);
      UsedAfter(rounds, groups[0], pmuMax);
      UsesIs(NextFit(rounds, Chunks(groups[0], pmuMax), pmuMax), groups[1..], pmuMax);
    }
  }

  lemma RoundsUse(events: seq<nat>, indexes: seq<nat>, pmuMax: Positive)
    requires |events| == |indexes|
    ensures |FlatOpen(Rounds(events, indexes, pmuMax), pmuMax)|
         == Uses(0, Groups(events, RowsOf(indexes, pmuMax)), pmuMax)
  {
    hide Flat, FlatOpen, NextFit, AllChunks, RowsOf, Groups, Uses;
    NothingYet([], pmuMax);
    GroupsNotEmpty(events, RowsOf(indexes, pmuMax));
    UsesIs([], Groups(events, RowsOf(indexes, pmuMax)), pmuMax);
  }

  /** Rounding up, by cases. */
  lemma CeilingIs(used: nat, x: nat)
    requires x > 0
    ensures var up := GetUpNumCanDivisibleByX(used, x);
            used <= up < used + x && (0 < used <= x ==> up == x) && (used == 0 ==> up == 0)
  {
    hide GetUpNumCanDivisibleByX;
    var up := GetUpNumCanDivisibleByX(used, x);
    if 0 < used <= x { UniqueCeiling(used, x, up, 1); }
    if used == 0 { UniqueCeiling(0, x, up, 0); }
  }

  /** A run of n events of row 0, cut in two at k by one event of another row. */
  function SplitUse(k: nat, n: nat, pmuMax: Positive): nat
    requires k < n
  {
    var first := if k == 0 then 0 else NextUsed(0, k, pmuMax);
    var second := NextUsed(first, 1, pmuMax);
    if k + 1 == n then second else NextUsed(second, n - 1 - k, pmuMax)
  }

  lemma SplitBounds(k: nat, n: nat, pmuMax: Positive)
    requires k < n
    ensures SplitUse(k, n, pmuMax) <= if n > pmuMax then n - 1 + pmuMax else n
    ensures SplitUse(0, n, pmuMax) == if n > pmuMax then n - 1 + pmuMax else n
  {
    hide GetUpNumCanDivisibleByX;
    CeilingIs(0, pmuMax);
    CeilingIs(k, pmuMax);
    CeilingIs(k + 1, pmuMax);
    CeilingIs(1, pmuMax);
  }

  lemma SplitGroups(events: seq<nat>, rows: seq<nat>, k: nat)
    requires |events| == |rows| && k < |rows| && rows[k] != 0
    requires forall i | 0 <= i < |rows| && i != k :: rows[i] == 0
    ensures var rest := [events[k..k + 1]] + (if k + 1 == |rows| then [] else [events[k + 1..]]);
            Groups(events, rows) == if k == 0 then rest else [events[..k]] + rest
  {
    hide *;
    MiddleGroup(events, rows, k);
    assert events[0..] == events && rows[0..] == rows;
    if k > 0 {
      assert events[0..k] == events[..k];
      NextGroup(events, rows, 0, k);
    }
  }

  lemma MiddleGroup(events: seq<nat>, rows: seq<nat>, k: nat)
    requires |events| == |rows| && k < |rows| && rows[k] != 0
    requires forall i | k < i < |rows| :: rows[i] == 0
    ensures Groups(events[k..], rows[k..]) ==
            [events[k..k + 1]] + (if k + 1 == |rows| then [] else [events[k + 1..]])
  {
    hide *;
    NextGroup(events, rows, k, k + 1);
    LastGroup(events, rows, k + 1);
  }

  lemma LastGroup(events: seq<nat>, rows: seq<nat>, start: nat)
    requires |events| == |rows| && start <= |rows| && forall i | start <= i < |rows| :: rows[i] == 0
    ensures Groups(events[start..], rows[start..]) == if start == |rows| then [] else [events[start..]]
  {
    hide *;
    var n := |rows|;
    GroupsOfNothing(events[n..], rows[n..]);
    if start < n {
      NextGroup(events, rows, start, n);
      assert events[start..n] == events[start..];
    }
  }

  lemma UsesCons(used: nat, g: seq<nat>, groups: seq<seq<nat>>, pmuMax: Positive)
    ensures Uses(used, [g] + groups, pmuMax) == Uses(NextUsed(used, |g|, pmuMax), groups, pmuMax)
    ensures Uses(used, [], pmuMax) == used
  {
    assert ([g] + groups)[1..] == groups;
  }

  lemma SplitUses(events: seq<nat>, rows: seq<nat>, k: nat, pmuMax: Positive)
    requires |events| == |rows| && k < |rows| && rows[k] != 0
    requires forall i | 0 <= i < |rows| && i != k :: rows[i] == 0
    ensures Uses(0, Groups(events, rows), pmuMax) == SplitUse(k, |rows|, pmuMax)
  {
    hide Groups, NextUsed, Uses;
    SplitGroups(events, rows, k);
    var n, none: seq<seq<nat>> := |rows|, [];
    var first := if k == 0 then 0 else NextUsed(0, k, pmuMax);
    var last := if k + 1 == n then none else [events[k + 1..]];
    var middle := [events[k..k + 1]] + last;
    if k == 0 {
      assert Groups(events, rows) == middle;
    } else {
      assert Groups(events, rows) == [events[..k]] + middle;
    }
    UsesCons(0, events[..k], middle, pmuMax);
    UsesCons(first, events[k..k + 1], last, pmuMax);
    assert [events[k + 1..]] + none == [events[k + 1..]];
    var second := NextUsed(first, 1, pmuMax);
    UsesCons(second, events[k + 1..], none, pmuMax);
    UsesCons(NextUsed(second, n - 1 - k, pmuMax), events[k + 1..], none, pmuMax);
  }

  predicate AllFirstRow(rows: seq<nat>) {
    forall i | 0 <= i < |rows| :: rows[i] == 0
  }

  lemma OneGroupUses(events: seq<nat>, rows: seq<nat>, pmuMax: Positive)
    requires |events| == |rows| && AllFirstRow(rows)
    ensures Uses(0, Groups(events, rows), pmuMax) == |events|
  {
    hide GetUpNumCanDivisibleByX, GroupLength;
    CeilingIs(0, pmuMax);
    if rows == [] {
      GroupsOfNothing(events, rows);
    } else {
      GroupLengthIs(rows, |rows|);
      OneGroup(events, rows);
      var none: seq<seq<nat>> := [];
      assert [events][1..] == none;
    }
  }

  /** If no two events are listed, all are in row 0 but for at most one. */
  lemma OneFar(sorted: seq<nat>, events: seq<nat>, table: seq<nat>, pmuMax: Positive) returns (k: nat)
    requires Distinct(events) && OneListed(events, table) && multiset(sorted) == multiset(events)
    ensures var rows := RowsOf(IndexesOf(sorted, TableIndex(table)), pmuMax);
            && (SomeFar(events, table, pmuMax) ==>
                  k < |sorted| && rows[k] != 0 && forall i | 0 <= i < |rows| && i != k :: rows[i] == 0)
            && (!SomeFar(events, table, pmuMax) ==> AllFirstRow(rows))
  {
    hide RowsOf, IndexesOf, TableIndex, Listed, Distinct;
    var m := TableIndex(table);
    var rows := RowsOf(IndexesOf(sorted, m), pmuMax);
    SameElements(sorted, events);
    assert forall i | 0 <= i < |rows| :: sorted[i] in events && rows[i] == IndexOf(m, sorted[i]) / pmuMax;
    k := 0;
    if SomeFar(events, table, pmuMax) {
      var e :| e in events && IndexOf(m, e) / pmuMax > 0;
      k :| 0 <= k < |sorted| && sorted[k] == e;
      forall i | 0 <= i < |rows| && i != k ensures rows[i] == 0 {
        ListedIsIndexed(e, table);
        ListedIsIndexed(sorted[i], table);
        if sorted[i] == e {
          TwiceInSeq(sorted, if i < k then i else k, if i < k then k else i);
          DistinctCount(events, e);
        }
        assert 0 / pmuMax == 0;
      }
    } else {
      assert 0 / pmuMax == 0;
    }
  }

  lemma MostUsedIs(events: seq<nat>, table: seq<nat>, pmuMax: Positive)
    ensures SomeFar(events, table, pmuMax) ==>
              MostUsed(events, table, pmuMax) == if |events| > pmuMax then |events| - 1 + pmuMax else |events|
    ensures !SomeFar(events, table, pmuMax) ==> MostUsed(events, table, pmuMax) == |events|
  {
    hide SomeFar;
  }

  lemma FewListedUse(sorted: seq<nat>, events: seq<nat>, table: seq<nat>, pmuMax: Positive)
    requires Distinct(events) && OneListed(events, table) && multiset(sorted) == multiset(events)
    ensures |FlatOpen(Rounds(sorted, IndexesOf(sorted, TableIndex(table)), pmuMax), pmuMax)|
         <= MostUsed(events, table, pmuMax)
    ensures !SomeFar(events, table, pmuMax) ==>
              |FlatOpen(Rounds(sorted, IndexesOf(sorted, TableIndex(table)), pmuMax), pmuMax)| == |events|
  {
    hide *;
    var indexes := IndexesOf(sorted, TableIndex(table));
    var rows := RowsOf(indexes, pmuMax);
    RoundsUse(sorted, indexes, pmuMax);
    SameElements(sorted, events);
    MostUsedIs(events, table, pmuMax);
    var k := OneFar(sorted, events, table, pmuMax);
    if SomeFar(events, table, pmuMax) {
      SplitUses(sorted, rows, k, pmuMax);
      SplitBounds(k, |sorted|, pmuMax);
    } else {
      OneGroupUses(sorted, rows, pmuMax);
    }
  }

  /** An order that takes the most: the listed event first. */
  lemma WorstOrder(events: seq<nat>, table: seq<nat>, pmuMax: Positive) returns (sorted: seq<nat>)
    requires Distinct(events) && OneListed(events, table) && !AllListed(events, table)
    ensures LeftBySort(sorted, events, TableIndex(table))
    ensures |FlatOpen(Rounds(sorted, IndexesOf(sorted, TableIndex(table)), pmuMax), pmuMax)|
         == MostUsed(events, table, pmuMax)
  {
    hide RowsOf, IndexesOf, TableIndex, Listed, Distinct, Uses, SplitUse, Groups, FlatOpen, Rounds, SomeFar, OneListed;
    hide LeftBySort;
    sorted := events;
    if SomeFar(events, table, pmuMax) {
      var k := OneFar(events, events, table, pmuMax);
      sorted := [events[k]] + events[..k] + events[k + 1..];
      assert events == events[..k] + [events[k]] + events[k + 1..];
      assert multiset(sorted) == multiset(events);
      var j := OneFar(sorted, events, table, pmuMax);
      FirstIsFar(sorted, events, table, pmuMax, k);
    }
    NotAllRanked(events, table);
    TiedIsLeft(sorted, events, table);
    if SomeFar(events, table, pmuMax) {
      var indexes := IndexesOf(sorted, TableIndex(table));
      RoundsUse(sorted, indexes, pmuMax);
      SplitUses(sorted, RowsOf(indexes, pmuMax), 0, pmuMax);
      SplitBounds(0, |sorted|, pmuMax);
    } else {
      FewListedUse(sorted, events, table, pmuMax);
    }
  }

  lemma FirstIsFar(sorted: seq<nat>, events: seq<nat>, table: seq<nat>, pmuMax: Positive, k: nat)
    requires k < |events| && sorted != [] && sorted[0] == events[k]
    ensures RowsOf(IndexesOf(sorted, TableIndex(table)), pmuMax)[0]
         == RowsOf(IndexesOf(events, TableIndex(table)), pmuMax)[k]
  {
    hide RowsOf, IndexesOf, TableIndex;
  }

  lemma NotAllRanked(events: seq<nat>, table: seq<nat>)
    ensures AllListed(events, table) <==> Ranked(events, TableIndex(table))
  {
    hide TableIndex, Listed;
    forall e ensures Listed(e, table) <==> e in TableIndex(table) { ListedIsIndexed(e, table); }
  }

  lemma ListedFit(sorted: seq<nat>, events: seq<nat>, table: seq<nat>, limits: Limits)
    requires Suitable(limits, table) && Distinct(events) && AllListed(events, table)
    requires LeftBySort(sorted, events, TableIndex(table))
    ensures InRoom(sorted, IndexesOf(sorted, TableIndex(table)), limits.pmuMaxNum, limits.eventMaxNum)
    ensures |sorted| < 65535
  {
    hide *;
    SuitableBounds(limits, table);
    SortedIsTableOrder(sorted, table, events);
    SortedPackable(table, events, limits);
    PackableInRoom(sorted, Positions(table, Usable(table), events), limits.pmuMaxNum,
                   TableRowCount(table, limits.pmuMaxNum), limits.eventMaxNum);
  }

  lemma PackableInRoom(events: seq<nat>, indexes: seq<nat>, pmuMax: Positive, bound: nat, size: nat)
    requires Packable(events, indexes, pmuMax, bound) && bound * pmuMax <= size
    ensures |events| == |indexes| && InRoom(events, indexes, pmuMax, size)
  {
    hide Increasing, Groups, RowsOf, NextFit, FitGroups, FlatOpen, Dense, RowsInUse;
    PackingStart(events, indexes, pmuMax, bound);
    var groups := Groups(events, RowsOf(indexes, pmuMax));
    NothingYet([], pmuMax);
    NextFitRounds([], groups, pmuMax);
    var rounds := NextFit([], groups, pmuMax);
    FitsAreFilled(rounds, pmuMax);
    OpenLength(rounds, pmuMax);
    RoomLeft(|rounds|, bound, pmuMax, size);
  }

  /** The call is defined exactly for what is requestable. */
  lemma RequestableExactly(requested: seq<nat>, table: seq<nat>, chip: ChipType, limits: Limits)
    requires Suitable(limits, table)
    ensures Defined(ToSort(requested, chip), table, limits) <==> Requestable(requested, table, chip, limits)
  {
    hide Usable, ToSort, TableIndex, StrictWeakOrder, LeftBySort, AllListed, OneListed, InRoom, MostUsed;
    hide Suitable, IndexesOf, Distinct;
    SuitableBounds(limits, table);
    var events, p := ToSort(requested, chip), limits.pmuMaxNum;
    ToSortIs(requested, chip);
    SortIsDefinedExactly(events, table);
    if AllListed(events, table) {
      forall sorted | LeftBySort(sorted, events, TableIndex(table))
        ensures InRoom(sorted, IndexesOf(sorted, TableIndex(table)), p, limits.eventMaxNum)
      {
        ListedFit(sorted, events, table, limits);
      }
    } else if OneListed(events, table) {
      FewInRoom(events, table, p, limits.eventMaxNum);
    }
  }

  lemma FewInRoom(events: seq<nat>, table: seq<nat>, pmuMax: Positive, size: nat)
    requires Distinct(events) && OneListed(events, table) && !AllListed(events, table)
    ensures (forall sorted | LeftBySort(sorted, events, TableIndex(table)) ::
               InRoom(sorted, IndexesOf(sorted, TableIndex(table)), pmuMax, size))
            <==> MostUsed(events, table, pmuMax) <= size
  {
    hide Usable, TableIndex, AllListed, OneListed, MostUsed, IndexesOf, Distinct, FlatOpen, Rounds;
    var worst := WorstOrder(events, table, pmuMax);
    forall sorted | LeftBySort(sorted, events, TableIndex(table))
      ensures MostUsed(events, table, pmuMax) <= size ==>
                InRoom(sorted, IndexesOf(sorted, TableIndex(table)), pmuMax, size)
    {
      FewListedUse(sorted, events, table, pmuMax);
    }
  }

  /** The packed rounds, before event 0 is considered. */
  function Packed(wanted: seq<nat>, table: seq<nat>, limits: Limits): seq<nat>
  {
    var places := Positions(table, Usable(table), wanted);
    Flat(Rounds(EventsAt(table, places), places, limits.pmuMaxNum), limits.pmuMaxNum)
  }

  /** The packed rounds of events in a given order. */
  function PackedOrder(sorted: seq<nat>, table: seq<nat>, limits: Limits): seq<nat>
  {
    Flat(Rounds(sorted, IndexesOf(sorted, TableIndex(table)), limits.pmuMaxNum), limits.pmuMaxNum)
  }

  /** Event 0 finds no place yet, and a round is free. */
  predicate MakesRoom(packed: seq<nat>, limits: Limits) {
    0 !in packed && packed != [] && |packed| + limits.pmuMaxNum <= limits.eventMaxNum
  }

  /** Room for event 0 is made by moving the very last event into a round of its own. */
  function AddZero(packed: seq<nat>, isAddZero: bool, limits: Limits): seq<nat>
  {
    var n := |packed|;
    if isAddZero && MakesRoom(packed, limits)
    then packed[..n - 1] + [0, packed[n - 1]] + Zeros(limits.pmuMaxNum - 1)
    else packed
  }

  /** The result is the packing of an order that sorting may leave; if the table lists all that is requested, there is
      one such order only. */
  method GetSortedEventsByMetrics(enabled: seq<string>, lists: map<string, seq<nat>>, table: seq<nat>, chip: ChipType,
                                  standard: Limits, a5: Limits)
    returns (resVec: seq<nat>)
    requires Suitable(if chip.ASCEND950? then a5 else standard, table)
    requires Requestable(Requests(enabled, lists), table, chip, if chip.ASCEND950? then a5 else standard)
    ensures var limits := if chip.ASCEND950? then a5 else standard;
            var requested := Requests(enabled, lists);
            var isAddZero, events := chip.ASCEND950? && 0 in requested, ToSort(requested, chip);
            && (exists sorted | LeftBySort(sorted, events, TableIndex(table)) ::
                  resVec == AddZero(PackedOrder(sorted, table, limits), isAddZero, limits))
            && (AllListed(events, table) ==> resVec == AddZero(Packed(requested, table, limits), isAddZero, limits))
  {
    hide *;
    var eventVec := GetEventsByMetrics(enabled, lists);
    ghost var requested := Requests(enabled, lists);
    var isAddZero, limits := false, standard;
    if chip == ASCEND950 {
      limits := a5;
      isAddZero := 0 in eventVec;
    }
    ghost var sorted;
    resVec, sorted := SortAndPack(requested, eventVec, table, chip, limits);
    resVec := ReserveZero(resVec, isAddZero, limits);
  }

  /** The middle part: event 0 taken out, the rest sorted and packed. */
  method SortAndPack(ghost requested: seq<nat>, events: seq<nat>, table: seq<nat>, chip: ChipType, limits: Limits)
    returns (resVec: seq<nat>, ghost order: seq<nat>)
    requires Suitable(limits, table)
    requires Requestable(requested, table, chip, limits) && events == Unique(requested)
    ensures LeftBySort(order, ToSort(requested, chip), TableIndex(table))
    ensures resVec == PackedOrder(order, table, limits)
    ensures AllListed(ToSort(requested, chip), table) ==> resVec == Packed(requested, table, limits)
  {
    hide *;
    var eventVec := WithoutZero(events, chip);
    ToSortIs(requested, chip);
    RequestableIs(requested, table, chip, limits);
    var indexMap, sorted := GetEventIndexMap(table, eventVec);
    OrderIsPackable(sorted, eventVec, table, limits);
    resVec := PackEvents(sorted, indexMap, limits.eventMaxNum, limits.pmuMaxNum);
    PackedOrderIs(sorted, table, limits);
    order := sorted;
    if AllListed(eventVec, table) { ListedOrder(requested, sorted, table, chip, limits); }
  }

  lemma RequestableIs(requested: seq<nat>, table: seq<nat>, chip: ChipType, limits: Limits)
    requires Requestable(requested, table, chip, limits)
    ensures var events := ToSort(requested, chip);
            && Sortable(events, table)
            && (AllListed(events, table)
                || (OneListed(events, table) && MostUsed(events, table, limits.pmuMaxNum) <= limits.eventMaxNum))
  {
    hide AllListed, OneListed, MostUsed, ToSort;
  }

  /** Whatever order sorting leaves, the packing stays in the vector. */
  lemma OrderIsPackable(sorted: seq<nat>, events: seq<nat>, table: seq<nat>, limits: Limits)
    requires Suitable(limits, table) && Distinct(events)
    requires LeftBySort(sorted, events, TableIndex(table))
    requires || AllListed(events, table)
             || (OneListed(events, table) && MostUsed(events, table, limits.pmuMaxNum) <= limits.eventMaxNum)
    ensures InRoom(sorted, IndexesOf(sorted, TableIndex(table)), limits.pmuMaxNum, limits.eventMaxNum)
    ensures |sorted| < 65535
  {
    hide AllListed, OneListed, TableIndex, IndexesOf, FlatOpen, Rounds, Distinct;
    if AllListed(events, table) {
      ListedFit(sorted, events, table, limits);
    } else {
      FewListedUse(sorted, events, table, limits.pmuMaxNum);
      SameElements(sorted, events);
    }
  }

  lemma PackedOrderIs(sorted: seq<nat>, table: seq<nat>, limits: Limits)
    ensures PackedOrder(sorted, table, limits) ==
            Flat(Rounds(sorted, IndexesOf(sorted, TableIndex(table)), limits.pmuMaxNum), limits.pmuMaxNum)
  {
  }

  /** The order of listed events is that of the table. */
  lemma ListedOrder(requested: seq<nat>, sorted: seq<nat>, table: seq<nat>, chip: ChipType, limits: Limits)
    requires LeftBySort(sorted, ToSort(requested, chip), TableIndex(table))
    requires AllListed(ToSort(requested, chip), table)
    ensures PackedOrder(sorted, table, limits) == Packed(requested, table, limits)
  {
    hide *;
    var wanted := ToSort(requested, chip);
    ToSortIs(requested, chip);
    forall e | e != 0 ensures e in wanted <==> e in requested { WantedMember(requested, chip, e); }
    SortedIsTableOrder(sorted, table, wanted);
    PositionsOnly(table, Usable(table), wanted, requested);
    PackedOrderIs(sorted, table, limits);
    PackedIs(requested, table, limits);
  }

  method ReserveZero(packed: seq<nat>, isAddZero: bool, limits: Limits) returns (resVec: seq<nat>)
    ensures resVec == AddZero(packed, isAddZero, limits)
  {
    resVec := packed;
    var resVecIndex := |resVec|;
    if isAddZero && 0 !in resVec && resVec != [] && resVecIndex + limits.pmuMaxNum <= limits.eventMaxNum {
      resVec := resVec[..resVecIndex - 1] + [0] + resVec[resVecIndex - 1..];
      resVec := resVec + Zeros(resVecIndex + limits.pmuMaxNum - |resVec|);
    }
  }

  lemma PackedIs(wanted: seq<nat>, table: seq<nat>, limits: Limits)
    ensures var places := Positions(table, Usable(table), wanted);
            Packed(wanted, table, limits) ==
            Flat(Rounds(EventsAt(table, places), places, limits.pmuMaxNum), limits.pmuMaxNum)
  {
  }

  lemma {:induction false} PositionsOnly(table: seq<nat>, n: nat, a: seq<nat>, b: seq<nat>)
    requires n <= |table| && forall e | e != 0 :: e in a <==> e in b
    ensures Positions(table, n, a) == Positions(table, n, b)
  {
    if n > 0 { PositionsOnly(table, n - 1, a, b); }
  }

  function TableRowCount(table: seq<nat>, pmuMax: Positive): nat
  {
    |table| / pmuMax
  }

  /** The selected events meet what the packing loop expects. */
  lemma SortedPackable(table: seq<nat>, wanted: seq<nat>, limits: Limits)
    requires Suitable(limits, table)
    ensures var places := Positions(table, Usable(table), wanted);
            var sorted := EventsAt(table, places);
            && Packable(sorted, places, limits.pmuMaxNum, TableRowCount(table, limits.pmuMaxNum))
            && TableRowCount(table, limits.pmuMaxNum) * limits.pmuMaxNum <= limits.eventMaxNum && |sorted| < 65535
  {
    hide Positions, Usable, EventsAt, Increasing, Packable, Suitable, TableRowCount;
    var places := Positions(table, Usable(table), wanted);
    WholeRows(limits, table);
    PlacesArePackable(table, places, EventsAt(table, places), limits.pmuMaxNum, TableRowCount(table, limits.pmuMaxNum));
  }

  lemma PlacesArePackable(table: seq<nat>, places: seq<nat>, events: seq<nat>, p: Positive, bound: nat)
    requires bound * p == |table| && |events| == |places| && Increasing(places)
    requires forall k | 0 <= k < |places| :: places[k] < |table|
    requires forall k | 0 <= k < |places| :: events[k] == table[places[k]] && table[places[k]] != 0
    ensures Packable(events, places, p, bound) && |events| <= |table|
  {
    hide Increasing;
    assert forall k | 0 <= k < |events| :: events[k] != 0;
    if places != [] { IncreasingSpread(places, |places| - 1); }
  }

  lemma WholeRows(limits: Limits, table: seq<nat>)
    requires Suitable(limits, table)
    ensures TableRowCount(table, limits.pmuMaxNum) * limits.pmuMaxNum == |table|
    ensures |table| <= limits.eventMaxNum < 65534
  {
  }

  // ---------------------------------------------------------------------------------------
  // What the packing guarantees
  // ---------------------------------------------------------------------------------------

  /** The rounds behind the packed vector. */
  function PackedRounds(wanted: seq<nat>, table: seq<nat>, limits: Limits): seq<Round>
  {
    var places := Positions(table, Usable(table), wanted);
    Rounds(EventsAt(table, places), places, limits.pmuMaxNum)
  }

  lemma RoundsOfTheTable(wanted: seq<nat>, table: seq<nat>, limits: Limits)
    requires Suitable(limits, table)
    ensures var rounds := PackedRounds(wanted, table, limits);
            && FitGroups(rounds, limits.pmuMaxNum) && Dense(rounds, limits.pmuMaxNum)
            && |rounds| <= TableRowCount(table, limits.pmuMaxNum)
            && |rounds| <= |RowsInUse(Positions(table, Usable(table), wanted), limits.pmuMaxNum)|
            && Concat(rounds) == EventsAt(table, Positions(table, Usable(table), wanted))
  {
    hide Positions, Usable, EventsAt, Packable, Groups, FitGroups, Dense, NextFit, RowsOf, TableRowCount, Suitable,
         RowsInUse, Rounds;
    SuitableBounds(limits, table);
    var places, p := Positions(table, Usable(table), wanted), limits.pmuMaxNum;
    var events := EventsAt(table, places);
    SortedPackable(table, wanted, limits);
    PackingStart(events, places, p, TableRowCount(table, p));
    var groups := Groups(events, RowsOf(places, p));
    NothingYet([], p);
    NextFitRounds([], groups, p);
    NextFitKeepsEvents([], groups, p);
    GroupsConcat(events, RowsOf(places, p));
  }

  /** Nothing is lost, nothing is added: outside event 0 the vector lists exactly the requested events,
      each once and in table order; its length is a whole number of rounds and stays within the limit. */
  lemma NothingIsLost(wanted: seq<nat>, table: seq<nat>, limits: Limits)
    requires Suitable(limits, table)
    ensures var packed := Packed(wanted, table, limits);
            && NonZero(packed) == EventsAt(table, Positions(table, Usable(table), wanted))
            && |packed| == |PackedRounds(wanted, table, limits)| * limits.pmuMaxNum
            && |packed| % limits.pmuMaxNum == 0 && |packed| <= |table|
  {
    hide Positions, Usable, EventsAt, FitGroups, Flat, Rounds, Dense, Concat, NonZero, TableRowCount;
    var rounds, p := PackedRounds(wanted, table, limits), limits.pmuMaxNum;
    RoundsOfTheTable(wanted, table, limits);
    FlatKeepsEvents(rounds, p);
    FitsAreFilled(rounds, p);
    FlatLength(rounds, p);
    MultipleOf(|rounds|, p);
    WholeRows(limits, table);
    RoomLeft(|rounds|, TableRowCount(table, p), p, |table|);
  }

  /** Any plan that measures the requested events `pmuMaxNum` at a time needs more than half as many rounds. */
  lemma FewRounds(wanted: seq<nat>, table: seq<nat>, limits: Limits, other: nat)
    requires Suitable(limits, table)
    ensures var events, p := EventsAt(table, Positions(table, Usable(table), wanted)), limits.pmuMaxNum;
            events != [] && |events| <= other * p ==> |Packed(wanted, table, limits)| / p <= 2 * other - 1
  {
    hide Positions, Usable, EventsAt, FitGroups, Rounds, Dense, Packed;
    var rounds, p := PackedRounds(wanted, table, limits), limits.pmuMaxNum;
    var events := EventsAt(table, Positions(table, Usable(table), wanted));
    RoundsOfTheTable(wanted, table, limits);
    NothingIsLost(wanted, table, limits);
    MultipleOf(|rounds|, p);
    if events != [] && |events| <= other * p { AtMostTwiceTheOptimum(rounds, p, other); }
  }

  /** The bound that matters for memory: one round for every row of the table in use is enough. */
  lemma RoundsPerRow(wanted: seq<nat>, table: seq<nat>, limits: Limits)
    requires Suitable(limits, table)
    ensures var places := Positions(table, Usable(table), wanted);
            |Packed(wanted, table, limits)| <= limits.pmuMaxNum * |RowsInUse(places, limits.pmuMaxNum)|
  {
    hide *;
    SuitableBounds(limits, table);
    NothingIsLost(wanted, table, limits);
    RoundsOfTheTable(wanted, table, limits);
    var p, rows := limits.pmuMaxNum, |RowsInUse(Positions(table, Usable(table), wanted), limits.pmuMaxNum)|;
    ProductMonotone(|PackedRounds(wanted, table, limits)|, rows, p);
  }

  /** Whatever the order: nothing is lost and nothing is added. */
  lemma OrderKeepsEvents(events: seq<nat>, indexes: seq<nat>, pmuMax: Positive)
    requires |events| == |indexes|
    ensures NonZero(Flat(Rounds(events, indexes, pmuMax), pmuMax)) == NonZero(events)
  {
    hide *;
    var rows := RowsOf(indexes, pmuMax);
    var groups := Groups(events, rows);
    RoundsAre(events, indexes, pmuMax);
    FlatNonZero(Rounds(events, indexes, pmuMax), pmuMax);
    NextFitKeepsEvents([], AllChunks(groups, pmuMax), pmuMax);
    ConcatNothing();
    ChunksKeepEvents(groups, pmuMax);
    GroupsConcat(events, rows);
    assert [] + events == events;
  }

  lemma RoundsAre(events: seq<nat>, indexes: seq<nat>, pmuMax: Positive)
    requires |events| == |indexes|
    ensures |RowsOf(indexes, pmuMax)| == |events|
    ensures Rounds(events, indexes, pmuMax) ==
            NextFit([], AllChunks(Groups(events, RowsOf(indexes, pmuMax)), pmuMax), pmuMax)
  {
  }

  lemma {:induction false} ChunksOfGroup(g: seq<nat>, pmuMax: Positive)
    ensures Concat(Chunks(g, pmuMax)) == g
    decreases |g|
  {
    if |g| <= pmuMax {
      ConcatOne(g);
    } else {
      ChunksOfGroup(g[pmuMax..], pmuMax);
      ConcatCons(g[..pmuMax], Chunks(g[pmuMax..], pmuMax));
      assert g == g[..pmuMax] + g[pmuMax..];
    }
  }

  lemma {:induction false} ChunksKeepEvents(groups: seq<seq<nat>>, pmuMax: Positive)
    ensures Concat(AllChunks(groups, pmuMax)) == Concat(groups)
  {
    if groups != [] {
      hide Chunks;
      ChunksOfGroup(groups[0], pmuMax);
      ChunksKeepEvents(groups[1..], pmuMax);
      ConcatAppend(Chunks(groups[0], pmuMax), AllChunks(groups[1..], pmuMax));
    }
  }

  lemma {:induction false} FlatNonZero(rounds: seq<Round>, pmuMax: Positive)
    ensures NonZero(Flat(rounds, pmuMax)) == NonZero(Concat(rounds))
  {
    hide *;
    if rounds == [] {
      FlatOfNothing(pmuMax);
      ConcatNothing();
      NonZeroOfEvents([]);
    } else {
      var front, last := rounds[..|rounds| - 1], rounds[|rounds| - 1];
      FlatNonZero(front, pmuMax);
      FlatOfMore(rounds, pmuMax);
      NonZeroConcat(Flat(front, pmuMax), Padded(last, pmuMax));
      PaddedNonZero(last, pmuMax);
      ConcatAppend(front, [last]);
      ConcatOne(last);
      NonZeroConcat(Concat(front), last);
      assert rounds == front + [last];
    }
  }

  lemma PaddedNonZero(round: Round, pmuMax: Positive)
    ensures NonZero(Padded(round, pmuMax)) == NonZero(round)
  {
    hide NonZero;
    if |round| < pmuMax {
      NonZeroConcat(round, Zeros(pmuMax - |round|));
      NonZeroOfZeros(pmuMax - |round|);
      assert NonZero(round) + [] == NonZero(round);
    }
  }

  lemma {:induction false} NonZeroMembers(s: seq<nat>, e: nat)
    ensures e in NonZero(s) <==> e != 0 && e in s
  {
    if s != [] { NonZeroMembers(s[1..], e); }
  }

  lemma AddZeroKeepsEvents(packed: seq<nat>, isAddZero: bool, limits: Limits)
    ensures NonZero(AddZero(packed, isAddZero, limits)) == NonZero(packed)
  {
    hide NonZero, Zeros;
    if isAddZero && MakesRoom(packed, limits) { ZeroInsertedEvents(packed, limits.pmuMaxNum); }
  }

  /** The result holds the events that were packed, in whatever order, and no others. */
  lemma ExactlyTheSorted(sorted: seq<nat>, table: seq<nat>, limits: Limits, isAddZero: bool, e: nat)
    ensures e in NonZero(AddZero(PackedOrder(sorted, table, limits), isAddZero, limits)) <==> e != 0 && e in sorted
  {
    hide *;
    PackedOrderIs(sorted, table, limits);
    AddZeroKeepsEvents(PackedOrder(sorted, table, limits), isAddZero, limits);
    OrderKeepsEvents(sorted, IndexesOf(sorted, TableIndex(table)), limits.pmuMaxNum);
    NonZeroMembers(sorted, e);
  }

  /** The events in the result are the requested ones and no others, for any request and any order. */
  lemma ExactlyTheRequested(requested: seq<nat>, sorted: seq<nat>, table: seq<nat>, chip: ChipType, limits: Limits,
                            isAddZero: bool, e: nat)
    requires LeftBySort(sorted, ToSort(requested, chip), TableIndex(table))
    ensures e in NonZero(AddZero(PackedOrder(sorted, table, limits), isAddZero, limits)) <==> e != 0 && e in requested
  {
    hide *;
    WantedMember(requested, chip, e);
    OrderedRequest(requested, ToSort(requested, chip), sorted, table, limits, isAddZero, e);
  }

  lemma OrderedRequest(requested: seq<nat>, events: seq<nat>, sorted: seq<nat>, table: seq<nat>, limits: Limits,
                       isAddZero: bool, e: nat)
    requires LeftBySort(sorted, events, TableIndex(table))
    requires e != 0 ==> (e in events <==> e in requested)
    ensures e in NonZero(AddZero(PackedOrder(sorted, table, limits), isAddZero, limits)) <==> e != 0 && e in requested
  {
    hide *;
    OrderHas(sorted, events, TableIndex(table), e);
    ExactlyTheSorted(sorted, table, limits, isAddZero, e);
  }

  lemma OrderHas(sorted: seq<nat>, events: seq<nat>, indexMap: map<nat, nat>, e: nat)
    requires LeftBySort(sorted, events, indexMap)
    ensures e in sorted <==> e in events
  {
    hide *;
    LeftIsPermutation(sorted, events, indexMap);
    SameMember(sorted, events, e);
  }

  /** Entries of the packed vector and where they come from. */
  lemma PackedAt(wanted: seq<nat>, table: seq<nat>, limits: Limits, i: nat)
    requires Suitable(limits, table)
    ensures var p, rounds := limits.pmuMaxNum, PackedRounds(wanted, table, limits);
            i < |Packed(wanted, table, limits)| ==>
              && 0 <= i / p < |rounds| && rounds[i / p] != [] && 0 !in rounds[i / p]
              && Packed(wanted, table, limits)[i] ==
                 if i % p < |rounds[i / p]| then rounds[i / p][i % p] else 0
  {
    hide Positions, Usable, EventsAt, Flat, Rounds, Dense;
    var rounds, p := PackedRounds(wanted, table, limits), limits.pmuMaxNum;
    RoundsOfTheTable(wanted, table, limits);
    FitsAreFilled(rounds, p);
    FlatLength(rounds, p);
    if i < |Packed(wanted, table, limits)| {
      FlatAt(rounds, p, i);
      assert FitGroup(rounds[i / p], p);
    }
  }

  /** No round starts with event 0. */
  lemma EveryRoundHasAnEvent(wanted: seq<nat>, table: seq<nat>, limits: Limits, i: nat)
    requires Suitable(limits, table)
    ensures i < |Packed(wanted, table, limits)| && i % limits.pmuMaxNum == 0 ==> Packed(wanted, table, limits)[i] != 0
  {
    hide Packed, PackedRounds;
    PackedAt(wanted, table, limits, i);
    if i < |Packed(wanted, table, limits)| && i % limits.pmuMaxNum == 0 {
      var r := PackedRounds(wanted, table, limits)[i / limits.pmuMaxNum];
      assert r[0] in r;
    }
  }

  /** The table row of every requested event. */
  function RowMapOf(events: seq<nat>, rows: seq<nat>): map<nat, nat>
    requires |events| == |rows|
  {
    if events == [] then map[] else RowMapOf(events[1..], rows[1..])[events[0] := rows[0]]
  }

  lemma {:induction false} RowMapOfIs(events: seq<nat>, rows: seq<nat>)
    requires |events| == |rows|
    requires forall i, j | 0 <= i < j < |events| :: events[i] != events[j]
    ensures RowMap(events, rows, RowMapOf(events, rows))
    ensures forall e | e in RowMapOf(events, rows) :: e in events
  {
    if events != [] {
      var later := RowMapOf(events[1..], rows[1..]);
      RowMapOfIs(events[1..], rows[1..]);
      var row := RowMapOf(events, rows);
      assert row == later[events[0] := rows[0]];
      forall k | 0 <= k < |events| ensures events[k] in row && row[events[k]] == rows[k] {
        if k > 0 { assert events[1..][k - 1] == events[k]; }
      }
    }
  }

  lemma RoundsKeepRowsApart(events: seq<nat>, indexes: seq<nat>, pmuMax: Positive, bound: nat, row: map<nat, nat>)
    requires Packable(events, indexes, pmuMax, bound) && RowMap(events, RowsOf(indexes, pmuMax), row)
    ensures RowsApart(Rounds(events, indexes, pmuMax), row)
  {
    hide RowsOf, RowsApart, RowsIncrease, Groups, GroupRows, NextFit, Rounds, RowsInUse;
    var rows := RowsOf(indexes, pmuMax);
    PackingStart(events, indexes, pmuMax, bound);
    RowsNonDecreasing(indexes, pmuMax, bound);
    GroupsIncrease(events, rows, row);
    NothingApart(row, Groups(events, rows), GroupRows(rows));
    NextFitRowsApart([], Groups(events, rows), pmuMax, row, GroupRows(rows));
  }

  lemma NothingApart(row: map<nat, nat>, groups: seq<seq<nat>>, rows: seq<nat>)
    requires RowsIncrease(groups, row, rows)
    ensures RowsApart([], row) && |groups| == |rows| && forall x :: RowsBelow([], row, x)
  {
  }

  /** Place i of the vector holds the event at place x of the table. */
  predicate HoldsAt(packed: seq<nat>, table: seq<nat>, i: nat, x: nat) {
    i < |packed| && x < Usable(table) && table[x] != 0 && packed[i] == table[x]
  }

  /** Events that depend on each other, being of one table row, are measured in the same round. */
  ghost predicate RowsTogether(v: seq<nat>, table: seq<nat>, p: Positive)
  {
    forall x: nat, y: nat, i: nat, j: nat |
      HoldsAt(v, table, i, x) && HoldsAt(v, table, j, y) && x / p == y / p :: i / p == j / p
  }

  /** Before event 0 is considered this always holds. */
  lemma SameRowSameRound(wanted: seq<nat>, table: seq<nat>, limits: Limits)
    requires Suitable(limits, table)
    ensures RowsTogether(Packed(wanted, table, limits), table, limits.pmuMaxNum)
  {
    hide Packed, Suitable, Usable, HoldsAt;
    SuitableBounds(limits, table);
    var p, packed := limits.pmuMaxNum, Packed(wanted, table, limits);
    forall x: nat, y: nat, i: nat, j: nat |
      HoldsAt(packed, table, i, x) && HoldsAt(packed, table, j, y) && x / p == y / p
      ensures i / p == j / p
    {
      SameRow(wanted, table, limits, x, y, i, j);
    }
  }

  lemma SameRow(wanted: seq<nat>, table: seq<nat>, limits: Limits, x: nat, y: nat, i: nat, j: nat)
    requires Suitable(limits, table)
    ensures var p, packed := limits.pmuMaxNum, Packed(wanted, table, limits);
            HoldsAt(packed, table, i, x) && HoldsAt(packed, table, j, y) && x / p == y / p ==> i / p == j / p
  {
    hide Packed, PackedRounds, Usable, Suitable, RowsApart;
    SuitableBounds(limits, table);
    var p, packed := limits.pmuMaxNum, Packed(wanted, table, limits);
    if HoldsAt(packed, table, i, x) && HoldsAt(packed, table, j, y) && x / p == y / p {
      PackedAt(wanted, table, limits, i);
      PackedAt(wanted, table, limits, j);
      var rounds := PackedRounds(wanted, table, limits);
      var row := TableRows(wanted, table, limits, x, y);
      assert table[x] in rounds[i / p] && table[y] in rounds[j / p];
      OneRoundOnly(rounds, row, i / p, j / p, table[x], table[y]);
    }
  }

  lemma OneRoundOnly(rounds: seq<Round>, row: map<nat, nat>, a: nat, b: nat, e: nat, f: nat)
    requires RowsApart(rounds, row) && a < |rounds| && b < |rounds| && e in rounds[a] && f in rounds[b]
    requires e in row && f in row ==> row[e] == row[f]
    ensures a == b
  {
  }

  /** The rows of the packed events, and that the rounds keep them apart. */
  lemma TableRows(wanted: seq<nat>, table: seq<nat>, limits: Limits, x: nat, y: nat) returns (row: map<nat, nat>)
    requires Suitable(limits, table)
    requires x < Usable(table) && y < Usable(table) && table[x] != 0 && table[y] != 0
    ensures RowsApart(PackedRounds(wanted, table, limits), row)
    ensures table[x] in row ==> row[table[x]] == x / limits.pmuMaxNum
    ensures table[y] in row ==> row[table[y]] == y / limits.pmuMaxNum
  {
    hide Positions, Usable, EventsAt, Rounds, RowMapOf, Packable, RowMap, RowsOf, RowsApart, TableRowCount;
    var p, places := limits.pmuMaxNum, Positions(table, Usable(table), wanted);
    var events, rows := EventsAt(table, places), RowsOf(places, p);
    PlacesDiffer(table, wanted, places, events);
    RowMapOfIs(events, rows);
    row := RowMapOf(events, rows);
    SortedPackable(table, wanted, limits);
    RoundsKeepRowsApart(events, places, p, TableRowCount(table, p), row);
    if table[x] in row { RowOfEvent(table, Usable(table), places, events, row, p, x); }
    if table[y] in row { RowOfEvent(table, Usable(table), places, events, row, p, y); }
  }

  lemma PlacesDiffer(table: seq<nat>, wanted: seq<nat>, places: seq<nat>, events: seq<nat>)
    requires places == Positions(table, Usable(table), wanted) && events == EventsAt(table, places)
    ensures forall i, j | 0 <= i < j < |events| :: events[i] != events[j]
  {
    hide Positions, Usable, EventsAt;
  }

  lemma RowOfEvent(table: seq<nat>, n: nat, places: seq<nat>, events: seq<nat>, row: map<nat, nat>, p: Positive, x: nat)
    requires n <= |table| && (forall i, j | 0 <= i < j < n && table[i] == table[j] :: table[i] == 0)
    requires |events| == |places| && forall k | 0 <= k < |places| :: places[k] < n && events[k] == table[places[k]]
    requires RowMap(events, RowsOf(places, p), row)
    requires x < n && table[x] != 0 && table[x] in row && table[x] in events
    ensures row[table[x]] == x / p
  {
    hide RowsOf;
    var k :| 0 <= k < |events| && events[k] == table[x];
    assert places[k] == x;
  }

  /** What is done for event 0 on ASCEND950: it never heads a round, it is in the vector whenever another event
      was requested and a round is free, and only the last event moves, to a round of its own. */
  lemma ZeroRule(wanted: seq<nat>, table: seq<nat>, limits: Limits)
    requires Suitable(limits, table)
    ensures var p, packed := limits.pmuMaxNum, Packed(wanted, table, limits);
            var resVec := AddZero(packed, true, limits);
            && (0 in resVec <==> 0 in packed || (packed != [] && |packed| + p <= limits.eventMaxNum))
            && (forall i | 0 <= i < |resVec| && i % p == 0 :: resVec[i] != 0)
            && |resVec| % p == 0 && |resVec| <= limits.eventMaxNum
            && NonZero(resVec) == NonZero(packed)
            && (resVec != packed ==>
                  |resVec| == |packed| + p && resVec[|packed|] == packed[|packed| - 1]
                  && resVec[..|packed| - 1] == packed[..|packed| - 1])
  {
    hide Packed, NonZero, Suitable, Zeros;
    SuitableBounds(limits, table);
    var p, packed := limits.pmuMaxNum, Packed(wanted, table, limits);
    assert |packed| % p == 0 && |packed| <= |table| by { NothingIsLost(wanted, table, limits); }
    if 0 !in packed && packed != [] && |packed| + p <= limits.eventMaxNum {
      ZeroInserted(packed, limits);
    } else {
      forall i: nat | i < |packed| && i % p == 0 ensures packed[i] != 0 {
        EveryRoundHasAnEvent(wanted, table, limits, i);
      }
    }
  }

  /** The moved event leaves every other event behind in earlier rounds. */
  lemma ZeroMovesTheLast(wanted: seq<nat>, table: seq<nat>, limits: Limits, i: nat)
    requires Suitable(limits, table)
    ensures var p, packed := limits.pmuMaxNum, Packed(wanted, table, limits);
            var resVec := AddZero(packed, true, limits);
            i < |packed| - 1 && resVec != packed ==>
              && |packed| < |resVec| && resVec[i] == packed[i] && resVec[|packed|] == packed[|packed| - 1]
              && i / p < |packed| / p
  {
    hide *;
    SuitableBounds(limits, table);
    var p, packed := limits.pmuMaxNum, Packed(wanted, table, limits);
    var resVec, n := AddZero(packed, true, limits), |packed|;
    ZeroRule(wanted, table, limits);
    NothingIsLost(wanted, table, limits);
    if i < n - 1 && resVec != packed {
      assert resVec[i] == resVec[..n - 1][i] && packed[i] == packed[..n - 1][i];
      var rounds := |PackedRounds(wanted, table, limits)|;
      MultipleOf(rounds, p);
      QuotientBelow(i, p, rounds);
    }
  }

  /** The last two requested places of the table are in one row. */
  predicate LastRowShared(places: seq<nat>, p: Positive)
  {
    |places| >= 2 && places[|places| - 2] / p == places[|places| - 1] / p
  }

  /** A vector without padding lists the events at the requested places, one after the other. */
  lemma FullPacking(wanted: seq<nat>, table: seq<nat>, limits: Limits)
    requires Suitable(limits, table)
    ensures 0 !in Packed(wanted, table, limits) ==>
              Packed(wanted, table, limits) == EventsAt(table, Positions(table, Usable(table), wanted))
  {
    hide *;
    SuitableBounds(limits, table);
    NothingIsLost(wanted, table, limits);
    if 0 !in Packed(wanted, table, limits) { NonZeroOfEvents(Packed(wanted, table, limits)); }
  }

  /** Where the vector with event 0 holds an event of the table. */
  lemma HoldsAfterMove(packed: seq<nat>, table: seq<nat>, p: Positive, i: nat, x: nat)
    requires packed != []
    ensures var n := |packed|;
            var resVec := packed[..n - 1] + [0, packed[n - 1]] + Zeros(p - 1);
            HoldsAt(resVec, table, i, x) <==>
              (i < n - 1 && HoldsAt(packed, table, i, x)) || (i == n && HoldsAt(packed, table, n - 1, x))
  {
    hide Usable;
  }

  /** The place from which an entry of a full vector comes is the requested place of that number. */
  lemma PlaceOfEntry(table: seq<nat>, n: nat, places: seq<nat>, events: seq<nat>, i: nat, x: nat)
    requires n <= |table| && forall i, j | 0 <= i < j < n && table[i] == table[j] :: table[i] == 0
    requires |events| == |places| && forall k | 0 <= k < |places| :: places[k] < n && events[k] == table[places[k]]
    requires i < |events| && x < n && table[x] != 0 && events[i] == table[x]
    ensures places[i] == x
  {
  }

  /** In increasing places, what shares the last row includes the place before the last. */
  lemma SharedFromTheEnd(places: seq<nat>, p: Positive, i: nat)
    requires Increasing(places) && i < |places| - 1 && places[i] / p == places[|places| - 1] / p
    ensures LastRowShared(places, p)
  {
    var n := |places|;
    assert places[i] <= places[n - 2] < places[n - 1];
    DivMonotone(places[i], places[n - 2], p);
    DivMonotone(places[n - 2], places[n - 1], p);
  }

  /** If room is made for event 0, the rows stay whole as long as the last one has a single requested event. */
  lemma MovedRowsTogether(wanted: seq<nat>, table: seq<nat>, limits: Limits, x: nat, y: nat, i: nat, j: nat)
    requires Suitable(limits, table)
    ensures var p, packed := limits.pmuMaxNum, Packed(wanted, table, limits);
            var resVec := AddZero(packed, true, limits);
            MakesRoom(packed, limits) && !LastRowShared(Positions(table, Usable(table), wanted), p)
            && HoldsAt(resVec, table, i, x) && HoldsAt(resVec, table, j, y) && x / p == y / p && i < j ==>
              i / p == j / p
  {
    hide Packed, Usable, Suitable, Positions, EventsAt, LastRowShared, Increasing, Zeros;
    SuitableBounds(limits, table);
    var p, packed, places := limits.pmuMaxNum, Packed(wanted, table, limits), Positions(table, Usable(table), wanted);
    var resVec := AddZero(packed, true, limits);
    if MakesRoom(packed, limits) && !LastRowShared(places, p)
       && HoldsAt(resVec, table, i, x) && HoldsAt(resVec, table, j, y) && x / p == y / p && i < j
    {
      HoldsAfterMove(packed, table, p, i, x);
      HoldsAfterMove(packed, table, p, j, y);
      if j == |packed| {
        FullPacking(wanted, table, limits);
        PlaceOfEntry(table, Usable(table), places, packed, i, x);
        PlaceOfEntry(table, Usable(table), places, packed, |packed| - 1, y);
        SharedFromTheEnd(places, p, i);
      } else {
        SameRow(wanted, table, limits, x, y, i, j);
      }
    }
  }

  /** Otherwise the last two events are torn apart. */
  lemma LastTwoTornApart(wanted: seq<nat>, table: seq<nat>, limits: Limits)
    requires Suitable(limits, table)
    ensures var p, packed := limits.pmuMaxNum, Packed(wanted, table, limits);
            MakesRoom(packed, limits) && LastRowShared(Positions(table, Usable(table), wanted), p) ==>
              !RowsTogether(AddZero(packed, true, limits), table, p)
  {
    hide Packed, Usable, Suitable, Positions, EventsAt, Zeros;
    SuitableBounds(limits, table);
    var p, packed, places := limits.pmuMaxNum, Packed(wanted, table, limits), Positions(table, Usable(table), wanted);
    var resVec, n := AddZero(packed, true, limits), |packed|;
    if MakesRoom(packed, limits) && LastRowShared(places, p) {
      FullPacking(wanted, table, limits);
      var x, y := places[n - 2], places[n - 1];
      HoldsAfterMove(packed, table, p, n - 2, x);
      HoldsAfterMove(packed, table, p, n, y);
      ZeroMovesTheLast(wanted, table, limits, n - 2);
      assert HoldsAt(resVec, table, n - 2, x) && HoldsAt(resVec, table, n, y);
    }
  }

  /** Events of one row stay in one round exactly unless room is made for event 0 while the last two requested places
      of the table are in one row. */
  lemma RowsTogetherExactly(wanted: seq<nat>, table: seq<nat>, limits: Limits, isAddZero: bool)
    requires Suitable(limits, table)
    ensures var p, packed := limits.pmuMaxNum, Packed(wanted, table, limits);
            RowsTogether(AddZero(packed, isAddZero, limits), table, p) <==>
              !(isAddZero && MakesRoom(packed, limits) && LastRowShared(Positions(table, Usable(table), wanted), p))
  {
    hide Packed, Usable, Suitable, Positions, LastRowShared, HoldsAt, Zeros;
    SuitableBounds(limits, table);
    var p, packed := limits.pmuMaxNum, Packed(wanted, table, limits);
    if !(isAddZero && MakesRoom(packed, limits)) {
      SameRowSameRound(wanted, table, limits);
    } else if LastRowShared(Positions(table, Usable(table), wanted), p) {
      LastTwoTornApart(wanted, table, limits);
    } else {
      var resVec := AddZero(packed, true, limits);
      forall x: nat, y: nat, i: nat, j: nat |
        HoldsAt(resVec, table, i, x) && HoldsAt(resVec, table, j, y) && x / p == y / p
        ensures i / p == j / p
      {
        if i < j { MovedRowsTogether(wanted, table, limits, x, y, i, j); }
        if j < i { MovedRowsTogether(wanted, table, limits, y, x, j, i); }
      }
    }
  }

  /** Such an input: a table of two rows of two events, both events of the first row requested together with 0. */
  lemma ZeroSplitsARow()
    ensures var table, limits := [1, 2, 3, 4], Limits(4, 2);
            && Suitable(limits, table) && Requestable([0, 1, 2], table, ASCEND950, limits)
            && AddZero(Packed([0, 1, 2], table, limits), true, limits) == [1, 0, 2, 0]
            && !RowsTogether([1, 0, 2, 0], table, 2)
  {
    var table: seq<nat>, wanted: seq<nat>, limits := [1, 2, 3, 4], [0, 1, 2], Limits(4, 2);
    UsableWhole(table);
    AllRequestable(table, limits);
    hide Usable, Positions, EventsAt, Packed, PackedRounds, RowsTogether;
    SmallPositions(table, wanted);
    SmallPacking(table, wanted, limits);
    SmallAddZero(limits);
    RowsTogetherExactly(wanted, table, limits, true);
  }

  lemma AllRequestable(table: seq<nat>, limits: Limits)
    requires table == [1, 2, 3, 4] && Usable(table) == 4
    ensures Requestable([0, 1, 2], table, ASCEND950, limits)
  {
    hide Usable, ToSort;
    assert table[..4] == table && table[0] == 1 && table[1] == 2;
    forall e | e in ToSort([0, 1, 2], ASCEND950) ensures Listed(e, table) { WantedMember([0, 1, 2], ASCEND950, e); }
  }

  lemma SmallAddZero(limits: Limits)
    requires limits == Limits(4, 2)
    ensures MakesRoom([1, 2], limits) && AddZero([1, 2], true, limits) == [1, 0, 2, 0]
  {
    assert Zeros(1) == [0];
  }

  lemma UsableWhole(table: seq<nat>)
    requires forall i, j | 0 <= i < j < |table| :: table[i] != table[j]
    ensures Usable(table) == |table|
  {
    forall n | 0 <= n < |table| ensures table[n] !in table[..n] {
    }
  }

  lemma SmallPositions(table: seq<nat>, wanted: seq<nat>)
    requires table == [1, 2, 3, 4] && wanted == [0, 1, 2]
    ensures Positions(table, 4, wanted) == [0, 1] && LastRowShared([0, 1], 2)
  {
    hide Positions;
    var places := Positions(table, 4, wanted);
    assert table[0] == 1 && table[1] == 2 && table[2] == 3 && table[3] == 4;
    forall x ensures x in places <==> x in [0, 1] {
      if x in places {
        var k :| 0 <= k < |places| && places[k] == x;
        assert x < 4 && table[x] in wanted;
      }
    }
    IncreasingUnique(places, [0, 1]);
  }

  /** Two events of one row fill one round. */
  lemma SmallPacking(table: seq<nat>, wanted: seq<nat>, limits: Limits)
    requires table == [1, 2, 3, 4] && limits == Limits(4, 2)
    requires Usable(table) == 4 && Positions(table, 4, wanted) == [0, 1]
    ensures Packed(wanted, table, limits) == [1, 2]
  {
    hide Usable, Positions;
    var places: seq<nat>, events: seq<nat> := [0, 1], [1, 2];
    assert EventsAt(table, places) == events;
    assert RowsOf(places, 2) == [0, 0];
    GroupLengthIs([0, 0], 2);
    OneGroup(events, [0, 0]);
    var none: seq<seq<nat>> := [];
    assert [events][1..] == none;
    assert Place([], events, 2) == [events];
    assert NextFit([], [events], 2) == NextFit([events], none, 2) == [events];
    FlatOfMore([events], 2);
    assert [events][..0] == none;
    assert Flat([events], 2) == Flat(none, 2) + Padded(events, 2) == events;
  }

  lemma OneGroup(events: seq<nat>, rows: seq<nat>)
    requires |events| == |rows| && rows != [] && GroupLength(rows) == |rows|
    ensures Groups(events, rows) == [events]
  {
    hide GroupLength;
    GroupsUnfold(events, rows);
    GroupsOfNothing(events[|rows|..], rows[|rows|..]);
    assert events[..|rows|] == events;
  }

  lemma SuitableBounds(limits: Limits, table: seq<nat>)
    requires Suitable(limits, table)
    ensures limits.pmuMaxNum >= 2 && |table| <= limits.eventMaxNum
  {
  }

  lemma ZeroInserted(packed: seq<nat>, limits: Limits)
    requires limits.pmuMaxNum >= 2 && |packed| % limits.pmuMaxNum == 0 && packed != [] && 0 !in packed
    ensures var p, n := limits.pmuMaxNum, |packed|;
            var resVec := packed[..n - 1] + [0, packed[n - 1]] + Zeros(p - 1);
            && |resVec| == n + p && resVec[n - 1] == 0 && 0 in resVec && |resVec| % p == 0
            && (forall i | 0 <= i < |resVec| && i % p == 0 :: resVec[i] != 0)
            && NonZero(resVec) == NonZero(packed)
  {
    hide NonZero;
    var p, n := limits.pmuMaxNum, |packed|;
    var resVec := packed[..n - 1] + [0, packed[n - 1]] + Zeros(p - 1);
    var q := n / p;
    assert n == q * p;
    OneMore(q, p);
    OneMore(q - 1, p);
    MultipleOf(q + 1, p);
    assert resVec[n - 1] == 0;
    DivMod(n - 1, p, q - 1, p - 1);
    assert packed[n - 1] in packed;
    forall i | 0 <= i < |resVec| && i % p == 0 ensures resVec[i] != 0 {
      if i < n - 1 {
        assert resVec[i] == packed[i] && packed[i] in packed;
      } else if i > n {
        DivMod(i, p, q, i - n);
      }
    }
    ZeroInsertedEvents(packed, p);
  }

  lemma ZeroInsertedEvents(packed: seq<nat>, p: Positive)
    requires packed != [] && 0 !in packed
    ensures var n := |packed|;
            NonZero(packed[..n - 1] + [0, packed[n - 1]] + Zeros(p - 1)) == NonZero(packed)
  {
    var n := |packed|;
    var front, last := packed[..n - 1], packed[n - 1];
    assert packed == front + [last];
    var none: seq<nat> := [];
    assert [0, last][1..] == [last] && [last][1..] == none;
    hide NonZero;
    NonZeroConcat(front, [0, last]);
    NonZeroConcat(front + [0, last], Zeros(p - 1));
    NonZeroOfZeros(p - 1);
    NonZeroConcat(front, [last]);
    NonZeroPair(last);
  }

  lemma NonZeroPair(last: nat)
    ensures NonZero([0, last]) == NonZero([last])
  {
    assert [0, last][1..] == [last];
  }
}

/** Instruction names by masked lookup (instr_encoding.h and .cpp): a group of tables per mask, tried in an order. */
module MaskedDecode {
  import opened Common
  import opened Sorting

  datatype Instr = Instr(pipe: string, name: string)

  /** One table of a group: names by masked encoding. */
  datatype InstrTable<K(==)> = InstrTable(pipe: string, table: map<K, string>)

  /** The first table of a group that knows a masked encoding. */
  function FirstTable<K(==)>(tables: seq<InstrTable<K>>, key: K): Option<Instr> {
    if tables == [] then None
    else if key in tables[0].table then Some(Instr(tables[0].pipe, tables[0].table[key]))
    else FirstTable(tables[1..], key)
  }

  method SearchTables<K(==)>(tables: seq<InstrTable<K>>, key: K) returns (r: Option<Instr>)
    ensures r == FirstTable(tables, key)
  {
    for k := 0 to |tables|
      invariant FirstTable(tables, key) == FirstTable(tables[k..], key)
    {
      assert tables[k..][1..] == tables[k + 1..];
      if key in tables[k].table {
        return Some(Instr(tables[k].pipe, tables[k].table[key]));
      }
    }
    return None;
  }

  /** Which table of a group is found, and what it says: the first that lists the key, its pipe and its name. */
  lemma {:induction false} FoundExactly<K>(tables: seq<InstrTable<K>>, key: K)
    ensures FirstTable(tables, key).None? <==> forall i | 0 <= i < |tables| :: key !in tables[i].table
    ensures forall i | 0 <= i < |tables| && key in tables[i].table
                       && (forall j | 0 <= j < i :: key !in tables[j].table) ::
              && FirstTable(tables, key).Some?
              && FirstTable(tables, key).value.pipe == tables[i].pipe
              && FirstTable(tables, key).value.name == tables[i].table[key]
  {
    if tables != [] {
      var rest := tables[1..];
      FoundExactly(rest, key);
      assert forall i | 0 <= i < |rest| :: rest[i] == tables[i + 1];
      forall i | 0 < i < |tables| && key in tables[i].table && (forall j | 0 <= j < i :: key !in tables[j].table)
        ensures && FirstTable(tables, key).Some? && FirstTable(tables, key).value.pipe == tables[i].pipe
                && FirstTable(tables, key).value.name == tables[i].table[key]
      {
        assert key !in tables[0].table;
        assert key in rest[i - 1].table;
        forall j | 0 <= j < i - 1 ensures key !in rest[j].table { assert key !in tables[j + 1].table; }
      }
    }
  }

  // ---------------------------------------------------------------------------------------
  // Bits
  // ---------------------------------------------------------------------------------------

  /** Bit k of a number, the lowest being bit 0. */
  predicate Bit(n: nat, k: nat) {
    if k == 0 then n % 2 == 1 else Bit(n / 2, k - 1)
  }

  function Pow2(k: nat): nat {
    if k == 0 then 1 else 2 * Pow2(k - 1)
  }

  lemma {:induction false} NoBits(k: nat)
    ensures !Bit(0, k)
  {
    if k > 0 { NoBits(k - 1); }
  }

  /** A number is its bits. */
  lemma {:induction false} BitsDecide(a: nat, b: nat)
    requires forall k: nat :: Bit(a, k) == Bit(b, k)
    ensures a == b
    decreases a + b
  {
    assert Bit(a, 0) == Bit(b, 0);
    forall k: nat ensures Bit(a / 2, k) == Bit(b / 2, k) { assert Bit(a, k + 1) == Bit(b, k + 1); }
    if a > 0 || b > 0 { BitsDecide(a / 2, b / 2); }
  }

  /** The bits of a conjunction are the bits that both numbers have. */
  lemma {:induction false} AndBits(a: nat, b: nat, k: nat)
    ensures Bit(BitAnd(a, b), k) <==> Bit(a, k) && Bit(b, k)
  {
    if a == 0 || b == 0 {
      NoBits(k);
    } else {
      var half, bit := BitAnd(a / 2, b / 2), if a % 2 == 1 && b % 2 == 1 then 1 else 0;
      assert BitAnd(a, b) / 2 == half && BitAnd(a, b) % 2 == bit;
      if k > 0 { AndBits(a / 2, b / 2, k - 1); }
    }
  }

  /** An encoding meets the pattern `key` of a mask: it agrees with it in every bit of the mask, and the pattern has no
      other bits. */
  ghost predicate Meets(encoding: nat, mask: nat, key: nat) {
    forall k: nat :: Bit(key, k) <==> Bit(mask, k) && Bit(encoding, k)
  }

  lemma MeetsExactly(encoding: nat, mask: nat, key: nat)
    ensures BitAnd(encoding, mask) == key <==> Meets(encoding, mask, key)
  {
    hide BitAnd, Bit;
    forall k: nat ensures Bit(BitAnd(encoding, mask), k) <==> Bit(mask, k) && Bit(encoding, k) {
      AndBits(encoding, mask, k);
    }
    if Meets(encoding, mask, key) { BitsDecide(BitAnd(encoding, mask), key); }
  }

  /** The number of set bits among the lowest `w`. */
  function CountBits(n: nat, w: nat): nat {
    if w == 0 then 0 else CountBits(n, w - 1) + if Bit(n, w - 1) then 1 else 0
  }

  lemma {:induction false} CountFromBelow(n: nat, w: nat)
    requires w > 0
    ensures CountBits(n, w) == n % 2 + CountBits(n / 2, w - 1)
  {
    if w > 1 { CountFromBelow(n, w - 1); }
  }

  lemma {:induction false} PopCountIs(n: nat, w: nat)
    requires n < Pow2(w)
    ensures PopCount(n) == CountBits(n, w)
    decreases w
  {
    if w > 0 {
      CountFromBelow(n, w);
      PopCountIs(n / 2, w - 1);
    }
  }

  lemma {:induction false} PowerTimes(k: nat, m: nat)
    ensures Pow2(k + m) == Pow2(k) * Pow2(m)
  {
    if k > 0 {
      PowerTimes(k - 1, m);
      assert 2 * (Pow2(k - 1) * Pow2(m)) == (2 * Pow2(k - 1)) * Pow2(m);
    }
  }

  lemma WordIsPower()
    ensures Pow2(64) == 0x1_0000_0000_0000_0000
  {
    FourBits();
    hide Pow2;
    PowerTimes(4, 4);
    PowerTimes(8, 8);
    PowerTimes(16, 16);
    PowerTimes(32, 32);
  }

  lemma FourBits()
    ensures Pow2(4) == 16
  {
    assert Pow2(4) == 2 * Pow2(3) == 4 * Pow2(2);
  }

  // ---------------------------------------------------------------------------------------
  // The order of masks
  // ---------------------------------------------------------------------------------------

  const WORD: nat := 0x1_0000_0000_0000_0000

  /** Words of 32 or 64 bits as numbers: the bits that both have. */
  function BitAnd(a: nat, b: nat): nat {
    if a == 0 || b == 0 then 0 else 2 * BitAnd(a / 2, b / 2) + if a % 2 == 1 && b % 2 == 1 then 1 else 0
  }

  function PopCount(m: nat): nat {
    if m == 0 then 0 else PopCount(m / 2) + m % 2
  }

  /** More bits first; among masks of as many bits, the larger one first. */
  predicate Before(a: nat, b: nat) {
    if PopCount(a) != PopCount(b) then PopCount(a) > PopCount(b) else a > b
  }

  /** The order of words by their bits. */
  lemma BeforeExactly(a: nat, b: nat)
    requires a < 0x1_0000_0000_0000_0000 && b < 0x1_0000_0000_0000_0000
    ensures Before(a, b) <==>
            CountBits(a, 64) > CountBits(b, 64) || (CountBits(a, 64) == CountBits(b, 64) && a > b)
  {
    WordIsPower();
    hide CountBits, PopCount, Pow2;
    PopCountIs(a, 64);
    PopCountIs(b, 64);
  }

  lemma {:induction false} AndKeepsOrder(n: nat, m: nat)
    ensures BitAnd(n, m) <= n && BitAnd(n, m) <= m && PopCount(BitAnd(n, m)) <= PopCount(m)
  {
    if n > 0 && m > 0 {
      AndKeepsOrder(n / 2, m / 2);
      var half := BitAnd(n / 2, m / 2);
      var bit := if n % 2 == 1 && m % 2 == 1 then 1 else 0;
      assert BitAnd(n, m) / 2 == half && BitAnd(n, m) % 2 == bit;
      assert PopCount(BitAnd(n, m)) == PopCount(half) + bit;
    }
  }

  /** A mask that looks at more bits comes before every mask it extends. */
  lemma ExtensionComesFirst(n: nat, m: nat)
    requires BitAnd(n, m) == n && n != m
    ensures Before(m, n)
  {
    AndKeepsOrder(n, m);
    hide BitAnd, PopCount;
  }

  type Groups = map<nat, seq<InstrTable<nat>>>

  predicate Words(rMap: Groups) {
    forall m | m in rMap :: m < WORD
  }

  /** The order as a number. */
  function Rank(m: nat): int {
    -(PopCount(m) * WORD + m)
  }

  lemma RankIsOrder(a: nat, b: nat)
    requires a < WORD && b < WORD
    ensures Rank(a) < Rank(b) <==> Before(a, b)
    ensures Rank(a) == Rank(b) <==> a == b
  {
    hide PopCount;
    if PopCount(a) > PopCount(b) {
      assert PopCount(a) * WORD >= (PopCount(b) + 1) * WORD;
    } else if PopCount(b) > PopCount(a) {
      assert PopCount(b) * WORD >= (PopCount(a) + 1) * WORD;
    }
  }

  predicate InOrder(masks: seq<nat>) {
    forall i, j | 0 <= i < j < |masks| :: Before(masks[i], masks[j])
  }

  /** The masks, each once, in whatever order the hash map delivers them. */
  method Keys(rMap: Groups) returns (masks: seq<nat>)
    ensures multiset(masks) == multiset(rMap.Keys)
  {
    masks := [];
    var left := rMap.Keys;
    while left != {}
      invariant left <= rMap.Keys && multiset(masks) == multiset(rMap.Keys - left)
      decreases |left|
    {
      var m: nat :| m in left;
      assert rMap.Keys - (left - {m}) == (rMap.Keys - left) + {m};
      masks, left := masks + [m], left - {m};
    }
    assert rMap.Keys - left == rMap.Keys;
  }

  lemma DistinctKeys(masks: seq<nat>, keys: set<nat>)
    requires multiset(masks) == multiset(keys)
    ensures forall m :: m in masks <==> m in keys
    ensures forall i, j | 0 <= i < j < |masks| :: masks[i] != masks[j]
  {
    forall m ensures m in masks <==> m in keys { assert m in masks <==> m in multiset(masks); }
    forall i, j | 0 <= i < j < |masks| ensures masks[i] != masks[j] {
      assert masks == masks[..j] + [masks[j]] + masks[j + 1..];
      assert masks[i] in masks[..j];
      assert multiset(masks)[masks[j]] == multiset(keys)[masks[j]] <= 1;
    }
  }

  lemma SortedByRank(masks: seq<nat>, rank: map<nat, int>)
    requires forall m | m in rank :: m < WORD && rank[m] == Rank(m)
    requires forall i, j | 0 <= i < j < |masks| :: masks[i] != masks[j]
    requires Ranked(masks, rank) && Ordered(masks, rank)
    ensures InOrder(masks)
  {
    hide Before, Rank;
    forall i, j | 0 <= i < j < |masks| ensures Before(masks[i], masks[j]) {
      RankIsOrder(masks[i], masks[j]);
    }
  }

  method MaskOrder(rMap: Groups) returns (masks: seq<nat>)
    requires Words(rMap)
    ensures (forall m :: m in masks <==> m in rMap) && InOrder(masks)
  {
    hide Rank, InOrder;
    var keys := Keys(rMap);
    var rank := map m | m in rMap.Keys :: Rank(m);
    DistinctKeys(keys, rMap.Keys);
    masks := SortByRank(keys, rank);
    DistinctKeys(masks, rMap.Keys);
    SortedByRank(masks, rank);
  }

  // ---------------------------------------------------------------------------------------
  // 32 and 64 bits: the most specific match
  // ---------------------------------------------------------------------------------------

  predicate Matches(rMap: Groups, m: nat, encoding: nat) {
    m in rMap && FirstTable(rMap[m], BitAnd(encoding, m)).Some?
  }

  /** When a mask matches: some table of its group lists a pattern that the encoding meets. */
  lemma MatchesExactly(rMap: Groups, m: nat, encoding: nat)
    ensures Matches(rMap, m, encoding) <==>
            m in rMap && exists i, key | 0 <= i < |rMap[m]| && key in rMap[m][i].table :: Meets(encoding, m, key)
  {
    hide BitAnd, Meets, FirstTable;
    if m in rMap {
      var found := BitAnd(encoding, m);
      FoundExactly(rMap[m], found);
      MeetsExactly(encoding, m, found);
      if i, key :| 0 <= i < |rMap[m]| && key in rMap[m][i].table && Meets(encoding, m, key) {
        MeetsExactly(encoding, m, key);
        assert found in rMap[m][i].table;
      }
      if Matches(rMap, m, encoding) {
        var i :| 0 <= i < |rMap[m]| && found in rMap[m][i].table;
        assert found in rMap[m][i].table && Meets(encoding, m, found);
      }
    }
  }

  /** What a mask that matches gives: pipe and name of the first table of its group with a pattern met. */
  lemma MatchGives(rMap: Groups, m: nat, encoding: nat, i: nat, key: nat)
    requires m in rMap && i < |rMap[m]| && key in rMap[m][i].table && Meets(encoding, m, key)
    requires forall j, k | 0 <= j < i && k in rMap[m][j].table :: !Meets(encoding, m, k)
    ensures FirstTable(rMap[m], BitAnd(encoding, m)).Some?
    ensures FirstTable(rMap[m], BitAnd(encoding, m)).value.pipe == rMap[m][i].pipe
    ensures FirstTable(rMap[m], BitAnd(encoding, m)).value.name == rMap[m][i].table[key]
  {
    hide BitAnd, Meets, FirstTable;
    MeetsExactly(encoding, m, key);
    forall j | 0 <= j < i ensures key !in rMap[m][j].table { assert Meets(encoding, m, key); }
    FoundExactly(rMap[m], key);
  }

  /** Mask m matches and comes before every other mask that does. */
  ghost predicate MostSpecific(rMap: Groups, m: nat, encoding: nat) {
    Matches(rMap, m, encoding) && forall n | Matches(rMap, n, encoding) :: n == m || Before(m, n)
  }

  /** The lookup loop over masks in order. */
  method UpdateEncoding(rMap: Groups, masks: seq<nat>, encoding: nat) returns (r: Option<Instr>)
    requires (forall m :: m in masks <==> m in rMap) && InOrder(masks)
    ensures r.None? <==> forall m :: !Matches(rMap, m, encoding)
    ensures r.Some? ==> exists m :: MostSpecific(rMap, m, encoding) && r == FirstTable(rMap[m], BitAnd(encoding, m))
  {
    hide Before, FirstTable;
    for k := 0 to |masks|
      invariant forall j | 0 <= j < k :: !Matches(rMap, masks[j], encoding)
    {
      var encodingKey := BitAnd(encoding, masks[k]);
      r := SearchTables(rMap[masks[k]], encodingKey);
      if r.Some? {
        FirstInOrder(rMap, masks, encoding, k);
        return;
      }
    }
    return None;
  }

  lemma FirstInOrder(rMap: Groups, masks: seq<nat>, encoding: nat, k: nat)
    requires (forall m :: m in masks <==> m in rMap) && InOrder(masks) && k < |masks|
    requires Matches(rMap, masks[k], encoding) && forall j | 0 <= j < k :: !Matches(rMap, masks[j], encoding)
    ensures MostSpecific(rMap, masks[k], encoding)
  {
    hide Before, FirstTable;
    forall n | Matches(rMap, n, encoding) ensures n == masks[k] || Before(masks[k], n) {
      assert n in masks;
      var j :| 0 <= j < |masks| && masks[j] == n;
      assert j >= k;
    }
  }

  /** There is one most specific match at most: the order of the hash map cannot matter. */
  lemma MostSpecificIsUnique(rMap: Groups, m: nat, n: nat, encoding: nat)
    requires MostSpecific(rMap, m, encoding) && MostSpecific(rMap, n, encoding)
    ensures m == n
  {
    hide PopCount, Matches;
  }

  /** The chosen pattern is never a mere widening of another matching one. */
  lemma NoMatchExtendsTheChosen(rMap: Groups, m: nat, n: nat, encoding: nat)
    requires MostSpecific(rMap, m, encoding) && Matches(rMap, n, encoding) && BitAnd(m, n) == m
    ensures n == m
  {
    hide PopCount, Matches, BitAnd;
    if n != m { ExtensionComesFirst(m, n); }
  }

  // ---------------------------------------------------------------------------------------
  // The pipe shown for a 32-bit match
  // ---------------------------------------------------------------------------------------

  const SU_PIPE := "SCALAR"
  const FC_PIPE := "FLOWCTRL"
  const SIMD_PIPE := "SIMD"
  const VEC_PIPE := "VECTOR"
  const PIPE_ID_MASK: nat := 0x3c00

  /** Some bits of special instructions name their pipe: the instructions by mask, the pipes by number. */
  datatype SpecialPipes = SpecialPipes(instrs: map<nat, set<nat>>, pipes: map<nat, string>)

  predicate IsSpecial(special: SpecialPipes, encoding: nat) {
    exists m | m in special.instrs :: BitAnd(encoding, m) in special.instrs[m]
  }

  /** The pipe that the instruction itself names, or none. */
  function NamedPipe(special: SpecialPipes, encoding: nat): string {
    if IsSpecial(special, encoding) && BitAnd(encoding, PIPE_ID_MASK) in special.pipes
    then special.pipes[BitAnd(encoding, PIPE_ID_MASK)]
    else ""
  }

  /** Flow control is shown as the pipe it names, or as scalar; SIMD is shown as vector. */
  function ShownPipe(special: SpecialPipes, pipe: string, encoding: nat): string {
    if pipe == FC_PIPE then
      var named := NamedPipe(special, encoding);
      if named == "" then SU_PIPE else if named == SIMD_PIPE then VEC_PIPE else named
    else if pipe == SIMD_PIPE then VEC_PIPE
    else pipe
  }

  /** The hash map of special masks may be tried in any order. */
  method GetSpecialInstrPipeByEncoding(special: SpecialPipes, encoding: nat) returns (pipe: string)
    ensures pipe == NamedPipe(special, encoding)
  {
    hide BitAnd;
    var left := special.instrs.Keys;
    while left != {}
      invariant left <= special.instrs.Keys
      invariant BitAnd(encoding, PIPE_ID_MASK) in special.pipes ==>
                  forall m | m in special.instrs && m !in left :: BitAnd(encoding, m) !in special.instrs[m]
      decreases |left|
    {
      var mask: nat :| mask in left;
      var hexCode := BitAnd(encoding, mask);
      if hexCode in special.instrs[mask] {
        hexCode := BitAnd(encoding, PIPE_ID_MASK);
        if hexCode in special.pipes {
          return special.pipes[hexCode];
        }
      }
      left := left - {mask};
    }
    return "";
  }

  method InstrUpdate(special: SpecialPipes, pipe: string, encoding: nat) returns (shown: string)
    ensures shown == ShownPipe(special, pipe, encoding)
  {
    hide NamedPipe;
    shown := pipe;
    if shown == FC_PIPE {
      var tmpPipe := GetSpecialInstrPipeByEncoding(special, encoding);
      if tmpPipe != "" {
        shown := tmpPipe;
      } else {
        shown := SU_PIPE;
      }
    }
    if shown == SIMD_PIPE {
      shown := VEC_PIPE;
    }
  }

  /** The internal pipe names never show, as long as no special instruction names flow control as its pipe. */
  lemma InternalPipesAreHidden(special: SpecialPipes, pipe: string, encoding: nat)
    ensures ShownPipe(special, pipe, encoding) != SIMD_PIPE
    ensures FC_PIPE !in special.pipes.Values ==> ShownPipe(special, pipe, encoding) != FC_PIPE
  {
    assert SIMD_PIPE != SU_PIPE && SIMD_PIPE != VEC_PIPE && FC_PIPE != VEC_PIPE && FC_PIPE != SU_PIPE by {
      assert SIMD_PIPE[1] == 'I' && SU_PIPE[1] == 'C' && SIMD_PIPE[0] == 'S' && VEC_PIPE[0] == 'V' && FC_PIPE[0] == 'F';
    }
    hide BitAnd;
    var id := BitAnd(encoding, PIPE_ID_MASK);
    assert id in special.pipes ==> special.pipes[id] in special.pipes.Values;
  }

  lemma EvenMask(a: nat, b: nat)
    ensures BitAnd(a, 2 * b) == 2 * BitAnd(a / 2, b)
  {
  }

  lemma OddMask(a: nat, b: nat)
    ensures BitAnd(a, 2 * b + 1) == 2 * BitAnd(a / 2, b) + a % 2
  {
  }

  lemma NoMask(a: nat)
    ensures BitAnd(a, 0) == 0
  {
  }

  lemma LowBits(a: nat)
    ensures BitAnd(a, 15) == a % 16
  {
    hide BitAnd;
    var b := a / 2;
    var c := b / 2;
    var d := c / 2;
    var e := d / 2;
    OddMask(a, 7);
    OddMask(b, 3);
    OddMask(c, 1);
    OddMask(d, 0);
    NoMask(e);
    Sixteenth(a, b, c, d, e);
  }

  lemma Sixteenth(a: nat, b: nat, c: nat, d: nat, e: nat)
    requires b == a / 2 && c == b / 2 && d == c / 2 && e == d / 2
    ensures a % 16 == 2 * (2 * (2 * (d % 2) + c % 2) + b % 2) + a % 2
  {
    var r := 2 * (2 * (2 * (d % 2) + c % 2) + b % 2) + a % 2;
    assert a == 16 * e + r && r < 16;
  }

  /** The bits that name the pipe are bits 10 to 13. */
  lemma PipeBits(encoding: nat)
    ensures BitAnd(encoding, PIPE_ID_MASK) == encoding / 0x400 % 0x10 * 0x400
  {
    hide BitAnd;
    EvenMask(encoding, 0x1e00);
    EvenMask(encoding / 2, 0xf00);
    EvenMask(encoding / 4, 0x780);
    EvenMask(encoding / 8, 0x3c0);
    EvenMask(encoding / 16, 0x1e0);
    EvenMask(encoding / 32, 0xf0);
    EvenMask(encoding / 64, 0x78);
    EvenMask(encoding / 128, 0x3c);
    EvenMask(encoding / 256, 0x1e);
    EvenMask(encoding / 512, 0xf);
    LowBits(encoding / 1024);
  }

  /** The pipe shown for every kind of pipe: others stay, SIMD shows as vector, flow control as the pipe that a special
      instruction names in bits 10 to 13, or as scalar. */
  lemma ShownExactly(special: SpecialPipes, pipe: string, encoding: nat)
    ensures pipe != "FLOWCTRL" && pipe != "SIMD" ==> ShownPipe(special, pipe, encoding) == pipe
    ensures pipe == "SIMD" ==> ShownPipe(special, pipe, encoding) == "VECTOR"
    ensures pipe == "FLOWCTRL" ==>
              var id := encoding / 0x400 % 0x10 * 0x400;
              var marked := exists m, key | m in special.instrs && key in special.instrs[m] :: Meets(encoding, m, key);
              ShownPipe(special, pipe, encoding) ==
              if !marked || id !in special.pipes || special.pipes[id] == "" then "SCALAR"
              else if special.pipes[id] == "SIMD" then "VECTOR"
              else special.pipes[id]
  {
    assert FC_PIPE != SIMD_PIPE by { assert FC_PIPE[0] == 'F' && SIMD_PIPE[0] == 'S'; }
    PipeBits(encoding);
    hide BitAnd, Meets;
    forall m: nat, key: nat ensures BitAnd(encoding, m) == key <==> Meets(encoding, m, key) {
      MeetsExactly(encoding, m, key);
    }
  }

  /** The 32-bit lookup: the most specific match, with its pipe as shown. */
  method UpdateEncoding32(rMap: Groups, masks: seq<nat>, special: SpecialPipes, encoding: nat)
    returns (r: Option<Instr>)
    requires (forall m :: m in masks <==> m in rMap) && InOrder(masks)
    ensures r.None? <==> forall m :: !Matches(rMap, m, encoding)
    ensures r.Some? ==>
              exists m | MostSpecific(rMap, m, encoding) ::
                var found := FirstTable(rMap[m], BitAnd(encoding, m)).value;
                r == Some(Instr(ShownPipe(special, found.pipe, encoding), found.name))
  {
    hide Before, FirstTable, BitAnd, ShownPipe, InOrder;
    r := UpdateEncoding(rMap, masks, encoding);
    if r.Some? {
      var shown := InstrUpdate(special, r.value.pipe, encoding);
      r := Some(Instr(shown, r.value.name));
    }
  }

  // ---------------------------------------------------------------------------------------
  // 128 bits: no order, but no two patterns meet
  // ---------------------------------------------------------------------------------------

  datatype Enc128 = Enc128(low64: bv64, high64: bv64)

  type Groups128 = map<Enc128, seq<InstrTable<Enc128>>>

  function And(a: Enc128, b: Enc128): Enc128 {
    Enc128(a.low64 & b.low64, a.high64 & b.high64)
  }

  type Table128 = map<Enc128, string>

  const INSTR_VEC_TABLE3_A5: Table128 := map[Enc128(0x1, 1) := "ATOM"]
  const INSTR_VEC_TABLE4_A5: Table128 := map[Enc128(0x20001, 1) := "FFMA.i"]
  const INSTR_VEC_TABLE6_A5: Table128 := map[Enc128(0xa0001, 1) := "FSETP.i"]
  const INSTR_VEC_TABLE8_A5: Table128 := map[
    Enc128(0x120001, 1) := "FMUL.i", Enc128(0x1a0001, 1) := "FADD.i", Enc128(0x2a0001, 1) := "FMNMX.i",
    Enc128(0x5a0001, 1) := "FDIV.i", Enc128(0x860001, 1) := "IMAD.X", Enc128(0x1860001, 1) := "IMAD.X.i",
    Enc128(0x2860001, 1) := "IMUL.i", Enc128(0xe0001, 1) := "IADD.i", Enc128(0x8e0001, 1) := "IADD.X.i",
    Enc128(0x18e0001, 1) := "ISETP.i"]
  const INSTR_VEC_TABLE11_A5: Table128 := map[Enc128(0x60001, 1) := "FMUL.i"]
  const INSTR_VEC_TABLE12_A5: Table128 := map[Enc128(0x20e0001, 1) := "IMNMX.i", Enc128(0x160e0001, 1) := "IDIV.i"]
  const INSTR_VEC_TABLE14_A5: Table128 := map[Enc128(0x28e0001, 1) := "Lop3", Enc128(0x68e0001, 1) := "Lop3.i"]
  const INSTR_VEC_TABLE18_A5: Table128 := map[Enc128(0x5260001, 1) := "CALLI"]

  function Vec(table: Table128): seq<InstrTable<Enc128>> {
    [InstrTable(VEC_PIPE, table)]
  }

  /** The patterns of the A5 chip for 128-bit instructions: tables by mask. */
  const MASK2GROUPS_A5_128BIT: Groups128 := map[
    Enc128(0x3e0001, 1) := Vec(INSTR_VEC_TABLE3_A5),
    Enc128(0x1e0001, 1) := Vec(INSTR_VEC_TABLE4_A5),
    Enc128(0x7e0001, 1) := Vec(INSTR_VEC_TABLE6_A5),
    Enc128(0x3fe0001, 1) := Vec(INSTR_VEC_TABLE8_A5),
    Enc128(0xfe0001, 1) := Vec(INSTR_VEC_TABLE11_A5),
    Enc128(0x1ffe0001, 1) := Vec(INSTR_VEC_TABLE12_A5),
    Enc128(0x7fe0001, 1) := Vec(INSTR_VEC_TABLE14_A5),
    Enc128(0x3ffe0001, 1) := Vec(INSTR_VEC_TABLE18_A5)]

  predicate Matches128(rMap: Groups128, m: Enc128, encoding: Enc128) {
    m in rMap && FirstTable(rMap[m], And(encoding, m)).Some?
  }

  /** The lookup loop, over the masks in whatever order they come. */
  method UpdateEncoding128(rMap: Groups128, encoding: Enc128) returns (r: Option<Instr>)
    ensures r.None? <==> forall m :: !Matches128(rMap, m, encoding)
    ensures r.Some? ==> exists m :: Matches128(rMap, m, encoding) && r == FirstTable(rMap[m], And(encoding, m))
  {
    hide FirstTable, And;
    var left := rMap.Keys;
    while left != {}
      invariant left <= rMap.Keys
      invariant forall m | Matches128(rMap, m, encoding) :: m in left
      decreases |left|
    {
      var mask :| mask in left;
      var encodingKey := And(encoding, mask);
      r := SearchTables(rMap[mask], encodingKey);
      if r.Some? {
        assert Matches128(rMap, mask, encoding);
        return;
      }
      left := left - {mask};
    }
    return None;
  }

  /** The low half of the mask whose pattern an encoding meets, found by going through the patterns. */
  function MaskFor(low: bv64): bv64 {
    if low & 0x3e0001 == 0x1 then 0x3e0001
    else if low & 0x1e0001 == 0x20001 then 0x1e0001
    else if low & 0x7e0001 == 0xa0001 then 0x7e0001
    else if low & 0xfe0001 == 0x60001 then 0xfe0001
    else if low & 0x1ffe0001 == 0x20e0001 || low & 0x1ffe0001 == 0x160e0001 then 0x1ffe0001
    else if low & 0x7fe0001 == 0x28e0001 || low & 0x7fe0001 == 0x68e0001 then 0x7fe0001
    else if low & 0x3ffe0001 == 0x5260001 then 0x3ffe0001
    else 0x3fe0001
  }

  predicate MeetsPattern(low: bv64, mask: bv64) {
    || (mask == 0x3e0001 && low & 0x3e0001 == 0x1)
    || (mask == 0x1e0001 && low & 0x1e0001 == 0x20001)
    || (mask == 0x7e0001 && low & 0x7e0001 == 0xa0001)
    || (mask == 0x3fe0001 && (low & 0x3fe0001 == 0x120001 || low & 0x3fe0001 == 0x1a0001 || low & 0x3fe0001 == 0x2a0001
        || low & 0x3fe0001 == 0x5a0001 || low & 0x3fe0001 == 0x860001 || low & 0x3fe0001 == 0x1860001
        || low & 0x3fe0001 == 0x2860001 || low & 0x3fe0001 == 0xe0001 || low & 0x3fe0001 == 0x8e0001
        || low & 0x3fe0001 == 0x18e0001))
    || (mask == 0xfe0001 && low & 0xfe0001 == 0x60001)
    || (mask == 0x1ffe0001 && (low & 0x1ffe0001 == 0x20e0001 || low & 0x1ffe0001 == 0x160e0001))
    || (mask == 0x7fe0001 && (low & 0x7fe0001 == 0x28e0001 || low & 0x7fe0001 == 0x68e0001))
    || (mask == 0x3ffe0001 && low & 0x3ffe0001 == 0x5260001)
  }

  /** Each encoding meets the patterns of one mask at most, whatever its other bits are. */
  lemma PatternsAreApart(low: bv64, mask: bv64)
    requires MeetsPattern(low, mask)
    ensures mask == MaskFor(low)
  {
  }

  lemma VecSearch(table: Table128, key: Enc128)
    requires FirstTable(Vec(table), key).Some?
    ensures key in table
  {
    var none: seq<InstrTable<Enc128>> := [];
    assert Vec(table)[1..] == none;
  }

  /** The group of every mask. */
  lemma GroupOfMask(m: Enc128)
    requires m in MASK2GROUPS_A5_128BIT
    ensures m.high64 == 1
    ensures var g := MASK2GROUPS_A5_128BIT[m];
            || (m.low64 == 0x3e0001 && g == Vec(INSTR_VEC_TABLE3_A5))
            || (m.low64 == 0x1e0001 && g == Vec(INSTR_VEC_TABLE4_A5))
            || (m.low64 == 0x7e0001 && g == Vec(INSTR_VEC_TABLE6_A5))
            || (m.low64 == 0x3fe0001 && g == Vec(INSTR_VEC_TABLE8_A5))
            || (m.low64 == 0xfe0001 && g == Vec(INSTR_VEC_TABLE11_A5))
            || (m.low64 == 0x1ffe0001 && g == Vec(INSTR_VEC_TABLE12_A5))
            || (m.low64 == 0x7fe0001 && g == Vec(INSTR_VEC_TABLE14_A5))
            || (m.low64 == 0x3ffe0001 && g == Vec(INSTR_VEC_TABLE18_A5))
  {
    hide Vec, INSTR_VEC_TABLE3_A5, INSTR_VEC_TABLE4_A5, INSTR_VEC_TABLE6_A5, INSTR_VEC_TABLE8_A5,
      INSTR_VEC_TABLE11_A5, INSTR_VEC_TABLE12_A5, INSTR_VEC_TABLE14_A5, INSTR_VEC_TABLE18_A5;
  }

  /** The keys of every table. */
  lemma KeysOfTables(low64: bv64, high64: bv64)
    ensures Enc128(low64, high64) in INSTR_VEC_TABLE3_A5 ==> low64 == 0x1
    ensures Enc128(low64, high64) in INSTR_VEC_TABLE4_A5 ==> low64 == 0x20001
    ensures Enc128(low64, high64) in INSTR_VEC_TABLE6_A5 ==> low64 == 0xa0001
    ensures Enc128(low64, high64) in INSTR_VEC_TABLE8_A5 ==>
              low64 == 0x120001 || low64 == 0x1a0001 || low64 == 0x2a0001 || low64 == 0x5a0001 || low64 == 0x860001
              || low64 == 0x1860001 || low64 == 0x2860001 || low64 == 0xe0001 || low64 == 0x8e0001 || low64 == 0x18e0001
    ensures Enc128(low64, high64) in INSTR_VEC_TABLE11_A5 ==> low64 == 0x60001
    ensures Enc128(low64, high64) in INSTR_VEC_TABLE12_A5 ==> low64 == 0x20e0001 || low64 == 0x160e0001
    ensures Enc128(low64, high64) in INSTR_VEC_TABLE14_A5 ==> low64 == 0x28e0001 || low64 == 0x68e0001
    ensures Enc128(low64, high64) in INSTR_VEC_TABLE18_A5 ==> low64 == 0x5260001
  {
  }

  /** A match in the table is a match with one of the listed patterns. */
  lemma TableHoldsPatterns(m: Enc128, encoding: Enc128)
    requires Matches128(MASK2GROUPS_A5_128BIT, m, encoding)
    ensures m.high64 == 1 && MeetsPattern(encoding.low64, m.low64)
  {
    hide MASK2GROUPS_A5_128BIT, FirstTable, Vec, INSTR_VEC_TABLE3_A5, INSTR_VEC_TABLE4_A5, INSTR_VEC_TABLE6_A5,
      INSTR_VEC_TABLE8_A5, INSTR_VEC_TABLE11_A5, INSTR_VEC_TABLE12_A5, INSTR_VEC_TABLE14_A5, INSTR_VEC_TABLE18_A5;
    GroupOfMask(m);
    var key := And(encoding, m);
    KeysOfTables(key.low64, key.high64);
    var g := MASK2GROUPS_A5_128BIT[m];
    if g == Vec(INSTR_VEC_TABLE3_A5) && m.low64 == 0x3e0001 { VecSearch(INSTR_VEC_TABLE3_A5, key); }
    else if g == Vec(INSTR_VEC_TABLE4_A5) && m.low64 == 0x1e0001 { VecSearch(INSTR_VEC_TABLE4_A5, key); }
    else if g == Vec(INSTR_VEC_TABLE6_A5) && m.low64 == 0x7e0001 { VecSearch(INSTR_VEC_TABLE6_A5, key); }
    else if g == Vec(INSTR_VEC_TABLE8_A5) && m.low64 == 0x3fe0001 { VecSearch(INSTR_VEC_TABLE8_A5, key); }
    else if g == Vec(INSTR_VEC_TABLE11_A5) && m.low64 == 0xfe0001 { VecSearch(INSTR_VEC_TABLE11_A5, key); }
    else if g == Vec(INSTR_VEC_TABLE12_A5) && m.low64 == 0x1ffe0001 { VecSearch(INSTR_VEC_TABLE12_A5, key); }
    else if g == Vec(INSTR_VEC_TABLE14_A5) && m.low64 == 0x7fe0001 { VecSearch(INSTR_VEC_TABLE14_A5, key); }
    else { VecSearch(INSTR_VEC_TABLE18_A5, key); }
  }

  /** So whatever the order of the hash map, the lookup finds the same instruction. */
  lemma OrderDoesNotMatter(m: Enc128, n: Enc128, encoding: Enc128)
    ensures Matches128(MASK2GROUPS_A5_128BIT, m, encoding) && Matches128(MASK2GROUPS_A5_128BIT, n, encoding) ==> m == n
  {
    hide Matches128, MaskFor, MeetsPattern;
    if Matches128(MASK2GROUPS_A5_128BIT, m, encoding) && Matches128(MASK2GROUPS_A5_128BIT, n, encoding) {
      TableHoldsPatterns(m, encoding);
      TableHoldsPatterns(n, encoding);
      PatternsAreApart(encoding.low64, m.low64);
      PatternsAreApart(encoding.low64, n.low64);
    }
  }

  /** When a 128-bit mask matches: some table of its group lists the encoding's bits under the mask. */
  lemma Matches128Exactly(rMap: Groups128, m: Enc128, encoding: Enc128)
    ensures Matches128(rMap, m, encoding) <==>
            m in rMap && exists i | 0 <= i < |rMap[m]| ::
              Enc128(encoding.low64 & m.low64, encoding.high64 & m.high64) in rMap[m][i].table
  {
    var key := And(encoding, m);
    assert key == Enc128(encoding.low64 & m.low64, encoding.high64 & m.high64);
    hide FirstTable, And;
    if m in rMap { FoundExactly(rMap[m], key); }
  }

  /** The shipped 128-bit table matches exactly the encodings that meet a listed pattern and have the bit above it. */
  lemma ShippedMatchesExactly(mask: bv64, encoding: Enc128)
    ensures Matches128(MASK2GROUPS_A5_128BIT, Enc128(mask, 1), encoding) <==>
            MeetsPattern(encoding.low64, mask) && encoding.high64 & 1 == 1
  {
    hide MeetsPattern, MASK2GROUPS_A5_128BIT, FirstTable;
    var m := Enc128(mask, 1);
    if Matches128(MASK2GROUPS_A5_128BIT, m, encoding) {
      TableHoldsPatterns(m, encoding);
      HighBit(m, encoding);
    }
    if MeetsPattern(encoding.low64, mask) && encoding.high64 & 1 == 1 {
      PatternIsListed(mask, encoding.low64);
      Matches128Exactly(MASK2GROUPS_A5_128BIT, m, encoding);
    }
  }

  lemma HighBit(m: Enc128, encoding: Enc128)
    requires m.high64 == 1 && Matches128(MASK2GROUPS_A5_128BIT, m, encoding)
    ensures encoding.high64 & 1 == 1
  {
    hide MASK2GROUPS_A5_128BIT, FirstTable, INSTR_VEC_TABLE3_A5, INSTR_VEC_TABLE4_A5, INSTR_VEC_TABLE6_A5,
      INSTR_VEC_TABLE8_A5, INSTR_VEC_TABLE11_A5, INSTR_VEC_TABLE12_A5, INSTR_VEC_TABLE14_A5, INSTR_VEC_TABLE18_A5;
    Matches128Exactly(MASK2GROUPS_A5_128BIT, m, encoding);
    GroupOfMask(m);
    HighOfKeys(And(encoding, m));
  }

  lemma HighOfKeys(key: Enc128)
    ensures (key in INSTR_VEC_TABLE3_A5 || key in INSTR_VEC_TABLE4_A5 || key in INSTR_VEC_TABLE6_A5
             || key in INSTR_VEC_TABLE8_A5 || key in INSTR_VEC_TABLE11_A5 || key in INSTR_VEC_TABLE12_A5
             || key in INSTR_VEC_TABLE14_A5 || key in INSTR_VEC_TABLE18_A5) ==> key.high64 == 1
  {
  }

  lemma PatternsListed()
    ensures Enc128(0x1, 1) in INSTR_VEC_TABLE3_A5
    ensures Enc128(0x20001, 1) in INSTR_VEC_TABLE4_A5
    ensures Enc128(0xa0001, 1) in INSTR_VEC_TABLE6_A5
    ensures Enc128(0x120001, 1) in INSTR_VEC_TABLE8_A5 && Enc128(0x1a0001, 1) in INSTR_VEC_TABLE8_A5
    ensures Enc128(0x2a0001, 1) in INSTR_VEC_TABLE8_A5 && Enc128(0x5a0001, 1) in INSTR_VEC_TABLE8_A5
    ensures Enc128(0x860001, 1) in INSTR_VEC_TABLE8_A5 && Enc128(0x1860001, 1) in INSTR_VEC_TABLE8_A5
    ensures Enc128(0x2860001, 1) in INSTR_VEC_TABLE8_A5 && Enc128(0xe0001, 1) in INSTR_VEC_TABLE8_A5
    ensures Enc128(0x8e0001, 1) in INSTR_VEC_TABLE8_A5 && Enc128(0x18e0001, 1) in INSTR_VEC_TABLE8_A5
    ensures Enc128(0x60001, 1) in INSTR_VEC_TABLE11_A5
    ensures Enc128(0x20e0001, 1) in INSTR_VEC_TABLE12_A5 && Enc128(0x160e0001, 1) in INSTR_VEC_TABLE12_A5
    ensures Enc128(0x28e0001, 1) in INSTR_VEC_TABLE14_A5 && Enc128(0x68e0001, 1) in INSTR_VEC_TABLE14_A5
    ensures Enc128(0x5260001, 1) in INSTR_VEC_TABLE18_A5
  {
  }

  lemma MasksListed()
    ensures Enc128(0x3e0001, 1) in MASK2GROUPS_A5_128BIT
    ensures Enc128(0x1e0001, 1) in MASK2GROUPS_A5_128BIT
    ensures Enc128(0x7e0001, 1) in MASK2GROUPS_A5_128BIT
    ensures Enc128(0x3fe0001, 1) in MASK2GROUPS_A5_128BIT
    ensures Enc128(0xfe0001, 1) in MASK2GROUPS_A5_128BIT
    ensures Enc128(0x1ffe0001, 1) in MASK2GROUPS_A5_128BIT
    ensures Enc128(0x7fe0001, 1) in MASK2GROUPS_A5_128BIT
    ensures Enc128(0x3ffe0001, 1) in MASK2GROUPS_A5_128BIT
  {
    hide Vec, INSTR_VEC_TABLE3_A5, INSTR_VEC_TABLE4_A5, INSTR_VEC_TABLE6_A5, INSTR_VEC_TABLE8_A5,
      INSTR_VEC_TABLE11_A5, INSTR_VEC_TABLE12_A5, INSTR_VEC_TABLE14_A5, INSTR_VEC_TABLE18_A5;
  }

  lemma VecIs(table: Table128)
    ensures |Vec(table)| == 1 && Vec(table)[0].table == table
  {
  }

  /** Every listed pattern is in the table of its mask. */
  lemma PatternIsListed(mask: bv64, low: bv64)
    requires MeetsPattern(low, mask)
    ensures Enc128(mask, 1) in MASK2GROUPS_A5_128BIT
    ensures var g := MASK2GROUPS_A5_128BIT[Enc128(mask, 1)];
            |g| == 1 && Enc128(low & mask, 1) in g[0].table
  {
    hide Vec, MASK2GROUPS_A5_128BIT, INSTR_VEC_TABLE3_A5, INSTR_VEC_TABLE4_A5, INSTR_VEC_TABLE6_A5, INSTR_VEC_TABLE8_A5,
      INSTR_VEC_TABLE11_A5, INSTR_VEC_TABLE12_A5, INSTR_VEC_TABLE14_A5, INSTR_VEC_TABLE18_A5;
    MasksListed();
    GroupOfMask(Enc128(mask, 1));
    PatternsListed();
    VecIs(INSTR_VEC_TABLE3_A5);
    VecIs(INSTR_VEC_TABLE4_A5);
    VecIs(INSTR_VEC_TABLE6_A5);
    VecIs(INSTR_VEC_TABLE8_A5);
    VecIs(INSTR_VEC_TABLE11_A5);
    VecIs(INSTR_VEC_TABLE12_A5);
    VecIs(INSTR_VEC_TABLE14_A5);
    VecIs(INSTR_VEC_TABLE18_A5);
  }
}

/** Lookup of disassembled text by instruction encoding (instr_disassembler.cpp), with an index of the low
    bits of wider instructions that is built on the first miss.
 */
module TruncatedIndex {
  import opened Common
  import opened InstrBinaries

  type Tables = t: seq<map<Words, string>> | |t| == 3 witness [map[], map[], map[]]

  function Width(index: nat): EncodingType {
    if index == 0 then BIT32 else if index == 1 then BIT64 else if index == 2 then BIT128 else INVALID
  }

  function IndexOf(bits: EncodingType): (index: nat)
    ensures Width(index) == bits
  {
    match bits case BIT32 => 0 case BIT64 => 1 case BIT128 => 2 case INVALID => 3
  }

  function Low(words: Words, prefix: nat): Words {
    TruncateBinary(words, Width(prefix)).words
  }

  // ---------------------------------------------------------------------------------------
  // The reference: a scan of the complete tables
  // ---------------------------------------------------------------------------------------

  /** A line of one of the tables. */
  datatype Entry = Entry(width: nat, words: Words)

  function Lines(tables: Tables, width: nat): set<Entry>
    requires width < 3
  {
    set k | k in tables[width] :: Entry(width, k)
  }

  function AllLines(tables: Tables): (all: set<Entry>)
    ensures forall e | e in all :: e.width < 3 && e.words in tables[e.width]
  {
    Lines(tables, 0) + Lines(tables, 1) + Lines(tables, 2)
  }

  /** The lines among `done` that are wider than `prefix` and agree with `key` in their low bits. */
  function Candidates(done: set<Entry>, prefix: nat, key: Words): set<Entry> {
    set e | e in done && prefix < e.width && Low(e.words, prefix) == key
  }

  function Text(tables: Tables, e: Entry): string
    requires e in AllLines(tables)
  {
    tables[e.width][e.words]
  }

  /** The text of the only candidate; nothing if there is none or more than one. */
  ghost function OnlyCandidate(tables: Tables, prefix: nat, key: Words): string {
    if e :| e in AllLines(tables) && Candidates(AllLines(tables), prefix, key) == {e} then Text(tables, e) else ""
  }

  predicate Direct(tables: Tables, binary: InstrBinary, bits: EncodingType) {
    binary.bitType != INVALID && bits != INVALID && Low(binary.words, IndexOf(bits)) in tables[IndexOf(bits)]
  }

  /** The meaning of a query: the line of the same width if there is one, else the only wider candidate. */
  ghost function Scan(tables: Tables, binary: InstrBinary, bits: EncodingType): string {
    if binary.bitType == INVALID || bits == INVALID then ""
    else if Direct(tables, binary, bits) then tables[IndexOf(bits)][Low(binary.words, IndexOf(bits))]
    else if bits == BIT128 then ""
    else OnlyCandidate(tables, IndexOf(bits), Low(binary.words, IndexOf(bits)))
  }

  lemma UniqueCandidateIsFound(tables: Tables, prefix: nat, key: Words, e: Entry)
    requires e in AllLines(tables) && Candidates(AllLines(tables), prefix, key) == {e}
    ensures OnlyCandidate(tables, prefix, key) == Text(tables, e)
  {
    hide AllLines, Candidates, Text;
    var f :| f in AllLines(tables) && Candidates(AllLines(tables), prefix, key) == {f}
             && OnlyCandidate(tables, prefix, key) == Text(tables, f);
    assert f in {e};
  }

  /** Two or more candidates always give nothing. */
  lemma AmbiguityGivesNothing(tables: Tables, prefix: nat, key: Words, e: Entry, f: Entry)
    requires e != f && e in Candidates(AllLines(tables), prefix, key) && f in Candidates(AllLines(tables), prefix, key)
    ensures OnlyCandidate(tables, prefix, key) == ""
  {
    hide AllLines, Candidates, Text;
    forall g ensures Candidates(AllLines(tables), prefix, key) != {g} {
      assert e in {g} && f in {g} ==> e == f;
    }
  }

  /** Asking for a line by its own low bits gives its text, unless another wide line has the same low bits. */
  lemma OwnLowBits(tables: Tables, prefix: nat, e: Entry)
    requires e in AllLines(tables) && prefix < e.width
    ensures var key := Low(e.words, prefix);
            OnlyCandidate(tables, prefix, key) ==
            if Candidates(AllLines(tables), prefix, key) == {e} then Text(tables, e) else ""
  {
    hide AllLines, Low, Text;
    var key := Low(e.words, prefix);
    var seen := Candidates(AllLines(tables), prefix, key);
    assert e in seen;
    if seen == {e} {
      UniqueCandidateIsFound(tables, prefix, key, e);
    } else {
      var f :| f in seen && f != e;
      AmbiguityGivesNothing(tables, prefix, key, e, f);
    }
  }

  /** Bits above the queried width have no influence. */
  lemma HighBitsAreIgnored(tables: Tables, a: InstrBinary, b: InstrBinary, bits: EncodingType)
    requires a.bitType != INVALID && b.bitType != INVALID && a.words.w0 == b.words.w0
    requires bits != BIT32 ==> a.words.w1 == b.words.w1
    requires bits == BIT128 ==> a.words.w2 == b.words.w2 && a.words.w3 == b.words.w3
    ensures Scan(tables, a, bits) == Scan(tables, b, bits)
  {
    hide OnlyCandidate, TruncateBinary;
    if bits != INVALID {
      TruncationKeepsLowWords(a.words, bits);
      TruncationKeepsLowWords(b.words, bits);
    }
  }

  /** Text that a scan finds without a line of the same width is the text of a wider line with these low bits. */
  lemma FoundTextIsReal(tables: Tables, binary: InstrBinary, bits: EncodingType)
    requires Scan(tables, binary, bits) != "" && !Direct(tables, binary, bits)
    ensures exists e | e in AllLines(tables) :: e.width > IndexOf(bits)
              && Low(e.words, IndexOf(bits)) == Low(binary.words, IndexOf(bits))
              && Text(tables, e) == Scan(tables, binary, bits)
  {
    hide AllLines, Low;
    var key := Low(binary.words, IndexOf(bits));
    var e :| e in AllLines(tables) && Candidates(AllLines(tables), IndexOf(bits), key) == {e}
             && Text(tables, e) == Scan(tables, binary, bits);
    assert e in Candidates(AllLines(tables), IndexOf(bits), key);
  }

  // ---------------------------------------------------------------------------------------
  // The answers, word by word
  // ---------------------------------------------------------------------------------------

  lemma LowIs(words: Words, prefix: nat)
    requires prefix < 3
    ensures Low(words, prefix) ==
            if prefix == 0 then Words(words.w0, 0, 0, 0)
            else if prefix == 1 then Words(words.w0, words.w1, 0, 0)
            else words
  {
    hide TruncateBinary;
    TruncationKeepsLowWords(words, Width(prefix));
  }

  /** A line of a wider table that agrees with the words of the queried width. */
  predicate Wider(tables: Tables, e: Entry, words: Words, bits: EncodingType) {
    && e.width < 3 && e.words in tables[e.width]
    && match bits
       case BIT32 => e.width >= 1 && e.words.w0 == words.w0
       case BIT64 => e.width == 2 && e.words.w0 == words.w0 && e.words.w1 == words.w1
       case BIT128 => false
       case INVALID => false
  }

  /** Which lines count as candidates for a query of 32 or 64 bits. */
  lemma CandidatesExactly(tables: Tables, words: Words, bits: EncodingType, e: Entry)
    requires bits == BIT32 || bits == BIT64
    ensures e in Candidates(AllLines(tables), IndexOf(bits), Low(words, IndexOf(bits)))
       <==> Wider(tables, e, words, bits)
  {
    hide Low;
    LineExactly(tables, e);
    LowIs(words, IndexOf(bits));
    if e.width < 3 { LowIs(e.words, IndexOf(bits)); }
    hide AllLines;
  }

  lemma LineExactly(tables: Tables, e: Entry)
    ensures e in AllLines(tables) <==> e.width < 3 && e.words in tables[e.width]
    ensures e in AllLines(tables) ==> Text(tables, e) == tables[e.width][e.words]
  {
    if e.width < 3 && e.words in tables[e.width] { assert e in Lines(tables, e.width); }
  }

  /** A line of the same width: the words of the width agree, the words above it do not matter. */
  lemma DirectExactly(tables: Tables, binary: InstrBinary, bits: EncodingType)
    requires binary.bitType != INVALID && bits != INVALID
    ensures var q := binary.words;
            var i := match bits case BIT32 => 0 case BIT64 => 1 case _ => 2;
            var key := match bits
                       case BIT32 => Words(q.w0, 0, 0, 0)
                       case BIT64 => Words(q.w0, q.w1, 0, 0)
                       case _ => q;
            && Direct(tables, binary, bits) == (key in tables[i])
            && (key in tables[i] ==> Scan(tables, binary, bits) == tables[i][key])
            && (key !in tables[i] && bits == BIT128 ==> Scan(tables, binary, bits) == "")
  {
    hide Low, OnlyCandidate;
    LowIs(binary.words, IndexOf(bits));
  }

  /** Without such a line: the text of the only wider line that agrees, and nothing if there are several or none. */
  lemma WiderExactly(tables: Tables, binary: InstrBinary, bits: EncodingType)
    requires binary.bitType != INVALID && !Direct(tables, binary, bits)
    ensures forall e | Wider(tables, e, binary.words, bits) ::
              (forall f | Wider(tables, f, binary.words, bits) :: f == e) ==>
                Scan(tables, binary, bits) == tables[e.width][e.words]
    ensures forall e, f | Wider(tables, e, binary.words, bits) && Wider(tables, f, binary.words, bits) && e != f ::
              Scan(tables, binary, bits) == ""
    ensures (forall e :: !Wider(tables, e, binary.words, bits)) ==> Scan(tables, binary, bits) == ""
  {
    hide Low, OnlyCandidate, Candidates, AllLines, Wider, Direct, Text;
    if bits == BIT32 || bits == BIT64 {
      var prefix, key := IndexOf(bits), Low(binary.words, IndexOf(bits));
      var seen := Candidates(AllLines(tables), prefix, key);
      forall e ensures e in seen <==> Wider(tables, e, binary.words, bits) {
        CandidatesExactly(tables, binary.words, bits, e);
      }
      forall e: Entry | e.width < 3 && e.words in tables[e.width] && Wider(tables, e, binary.words, bits)
                 && forall f | Wider(tables, f, binary.words, bits) :: f == e
        ensures Scan(tables, binary, bits) == tables[e.width][e.words]
      {
        LineExactly(tables, e);
        assert seen == {e};
        UniqueCandidateIsFound(tables, prefix, key, e);
      }
      forall e: Entry | Wider(tables, e, binary.words, bits) ensures e.width < 3 && e.words in tables[e.width] {
        WiderIsLine(tables, e, binary.words, bits);
      }
      forall e, f | Wider(tables, e, binary.words, bits) && Wider(tables, f, binary.words, bits) && e != f
        ensures Scan(tables, binary, bits) == ""
      {
        AmbiguityGivesNothing(tables, prefix, key, e, f);
      }
      if forall e :: !Wider(tables, e, binary.words, bits) {
        assert seen == {};
        NoCandidate(tables, prefix, key);
      }
    } else {
      assert forall e :: !Wider(tables, e, binary.words, bits) by { NothingIsWider(tables, binary.words, bits); }
    }
  }

  lemma WiderIsLine(tables: Tables, e: Entry, words: Words, bits: EncodingType)
    requires Wider(tables, e, words, bits)
    ensures e.width < 3 && e.words in tables[e.width]
  {
  }

  lemma NothingIsWider(tables: Tables, words: Words, bits: EncodingType)
    requires bits == BIT128 || bits == INVALID
    ensures forall e :: !Wider(tables, e, words, bits)
  {
  }

  lemma NoCandidate(tables: Tables, prefix: nat, key: Words)
    requires Candidates(AllLines(tables), prefix, key) == {}
    ensures OnlyCandidate(tables, prefix, key) == ""
  {
    hide Candidates, AllLines, Text;
    forall g ensures Candidates(AllLines(tables), prefix, key) != {g} {
      assert g in {g};
    }
  }

  // ---------------------------------------------------------------------------------------
  // The index
  // ---------------------------------------------------------------------------------------

  type Index = map<Words, Option<string>>

  /** What an index entry says about the candidates seen so far. */
  ghost predicate Shows(entry: Option<string>, seen: set<Entry>, tables: Tables) {
    match entry
    case Some(text) => exists e | e in AllLines(tables) :: seen == {e} && Text(tables, e) == text
    case None => exists e, f | e in seen && f in seen :: e != f
  }

  /** An index is right about the lines in `done`. */
  ghost predicate Reflects(index: Index, done: set<Entry>, prefix: nat, tables: Tables) {
    && (forall key | key !in index :: Candidates(done, prefix, key) == {})
    && (forall key | key in index :: Shows(index[key], Candidates(done, prefix, key), tables))
  }

  /** Emplacing: a new key refers to the line, a known key becomes ambiguous. */
  function Emplace(index: Index, key: Words, text: string): Index {
    if key in index then index[key := None] else index[key := Some(text)]
  }

  lemma EmplaceReflects(index: Index, done: set<Entry>, prefix: nat, tables: Tables, e: Entry)
    requires Reflects(index, done, prefix, tables) && e in AllLines(tables) && e !in done && prefix < e.width
    ensures Reflects(Emplace(index, Low(e.words, prefix), Text(tables, e)), done + {e}, prefix, tables)
  {
    hide AllLines, Text, Low, Shows;
    var home, next := Low(e.words, prefix), Emplace(index, Low(e.words, prefix), Text(tables, e));
    forall key ensures if key in next then Shows(next[key], Candidates(done + {e}, prefix, key), tables)
                       else Candidates(done + {e}, prefix, key) == {}
    {
      CandidatesOfMore(done, prefix, key, e);
      hide Candidates;
      if key == home {
        assert e !in Candidates(done, prefix, key) by { CandidatesAreSeen(done, prefix, key); }
        if key in index {
          NowAmbiguous(index[key], Candidates(done, prefix, key), tables, e);
        } else {
          NowKnown(Candidates(done, prefix, key), tables, e);
        }
      }
    }
  }

  lemma CandidatesAreSeen(done: set<Entry>, prefix: nat, key: Words)
    ensures Candidates(done, prefix, key) <= done
  {
  }

  lemma CandidatesOfMore(done: set<Entry>, prefix: nat, key: Words, e: Entry)
    ensures Candidates(done + {e}, prefix, key) ==
            if prefix < e.width && Low(e.words, prefix) == key then Candidates(done, prefix, key) + {e}
            else Candidates(done, prefix, key)
  {
  }

  lemma NowAmbiguous(entry: Option<string>, seen: set<Entry>, tables: Tables, e: Entry)
    requires Shows(entry, seen, tables) && e !in seen
    ensures Shows(None, seen + {e}, tables)
  {
    var f :| f in seen;
    assert f in seen + {e} && e in seen + {e};
  }

  lemma NowKnown(seen: set<Entry>, tables: Tables, e: Entry)
    requires seen == {} && e in AllLines(tables)
    ensures Shows(Some(Text(tables, e)), seen + {e}, tables)
  {
    assert seen + {e} == {e};
  }

  /** A line that is not wider than the prefix changes nothing. */
  lemma NarrowLineChangesNothing(index: Index, done: set<Entry>, prefix: nat, tables: Tables, e: Entry)
    requires Reflects(index, done, prefix, tables) && e.width <= prefix
    ensures Reflects(index, done + {e}, prefix, tables)
  {
    hide Candidates, Shows, AllLines;
    forall key ensures Candidates(done + {e}, prefix, key) == Candidates(done, prefix, key) {
      CandidatesOfMore(done, prefix, key, e);
    }
  }

  lemma EmptyIndex(tables: Tables, prefix: nat, index: Index)
    requires index == map[]
    ensures Reflects(index, Lines(tables, 0), prefix, tables)
  {
    assert forall key :: Candidates(Lines(tables, 0), prefix, key) == {};
  }

  /** Looking a key up in a complete index is the scan for the only candidate. */
  lemma IndexIsScan(index: Index, prefix: nat, tables: Tables, key: Words)
    requires Reflects(index, AllLines(tables), prefix, tables)
    ensures OnlyCandidate(tables, prefix, key) ==
            if key in index && index[key].Some? then index[key].value else ""
  {
    var seen := Candidates(AllLines(tables), prefix, key);
    if key !in index {
      hide Candidates, AllLines;
      assert seen == {};
    } else if index[key].Some? {
      hide Candidates, AllLines;
      var e :| e in AllLines(tables) && seen == {e} && Text(tables, e) == index[key].value;
      UniqueCandidateIsFound(tables, prefix, key, e);
    } else {
      hide Candidates, AllLines;
      assert Shows(None, seen, tables);
      var e, f :| e in seen && f in seen && e != f;
      AmbiguityGivesNothing(tables, prefix, key, e, f);
    }
  }

  // ---------------------------------------------------------------------------------------
  // The disassembler
  // ---------------------------------------------------------------------------------------

  class InstrDisassembler {
    const binary2Disasm: Tables
    var truncated2Disasm: seq<Index>
    var truncatedIndexBuilt: bool
    var unmatchedPcs: set<nat>

    /** Before the first miss nothing is known of the index; afterwards it covers all lines. */
    ghost predicate Valid()
      reads this
    {
      && |truncated2Disasm| == 2
      && (truncatedIndexBuilt ==>
            forall p | 0 <= p < 2 :: Reflects(truncated2Disasm[p], AllLines(binary2Disasm), p, binary2Disasm))
    }

    constructor (tables: Tables)
      ensures Valid() && binary2Disasm == tables && unmatchedPcs == {} && !truncatedIndexBuilt
    {
      binary2Disasm := tables;
      truncated2Disasm := [map[], map[]];
      truncatedIndexBuilt := false;
      unmatchedPcs := {};
    }

    /** One line of a wider table goes into every narrower index. */
    method AddLine(width: nat, words: Words, ghost done: set<Entry>)
      requires 0 < width < 3 && words in binary2Disasm[width] && Entry(width, words) !in done
      requires |truncated2Disasm| == 2
      requires forall p | 0 <= p < 2 :: Reflects(truncated2Disasm[p], done, p, binary2Disasm)
      modifies this`truncated2Disasm
      ensures |truncated2Disasm| == 2
      ensures forall p | 0 <= p < 2 ::
                Reflects(truncated2Disasm[p], done + {Entry(width, words)}, p, binary2Disasm)
    {
      hide Reflects, Emplace, Low;
      ghost var e := Entry(width, words);
      assert e in AllLines(binary2Disasm);
      for prefix := 0 to width
        invariant |truncated2Disasm| == 2
        invariant forall p | 0 <= p < 2 ::
                    Reflects(truncated2Disasm[p], if p < prefix then done + {e} else done, p, binary2Disasm)
      {
        EmplaceReflects(truncated2Disasm[prefix], done, prefix, binary2Disasm, e);
        var key := Low(words, prefix);
        truncated2Disasm := truncated2Disasm[prefix :=
          Emplace(truncated2Disasm[prefix], key, binary2Disasm[width][words])];
      }
      if width == 1 {
        NarrowLineChangesNothing(truncated2Disasm[1], done, 1, binary2Disasm, e);
      }
    }

    /** The lines come in any order: the choice of the next one is left open. */
    method AddTable(width: nat, ghost done: set<Entry>)
      requires 0 < width < 3 && |truncated2Disasm| == 2 && done !! Lines(binary2Disasm, width)
      requires forall p | 0 <= p < 2 :: Reflects(truncated2Disasm[p], done, p, binary2Disasm)
      modifies this`truncated2Disasm
      ensures |truncated2Disasm| == 2
      ensures forall p | 0 <= p < 2 ::
                Reflects(truncated2Disasm[p], done + Lines(binary2Disasm, width), p, binary2Disasm)
    {
      hide Reflects;
      var left := binary2Disasm[width].Keys;
      ghost var now := done;
      while left != {}
        invariant left <= binary2Disasm[width].Keys && |truncated2Disasm| == 2
        invariant now == done + set k | k in binary2Disasm[width] && k !in left :: Entry(width, k)
        invariant forall p | 0 <= p < 2 :: Reflects(truncated2Disasm[p], now, p, binary2Disasm)
        decreases |left|
      {
        var words :| words in left;
        AddLine(width, words, now);
        left := left - {words};
        now := now + {Entry(width, words)};
      }
      assert now == done + Lines(binary2Disasm, width);
    }

    method BuildTruncatedIndex()
      requires Valid()
      modifies this`truncated2Disasm, this`truncatedIndexBuilt
      ensures Valid() && truncatedIndexBuilt
      ensures old(truncatedIndexBuilt) ==> truncated2Disasm == old(truncated2Disasm)
    {
      if truncatedIndexBuilt {
        return;
      }
      truncated2Disasm := [map[], map[]];
      EmptyIndex(binary2Disasm, 0, truncated2Disasm[0]);
      EmptyIndex(binary2Disasm, 1, truncated2Disasm[1]);
      hide Reflects;
      AddTable(1, Lines(binary2Disasm, 0));
      AddTable(2, Lines(binary2Disasm, 0) + Lines(binary2Disasm, 1));
      truncatedIndexBuilt := true;
    }

    /** Whatever has been looked up before, the answer is that of a scan of the tables. */
    method FindDisassembly(binary: InstrBinary, bits: EncodingType) returns (text: string, directMatch: bool)
      requires Valid()
      modifies this`truncated2Disasm, this`truncatedIndexBuilt
      ensures Valid()
      ensures text == Scan(binary2Disasm, binary, bits) && directMatch == Direct(binary2Disasm, binary, bits)
      ensures binary.bitType == INVALID || bits == INVALID ==> text == "" && !directMatch
    {
      hide Reflects, OnlyCandidate, TruncateBinary;
      directMatch := false;
      var index := IndexOf(bits);
      if binary.bitType == INVALID || index >= 3 {
        return "", false;
      }
      var key := Low(binary.words, index);
      if key in binary2Disasm[index] {
        return binary2Disasm[index][key], true;
      }
      if index >= 2 {
        return "", false;
      }
      BuildTruncatedIndex();
      IndexIsScan(truncated2Disasm[index], index, binary2Disasm, key);
      var truncatedTable := truncated2Disasm[index];
      text := if key !in truncatedTable || truncatedTable[key].None? then "" else truncatedTable[key].value;
    }

    method GetDisassembly(binary: InstrBinary, bits: EncodingType, pc: nat) returns (text: string)
      requires Valid()
      modifies this
      ensures Valid() && text == Scan(binary2Disasm, binary, bits)
      ensures unmatchedPcs == old(unmatchedPcs) + if Direct(binary2Disasm, binary, bits) then {} else {pc}
    {
      hide Scan, Direct;
      var directMatch;
      text, directMatch := FindDisassembly(binary, bits);
      if !directMatch {
        unmatchedPcs := unmatchedPcs + {pc};
      }
    }

    /** Drains the collected addresses. */
    method LogUnmatchedPcs() returns (pcs: set<nat>)
      requires Valid()
      modifies this`unmatchedPcs
      ensures Valid() && pcs == old(unmatchedPcs) && unmatchedPcs == {}
    {
      pcs := unmatchedPcs;
      unmatchedPcs := {};
    }
  }
}

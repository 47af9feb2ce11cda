/** The bounded record log that instrumented kernels write on the device (plugin/memory_chart/recoder.h) and the
    host's reading of it (dbi_parser.cpp).
 */
module RecordLog {
  import opened Arithmetic
  import opened Common

  const MAGIC_WORDS: nat := 0x5a5a5a5a
  const OVERFLOW_BIT: nat := 0x8000_0000_0000_0000
  const U64: nat := 0x1_0000_0000_0000_0000
  const RECORD_HEADER_SIZE: nat := 8

  /** A record type and the bytes of the record itself. */
  datatype LogRecord = LogRecord(recordType: nat, body: seq<byte>)

  /** Record types are 32-bit; records are made of whole 32-bit words. */
  predicate Writable(r: LogRecord) {
    r.recordType < 0x1_0000_0000 && |r.body| % 4 == 0 && r.body != []
  }

  // ---------------------------------------------------------------------------------------
  // Bytes of a log
  // ---------------------------------------------------------------------------------------

  function Word(n: nat): (w: seq<byte>)
    requires n < 0x1_0000_0000
    ensures |w| == 4
  {
    var a := n / 256;
    var b := a / 256;
    [n % 256, a % 256, b % 256, b / 256]
  }

  function ReadWord(s: seq<byte>, at: nat): nat
    requires at + 4 <= |s|
  {
    var a, b, c, d: int := s[at], s[at + 1], s[at + 2], s[at + 3];
    a + 256 * b + 65536 * c + 16777216 * d
  }

  lemma ReadWordOfWord(s: seq<byte>, at: nat, n: nat)
    requires n < 0x1_0000_0000 && at + 4 <= |s| && s[at..at + 4] == Word(n)
    ensures ReadWord(s, at) == n
  {
    var w := s[at..at + 4];
    assert w[0] == s[at] && w[1] == s[at + 1] && w[2] == s[at + 2] && w[3] == s[at + 3];
  }

  function Bytes(r: LogRecord): (s: seq<byte>)
    requires Writable(r)
    ensures |s| == RECORD_HEADER_SIZE + |r.body|
  {
    Word(r.recordType) + Word(MAGIC_WORDS) + r.body
  }

  predicate AllWritable(rs: seq<LogRecord>) {
    forall k | 0 <= k < |rs| :: Writable(rs[k])
  }

  function Encode(rs: seq<LogRecord>): seq<byte>
    requires AllWritable(rs)
  {
    if rs == [] then [] else Encode(rs[..|rs| - 1]) + Bytes(rs[|rs| - 1])
  }

  lemma EncodeSnoc(rs: seq<LogRecord>, r: LogRecord)
    requires AllWritable(rs) && Writable(r)
    ensures AllWritable(rs + [r]) && Encode(rs + [r]) == Encode(rs) + Bytes(r)
  {
    assert (rs + [r])[..|rs|] == rs;
  }

  lemma {:induction false} EncodeCons(r: LogRecord, rs: seq<LogRecord>)
    requires AllWritable(rs) && Writable(r)
    ensures AllWritable([r] + rs) && Encode([r] + rs) == Bytes(r) + Encode(rs)
    decreases |rs|
  {
    if rs == [] {
      var none: seq<LogRecord> := [];
      assert [r] + rs == none + [r];
      EncodeSnoc(none, r);
    } else {
      var front, last := rs[..|rs| - 1], rs[|rs| - 1];
      EncodeCons(r, front);
      assert [r] + rs == ([r] + front) + [last];
      EncodeSnoc([r] + front, last);
      hide Bytes;
      assert Bytes(r) + (Encode(front) + Bytes(last)) == (Bytes(r) + Encode(front)) + Bytes(last);
    }
  }

  lemma {:induction false} EncodeIsLong(rs: seq<LogRecord>)
    requires AllWritable(rs)
    ensures |Encode(rs)| >= 8 * |rs|
  {
    if rs != [] { EncodeIsLong(rs[..|rs| - 1]); }
  }

  /** The bytes that records take: eight for the header of each, and its own. */
  function SizeOf(rs: seq<LogRecord>): nat {
    if rs == [] then 0 else SizeOf(rs[..|rs| - 1]) + 8 + |rs[|rs| - 1].body|
  }

  lemma {:induction false} EncodeSize(rs: seq<LogRecord>)
    requires AllWritable(rs)
    ensures |Encode(rs)| == SizeOf(rs)
  {
    if rs != [] { EncodeSize(rs[..|rs| - 1]); }
  }

  /** The bytes of a record: its type, lowest byte first, the magic word, the body. */
  lemma BytesAre(r: LogRecord)
    requires Writable(r)
    ensures var s := Bytes(r);
            && |s| == 8 + |r.body| && s[8..] == r.body
            && s[0] as int + 0x100 * s[1] as int + 0x1_0000 * s[2] as int + 0x100_0000 * s[3] as int == r.recordType
            && s[4] == s[5] == s[6] == s[7] == 0x5a
  {
    var t, m, s := Word(r.recordType), Word(MAGIC_WORDS), Bytes(r);
    WordBytes(r.recordType);
    MagicBytes();
    assert s == t + m + r.body;
    hide *;
    assert forall k | 0 <= k < 4 :: s[k] == t[k] && s[4 + k] == m[k];
    assert s[8..] == r.body;
  }

  lemma WordBytes(n: nat)
    requires n < 0x1_0000_0000
    ensures var w := Word(n);
            w[0] as int + 0x100 * w[1] as int + 0x1_0000 * w[2] as int + 0x100_0000 * w[3] as int == n
  {
    var a := n / 256;
    var b := a / 256;
    assert n == 256 * a + n % 256 && a == 256 * b + a % 256 && b == 256 * (b / 256) + b % 256;
  }

  lemma MagicBytes()
    ensures var w := Word(MAGIC_WORDS);
            w[0] == w[1] == w[2] == w[3] == 0x5a
  {
    assert MAGIC_WORDS % 256 == 0x5a && MAGIC_WORDS / 256 == 0x5a5a5a;
    assert 0x5a5a5a % 256 == 0x5a && 0x5a5a5a / 256 == 0x5a5a;
    assert 0x5a5a % 256 == 0x5a && 0x5a5a / 256 == 0x5a;
  }

  // ---------------------------------------------------------------------------------------
  // The log of one block, as the device keeps it
  // ---------------------------------------------------------------------------------------

  /** The sizes fixed elsewhere: data capacity and memory of a block, its header, the number of blocks. */
  datatype Params = Params(maxBlockDataSize: nat, blockMemSize: nat, headerSize: nat, maxBlock: nat)

  predicate Sensible(p: Params) {
    && p.headerSize + RECORD_HEADER_SIZE < p.maxBlockDataSize <= p.blockMemSize
    && p.maxBlockDataSize < 0x4000_0000_0000_0000 && p.maxBlock <= 0x1_0000
  }

  /** What the static_assert admits. */
  predicate Admitted(p: Params, recordSize: nat) {
    p.maxBlockDataSize > p.headerSize + RECORD_HEADER_SIZE + recordSize
  }

  datatype BlockHeader = BlockHeader(count: nat, length: nat, mte2SrcPara: nat)

  /** What happened on a block: the records accepted, and how many pre-checks have failed. */
  datatype Log = Log(accepted: seq<LogRecord>, failed: nat)

  function Capacity(p: Params, recordSize: nat): nat
    requires Admitted(p, recordSize)
  {
    p.maxBlockDataSize - p.headerSize - RECORD_HEADER_SIZE - recordSize
  }

  /** The next attempt is let through: nothing has failed yet and the record still fits. */
  predicate Passes(p: Params, log: Log, recordSize: nat)
    requires Admitted(p, recordSize) && AllWritable(log.accepted)
  {
    log.failed == 0 && |Encode(log.accepted)| <= Capacity(p, recordSize)
  }

  /** Room for a record of `size` bytes behind `used` bytes of log. */
  predicate HasRoom(p: Params, used: nat, size: nat) {
    p.headerSize + used + 8 + size <= p.maxBlockDataSize
  }

  lemma PassesWithRoom(p: Params, log: Log, recordSize: nat)
    requires Admitted(p, recordSize) && AllWritable(log.accepted)
    ensures Passes(p, log, recordSize) <==> log.failed == 0 && HasRoom(p, SizeOf(log.accepted), recordSize)
  {
    EncodeSize(log.accepted);
    hide Encode, AllWritable, SizeOf;
  }

  lemma CapacityIsRoom(p: Params, recordSize: nat, length: nat)
    requires Admitted(p, recordSize)
    ensures length <= Capacity(p, recordSize) <==> p.headerSize + length + 8 + recordSize <= p.maxBlockDataSize
    ensures OVERFLOW_BIT == 0x8000_0000_0000_0000 && U64 == 0x1_0000_0000_0000_0000
  {
  }

  /** The header that belongs to a log: once overflowed, `length` counts attempts instead of bytes. */
  predicate HeaderOf(header: BlockHeader, log: Log)
    requires AllWritable(log.accepted)
  {
    && header.count == |log.accepted|
    && header.length == if log.failed == 0 then |Encode(log.accepted)|
                        else OVERFLOW_BIT + |log.accepted| + log.failed
  }

  function DataStart(p: Params, block: nat): nat {
    block * p.blockMemSize + p.headerSize
  }

  /** Header and bytes of block `block` in the device memory tell the block's log. */
  predicate BlockOk(p: Params, mem: seq<byte>, header: BlockHeader, log: Log, block: nat) {
    && AllWritable(log.accepted) && HeaderOf(header, log)
    && p.headerSize + |Encode(log.accepted)| <= p.maxBlockDataSize
    && block * p.blockMemSize + p.blockMemSize <= |mem|
    && DataStart(p, block) + |Encode(log.accepted)| <= |mem|
    && mem[DataStart(p, block)..DataStart(p, block) + |Encode(log.accepted)|] == Encode(log.accepted)
  }

  lemma BlocksAreDisjoint(p: Params, a: nat, b: nat)
    requires a != b
    ensures a * p.blockMemSize + p.blockMemSize <= b * p.blockMemSize
         || b * p.blockMemSize + p.blockMemSize <= a * p.blockMemSize
  {
    OneMore(a, p.blockMemSize);
    OneMore(b, p.blockMemSize);
    if a < b { ProductMonotone(a + 1, b, p.blockMemSize); } else { ProductMonotone(b + 1, a, p.blockMemSize); }
  }

  function Overwritten(mem: seq<byte>, at: nat, data: seq<byte>): (r: seq<byte>)
    requires at + |data| <= |mem|
    ensures |r| == |mem|
  {
    mem[..at] + data + mem[at + |data|..]
  }

  /** Writing inside one block leaves every other block alone. */
  lemma OtherBlockKept(p: Params, mem: seq<byte>, at: nat, data: seq<byte>, block: nat, other: nat,
                       header: BlockHeader, log: Log)
    requires Sensible(p) && block != other && at + |data| <= |mem|
    requires block * p.blockMemSize <= at && at + |data| <= block * p.blockMemSize + p.blockMemSize
    requires BlockOk(p, mem, header, log, other)
    ensures BlockOk(p, Overwritten(mem, at, data), header, log, other)
  {
    hide Encode, HeaderOf, AllWritable;
    BlocksAreDisjoint(p, block, other);
    var start, size := DataStart(p, other), |Encode(log.accepted)|;
    var after := Overwritten(mem, at, data);
    assert forall k | start <= k < start + size :: after[k] == mem[k];
    assert after[start..start + size] == mem[start..start + size];
  }

  /** Appending a record behind the others extends the log by that record, within the block. */
  lemma AppendedBlock(p: Params, mem: seq<byte>, header: BlockHeader, log: Log, block: nat, r: LogRecord)
    requires Sensible(p) && BlockOk(p, mem, header, log, block)
    requires Writable(r) && Admitted(p, |r.body|) && Passes(p, log, |r.body|)
    ensures var at := DataStart(p, block) + header.length;
            && at + |Bytes(r)| <= block * p.blockMemSize + p.maxBlockDataSize <= |mem|
            && BlockOk(p, Overwritten(mem, at, Bytes(r)),
                       header.(count := header.count + 1, length := header.length + RECORD_HEADER_SIZE + |r.body|),
                       Log(log.accepted + [r], 0), block)
  {
    EncodeSnoc(log.accepted, r);
    hide Encode, Bytes, AllWritable;
    var start, had := DataStart(p, block), Encode(log.accepted);
    var after := Overwritten(mem, start + |had|, Bytes(r));
    assert after[start..start + |had|] == had;
    assert after[start + |had|..start + |had| + |Bytes(r)|] == Bytes(r);
    SliceJoin(after, start, start + |had|, start + |had| + |Bytes(r)|);
  }

  lemma SliceJoin(s: seq<byte>, a: nat, b: nat, c: nat)
    requires a <= b <= c <= |s|
    ensures s[a..c] == s[a..b] + s[b..c]
  {
  }

  /** A failed pre-check changes the header only. */
  lemma FailedCheck(p: Params, mem: seq<byte>, header: BlockHeader, log: Log, block: nat, recordSize: nat)
    requires Sensible(p) && BlockOk(p, mem, header, log, block)
    requires Admitted(p, recordSize) && !Passes(p, log, recordSize)
    ensures BlockOk(p, mem,
                    header.(length := if log.failed > 0 then header.length + 1 else OVERFLOW_BIT + header.count + 1),
                    log.(failed := log.failed + 1), block)
  {
    hide Encode, AllWritable;
  }

  /** The overflow bit tells whether anything has failed: byte counts never reach it. */
  lemma OverflowBit(p: Params, mem: seq<byte>, header: BlockHeader, log: Log, block: nat)
    requires Sensible(p) && BlockOk(p, mem, header, log, block)
    ensures header.length >= OVERFLOW_BIT <==> log.failed > 0
    ensures header.count + 1 < OVERFLOW_BIT
  {
    EncodeIsLong(log.accepted);
    hide Encode, AllWritable;
  }

  // ---------------------------------------------------------------------------------------
  // Whole runs
  // ---------------------------------------------------------------------------------------

  /** An attempt to record `r`; some callers only check and write nothing. */
  datatype Attempt = Attempt(r: LogRecord, checkOnly: bool)

  predicate Legal(p: Params, a: Attempt) {
    Writable(a.r) && Admitted(p, |a.r.body|)
  }

  function After(p: Params, log: Log, a: Attempt): (next: Log)
    requires AllWritable(log.accepted) && Legal(p, a)
    ensures AllWritable(next.accepted)
  {
    if !Passes(p, log, |a.r.body|) then log.(failed := log.failed + 1)
    else if a.checkOnly then log
    else Log(log.accepted + [a.r], log.failed)
  }

  predicate AllLegal(p: Params, attempts: seq<Attempt>) {
    forall k | 0 <= k < |attempts| :: Legal(p, attempts[k])
  }

  function AfterAll(p: Params, log: Log, attempts: seq<Attempt>): (next: Log)
    requires AllWritable(log.accepted) && AllLegal(p, attempts)
    ensures AllWritable(next.accepted)
    decreases |attempts|
  {
    if attempts == [] then log else
    assert Legal(p, attempts[0]);
    assert AllLegal(p, attempts[1..]) by {
      forall k | 0 <= k < |attempts| - 1 ensures Legal(p, attempts[1..][k]) { assert Legal(p, attempts[k + 1]); }
    }
    AfterAll(p, After(p, log, attempts[0]), attempts[1..])
  }

  /** Nothing is accepted after the first overflow, and every later attempt is counted. */
  lemma {:induction false} NothingAfterOverflow(p: Params, log: Log, attempts: seq<Attempt>)
    requires AllWritable(log.accepted) && AllLegal(p, attempts) && log.failed > 0
    ensures AfterAll(p, log, attempts) == Log(log.accepted, log.failed + |attempts|)
    decreases |attempts|
  {
    if attempts != [] {
      hide Encode, AllWritable, Admitted;
      assert Legal(p, attempts[0]);
      forall k | 0 <= k < |attempts| - 1 ensures Legal(p, attempts[1..][k]) { assert Legal(p, attempts[k + 1]); }
      NothingAfterOverflow(p, After(p, log, attempts[0]), attempts[1..]);
    }
  }

  function Wanted(attempts: seq<Attempt>): seq<LogRecord> {
    if attempts == [] then []
    else (if attempts[0].checkOnly then [] else [attempts[0].r]) + Wanted(attempts[1..])
  }

  /** Whether the record of attempt i would fit behind the records wanted before it. */
  predicate FitsAt(p: Params, log: Log, attempts: seq<Attempt>, i: nat)
    requires i < |attempts|
  {
    HasRoom(p, SizeOf(log.accepted + Wanted(attempts[..i])), |attempts[i].r.body|)
  }

  /** What is left of a run after its first attempt. */
  lemma LegalRest(p: Params, log: Log, attempts: seq<Attempt>)
    requires AllWritable(log.accepted) && AllLegal(p, attempts) && attempts != []
    ensures Legal(p, attempts[0]) && AllLegal(p, attempts[1..])
    ensures AfterAll(p, log, attempts) == AfterAll(p, After(p, log, attempts[0]), attempts[1..])
  {
    hide Legal, After, AllWritable;
  }

  /** The attempts split at the first overflow, which is the first attempt whose record would end beyond the block's
      data: all records before it are in the log, in order; all attempts from it on have failed. */
  lemma {:induction false} PrefixIsAccepted(p: Params, log: Log, attempts: seq<Attempt>) returns (k: nat)
    requires AllWritable(log.accepted) && AllLegal(p, attempts) && log.failed == 0
    ensures k <= |attempts| && AllLegal(p, attempts[..k])
    ensures AfterAll(p, log, attempts).accepted == log.accepted + Wanted(attempts[..k])
    ensures AfterAll(p, log, attempts).failed == |attempts| - k
    ensures forall i: nat | i < k :: FitsAt(p, log, attempts, i)
    ensures k < |attempts| ==> !FitsAt(p, log, attempts, k)
    decreases |attempts|
  {
    hide *;
    LegalPrefix(p, attempts);
    NothingWanted(p, log, attempts);
    if attempts == [] {
      return 0;
    }
    LegalRest(p, log, attempts);
    OneAttempt(p, log, attempts[0]);
    var next := After(p, log, attempts[0]);
    if next.failed > 0 {
      NothingAfterOverflow(p, next, attempts[1..]);
      return 0;
    }
    var j := PrefixIsAccepted(p, next, attempts[1..]);
    k := j + 1;
    WantedLater(log, attempts, k);
    forall i: nat | 0 < i <= k && i < |attempts|
      ensures FitsAt(p, log, attempts, i) == FitsAt(p, next, attempts[1..], i - 1)
    {
      FitsLater(p, log, attempts, i);
    }
  }

  lemma LegalPrefix(p: Params, attempts: seq<Attempt>)
    requires AllLegal(p, attempts)
    ensures forall k | 0 <= k <= |attempts| :: AllLegal(p, attempts[..k])
  {
    hide Legal;
  }

  lemma NothingWanted(p: Params, log: Log, attempts: seq<Attempt>)
    requires AllWritable(log.accepted)
    ensures AllLegal(p, []) && AfterAll(p, log, []) == log
    ensures log.accepted + Wanted(attempts[..0]) == log.accepted
    ensures attempts != [] ==>
              (FitsAt(p, log, attempts, 0) <==>
               p.headerSize + SizeOf(log.accepted) + 8 + |attempts[0].r.body| <= p.maxBlockDataSize)
  {
    hide SizeOf;
    assert log.accepted + Wanted(attempts[..0]) == log.accepted;
  }

  lemma WantedLater(log: Log, attempts: seq<Attempt>, i: nat)
    requires 0 < i <= |attempts|
    ensures log.accepted + Wanted(attempts[..i]) ==
            (if attempts[0].checkOnly then log.accepted else log.accepted + [attempts[0].r])
            + Wanted(attempts[1..][..i - 1])
  {
    assert attempts[..i][1..] == attempts[1..][..i - 1];
    var own := if attempts[0].checkOnly then [] else [attempts[0].r];
    var later := Wanted(attempts[1..][..i - 1]);
    assert Wanted(attempts[..i]) == own + later;
    assert log.accepted + (own + later) == (log.accepted + own) + later;
    assert log.accepted + [] == log.accepted;
  }

  lemma FitsLater(p: Params, log: Log, attempts: seq<Attempt>, i: nat)
    requires 0 < i < |attempts|
    ensures FitsAt(p, log, attempts, i) ==
            FitsAt(p, if attempts[0].checkOnly then log else Log(log.accepted + [attempts[0].r], 0),
                   attempts[1..], i - 1)
  {
    hide SizeOf, Wanted;
    WantedLater(log, attempts, i);
  }

  /** One attempt more, in plain terms: it fails if an earlier one has, or if its record would end beyond the block's
      data; otherwise its record, if it writes one, is appended. */
  lemma OneAttempt(p: Params, log: Log, a: Attempt)
    requires AllWritable(log.accepted) && Legal(p, a)
    ensures var fails := log.failed > 0
                         || p.headerSize + SizeOf(log.accepted) + 8 + |a.r.body| > p.maxBlockDataSize;
            After(p, log, a) ==
            Log(if fails || a.checkOnly then log.accepted else log.accepted + [a.r],
                if fails then log.failed + 1 else log.failed)
  {
    hide Encode, AllWritable, SizeOf, Passes;
    PassesWithRoom(p, log, |a.r.body|);
  }

  // ---------------------------------------------------------------------------------------
  // The device
  // ---------------------------------------------------------------------------------------

  /** Copies a record into device memory, a word at a time. */
  method WriteData(mem: array<byte>, at: nat, record: seq<byte>)
    requires at + |record| <= mem.Length && |record| % 4 == 0
    modifies mem
    ensures mem[..] == Overwritten(old(mem[..]), at, record)
  {
    var step := |record| / 4;
    for i := 0 to step
      invariant forall k | 0 <= k < at :: mem[k] == old(mem[k])
      invariant forall k | 0 <= k < 4 * i :: mem[at + k] == record[k]
      invariant forall k | at + 4 * i <= k < mem.Length :: mem[k] == old(mem[k])
    {
      var d := at + 4 * i;
      mem[d], mem[d + 1], mem[d + 2], mem[d + 3] :=
        record[4 * i], record[4 * i + 1], record[4 * i + 2], record[4 * i + 3];
    }
  }

  predicate AllBlocks(p: Params, mem: seq<byte>, headers: seq<BlockHeader>, logs: seq<Log>) {
    |headers| == |logs| && forall b | 0 <= b < |logs| :: BlockOk(p, mem, headers[b], logs[b], b)
  }

  lemma OthersKept(p: Params, mem: seq<byte>, at: nat, data: seq<byte>, block: nat, header: BlockHeader, log: Log,
                   headers: seq<BlockHeader>, logs: seq<Log>)
    requires Sensible(p) && AllBlocks(p, mem, headers, logs) && block < |logs| && at + |data| <= |mem|
    requires block * p.blockMemSize <= at && at + |data| <= block * p.blockMemSize + p.blockMemSize
    requires BlockOk(p, Overwritten(mem, at, data), header, log, block)
    ensures AllBlocks(p, Overwritten(mem, at, data), headers[block := header], logs[block := log])
  {
    hide BlockOk, Sensible, Overwritten;
    forall b | 0 <= b < |logs| && b != block
      ensures BlockOk(p, Overwritten(mem, at, data), headers[b], logs[b], b)
    {
      OtherBlockKept(p, mem, at, data, block, b, headers[b], logs[b]);
    }
  }

  lemma HeaderKept(p: Params, mem: seq<byte>, block: nat, header: BlockHeader, log: Log,
                   headers: seq<BlockHeader>, logs: seq<Log>)
    requires AllBlocks(p, mem, headers, logs) && block < |logs| && BlockOk(p, mem, header, log, block)
    ensures AllBlocks(p, mem, headers[block := header], logs[block := log])
  {
    hide BlockOk;
  }

  /** The whole device after a record has been written to block `block`. */
  lemma DumpKeepsAll(p: Params, mem: seq<byte>, headers: seq<BlockHeader>, logs: seq<Log>, block: nat, r: LogRecord)
    requires Sensible(p) && AllBlocks(p, mem, headers, logs) && block < |logs|
    requires Writable(r) && Admitted(p, |r.body|)
    requires AllWritable(logs[block].accepted) && Passes(p, logs[block], |r.body|)
    ensures var start, at := block * p.blockMemSize, block * p.blockMemSize + p.headerSize + headers[block].length;
            var h := headers[block].(count := headers[block].count + 1,
                                     length := headers[block].length + RECORD_HEADER_SIZE + |r.body|);
            && at + |Bytes(r)| <= start + p.maxBlockDataSize && at + |Bytes(r)| <= |mem|
            && AllBlocks(p, Overwritten(mem, at, Bytes(r)), headers[block := h],
                         logs[block := Log(logs[block].accepted + [r], 0)])
  {
    hide BlockOk, Bytes, Overwritten, Encode, AllWritable, Writable;
    AppendedBlock(p, mem, headers[block], logs[block], block, r);
    StartOfData(p, block);
    hide DataStart;
    var h := headers[block].(count := headers[block].count + 1,
                             length := headers[block].length + RECORD_HEADER_SIZE + |r.body|);
    OthersKept(p, mem, DataStart(p, block) + headers[block].length, Bytes(r), block, h,
               Log(logs[block].accepted + [r], 0), headers, logs);
  }

  lemma StartOfData(p: Params, block: nat)
    ensures DataStart(p, block) == block * p.blockMemSize + p.headerSize
  {
  }

  class Device {
    const p: Params
    const mem: array<byte>
    var headers: seq<BlockHeader>
    ghost var logs: seq<Log>

    ghost predicate Valid()
      reads this, mem
    {
      Sensible(p) && |logs| == p.maxBlock && AllBlocks(p, mem[..], headers, logs)
    }

    lemma Established()
      requires Sensible(p) && |logs| == p.maxBlock && AllBlocks(p, mem[..], headers, logs)
      ensures Valid()
    {
    }

    /** Memory as the host hands it over: headers cleared. */
    constructor (params: Params, memory: array<byte>)
      requires Sensible(params) && memory.Length == params.maxBlock * params.blockMemSize
      ensures Valid() && p == params && mem == memory
      ensures forall b | 0 <= b < p.maxBlock :: logs[b] == Log([], 0)
    {
      p, mem := params, memory;
      headers := Repeat(BlockHeader(0, 0, 0), params.maxBlock);
      logs := Repeat(Log([], 0), params.maxBlock);
      new;
      forall b | 0 <= b < p.maxBlock ensures BlockOk(p, mem[..], headers[b], logs[b], b) {
        BlockInside(p, b);
      }
    }

    /** Lets an attempt through, or counts it as failed. Cores beyond the last block are turned away unseen. */
    method RecordPreCheck(recordSize: nat, blockIdx: nat) returns (ok: bool)
      requires Valid() && Admitted(p, recordSize)
      modifies this
      ensures !Wraps(old(headers), blockIdx) ==> Valid()
      ensures mem[..] == old(mem[..]) && |headers| == |old(headers)| && |logs| == |old(logs)|
      ensures ok == (blockIdx < p.maxBlock && Passes(p, old(logs[blockIdx]), recordSize))
      ensures ok <==> && blockIdx < p.maxBlock && old(headers[blockIdx]).length < 0x8000_0000_0000_0000
                      && p.headerSize + old(headers[blockIdx]).length + 8 + recordSize <= p.maxBlockDataSize
      ensures !ok && blockIdx < p.maxBlock ==>
                headers[blockIdx].length ==
                if old(headers[blockIdx]).length < 0x8000_0000_0000_0000
                then 0x8000_0000_0000_0000 + old(headers[blockIdx]).count + 1
                else (old(headers[blockIdx]).length + 1) % 0x1_0000_0000_0000_0000
      ensures logs == if ok || blockIdx >= p.maxBlock then old(logs)
                      else old(logs)[blockIdx := logs[blockIdx].(failed := old(logs[blockIdx].failed) + 1)]
      ensures blockIdx < p.maxBlock ==> logs[blockIdx].accepted == old(logs[blockIdx].accepted)
      ensures ok || blockIdx >= p.maxBlock ==> headers == old(headers)
      ensures !ok && blockIdx < p.maxBlock ==>
                headers == old(headers)[blockIdx := old(headers[blockIdx]).(length := headers[blockIdx].length)]
      ensures Wraps(old(headers), blockIdx) ==> headers[blockIdx].length == (old(headers[blockIdx].length) + 1) % U64
    {
      hide *;
      WrapIs(headers, blockIdx);
      Facts();
      if blockIdx >= p.maxBlock {
        return false;
      }
      ghost var log := logs[blockIdx];
      CheckMeaning(p, mem[..], headers, logs, blockIdx, recordSize);
      CapacityIsRoom(p, recordSize, headers[blockIdx].length);
      var maxLength := Capacity(p, recordSize);
      var length := headers[blockIdx].length;
      if length >= OVERFLOW_BIT {
        length := (length + 1) % U64;
      } else if length > maxLength {
        length := headers[blockIdx].count + 1;
        length := length + OVERFLOW_BIT;
      } else {
        return true;
      }
      headers := headers[blockIdx := headers[blockIdx].(length := length)];
      logs := logs[blockIdx := log.(failed := log.failed + 1)];
      if !Wraps(old(headers), blockIdx) { Established(); }
      return false;
    }

    /** Writes an admitted record behind the others of its block. */
    method DumpRecord(r: LogRecord, coreID: nat)
      requires Valid() && coreID < p.maxBlock && Writable(r)
      requires Admitted(p, |r.body|) && Passes(p, logs[coreID], |r.body|)
      modifies this, mem
      ensures Valid() && logs == old(logs)[coreID := Log(old(logs[coreID].accepted) + [r], 0)]
      ensures var at := coreID * p.blockMemSize + p.headerSize + old(headers[coreID]).length;
              && at + 8 + |r.body| <= coreID * p.blockMemSize + p.maxBlockDataSize
              && at + 8 + |r.body| <= mem.Length
              && mem[at + 8..at + 8 + |r.body|] == r.body && mem[at..at + 8] == Bytes(r)[..8]
              && forall k | 0 <= k < mem.Length && !(at <= k < at + 8 + |r.body|) :: mem[k] == old(mem[k])
      ensures headers == old(headers)[coreID := BlockHeader(old(headers[coreID]).count + 1,
                old(headers[coreID]).length + RECORD_HEADER_SIZE + |r.body|, old(headers[coreID]).mte2SrcPara)]
    {
      hide *;
      Facts();
      DumpKeepsAll(p, mem[..], headers, logs, coreID, r);
      var offset := coreID * p.blockMemSize;
      offset := offset + p.headerSize + headers[coreID].length;
      WriteHeaderAndBody(mem, offset, r);
      RecordInPlace(old(mem[..]), offset, r);
      headers := headers[coreID := headers[coreID].(count := headers[coreID].count + 1,
                                                    length := headers[coreID].length + RECORD_HEADER_SIZE + |r.body|)];
      logs := logs[coreID := Log(logs[coreID].accepted + [r], 0)];
      Established();
    }

    /** A recording hook: check, then write. The core id in the record is the block number cut to 16 bits. */
    method RecordEvent(r: LogRecord, blockIdx: nat)
      requires Valid() && Writable(r) && Admitted(p, |r.body|)
      modifies this, mem
      ensures !Wraps(old(headers), blockIdx) ==> Valid()
      ensures logs == if blockIdx >= p.maxBlock then old(logs)
                      else old(logs)[blockIdx := After(p, old(logs[blockIdx]), Attempt(r, false))]
    {
      hide *;
      Facts();
      WrapNeedsFailure(p, mem[..], headers, logs, blockIdx, |r.body|);
      var ok := RecordPreCheck(|r.body|, blockIdx);
      if ok {
        DumpRecord(r, blockIdx % 0x1_0000);
      }
      if blockIdx < p.maxBlock { AfterIs(p, old(logs[blockIdx]), Attempt(r, false)); }
    }

    lemma Facts()
      requires Valid()
      ensures Sensible(p) && AllBlocks(p, mem[..], headers, logs)
      ensures p.maxBlock <= 0x1_0000 && |headers| == |logs| == p.maxBlock
      ensures forall b | 0 <= b < p.maxBlock :: AllWritable(logs[b].accepted)
    {
      forall b | 0 <= b < p.maxBlock ensures AllWritable(logs[b].accepted) {
        assert BlockOk(p, mem[..], headers[b], logs[b], b);
      }
    }

    /** A hook that checks like a record of `recordSize` bytes but only stores a setting in the header. */
    method SetMte2SrcPara(config: nat, recordSize: nat, blockIdx: nat)
      requires Valid() && Admitted(p, recordSize)
      modifies this
      ensures !Wraps(old(headers), blockIdx) ==> Valid()
      ensures mem[..] == old(mem[..]) && |headers| == |old(headers)|
      ensures var passes := blockIdx < p.maxBlock && Passes(p, old(logs[blockIdx]), recordSize);
              && (passes ==> headers == old(headers)[blockIdx := old(headers[blockIdx]).(mte2SrcPara := config)])
              && (blockIdx < p.maxBlock && !passes ==>
                    headers[blockIdx].mte2SrcPara == old(headers[blockIdx].mte2SrcPara))
              && logs == if passes || blockIdx >= p.maxBlock then old(logs)
                         else old(logs)[blockIdx := old(logs[blockIdx]).(failed := old(logs[blockIdx].failed) + 1)]
    {
      hide *;
      Facts();
      WrapNeedsFailure(p, mem[..], headers, logs, blockIdx, recordSize);
      var ok := RecordPreCheck(recordSize, blockIdx);
      if ok {
        Facts();
        ParaIsFree(p, mem[..], headers, logs, blockIdx, config);
        headers := headers[blockIdx := headers[blockIdx].(mte2SrcPara := config)];
        Established();
      }
    }

    /** Any sequence of attempts by any cores: every block's log is that of the attempts made on it. */
    method RecordAll(events: seq<Event>)
      requires Valid() && AllEventsLegal(p, events) && Headroom(logs, |events|)
      modifies this, mem
      ensures Valid() && |logs| == |old(logs)|
      ensures forall b | 0 <= b < |logs| :: Follows(p, old(logs[b]), AttemptsOn(events, b), logs[b])
    {
      hide *;
      Facts();
      RunBegins(p, logs, events);
      for n := 0 to |events|
        invariant Valid() && |logs| == |old(logs)| == p.maxBlock
        invariant FollowsAll(p, old(logs), events, n, logs)
      {
        Facts();
        ghost var before := logs;
        var e := events[n];
        RunLegal(p, old(logs), events, n, logs);
        RunHeadroom(p, mem[..], headers, old(logs), events, n, logs);
        if e.block < p.maxBlock { AfterIs(p, logs[e.block], e.attempt); }
        if e.attempt.checkOnly {
          SetMte2SrcPara(e.config, |e.attempt.r.body|, e.block);
        } else {
          RecordEvent(e.attempt.r, e.block);
        }
        RunStep(p, old(logs), events, n, before, logs);
      }
      RunEnds(p, old(logs), events, logs);
    }
  }

  /** The 64-bit length field is about to wrap: this needs about 2^63 failed attempts on one block. */
  predicate Wraps(headers: seq<BlockHeader>, block: nat) {
    block < |headers| && headers[block].length + 1 >= U64
  }

  lemma WrapIs(headers: seq<BlockHeader>, block: nat)
    ensures Wraps(headers, block) <==> block < |headers| && headers[block].length + 1 >= U64
    ensures U64 > OVERFLOW_BIT > 0
    ensures forall n: nat | n < U64 :: n % U64 == n
  {
  }

  lemma WrapNeedsFailure(p: Params, mem: seq<byte>, headers: seq<BlockHeader>, logs: seq<Log>, block: nat,
                         recordSize: nat)
    requires Sensible(p) && AllBlocks(p, mem, headers, logs) && Admitted(p, recordSize)
    ensures Wraps(headers, block) ==> AllWritable(logs[block].accepted) && !Passes(p, logs[block], recordSize)
  {
    hide Encode, AllWritable;
    if Wraps(headers, block) {
      assert BlockOk(p, mem, headers[block], logs[block], block);
      OverflowBit(p, mem, headers[block], logs[block], block);
    }
  }

  /** After one more failure the header still tells the log if and only if its length field does not wrap. */
  lemma WrapForgetsTheLog(p: Params, mem: seq<byte>, header: BlockHeader, log: Log, block: nat)
    requires Sensible(p) && BlockOk(p, mem, header, log, block) && log.failed > 0 && header.length < U64
    ensures BlockOk(p, mem, header.(length := (header.length + 1) % U64), log.(failed := log.failed + 1), block)
            <==> header.length + 1 < U64
  {
    hide Encode, AllWritable;
  }

  // ---------------------------------------------------------------------------------------
  // Runs over all blocks
  // ---------------------------------------------------------------------------------------

  /** An attempt on a block; `config` is what a check-only hook stores. */
  datatype Event = Event(block: nat, attempt: Attempt, config: nat)

  predicate AllEventsLegal(p: Params, events: seq<Event>) {
    forall k | 0 <= k < |events| :: Legal(p, events[k].attempt)
  }

  /** The attempts on one block, in order. */
  function AttemptsOn(events: seq<Event>, block: nat): (r: seq<Attempt>)
    ensures |r| <= |events|
  {
    if events == [] then []
    else
      var front, last := events[..|events| - 1], events[|events| - 1];
      AttemptsOn(front, block) + if last.block == block then [last.attempt] else []
  }

  /** The log is what the attempts make of the log before. */
  predicate Follows(p: Params, before: Log, attempts: seq<Attempt>, after: Log) {
    AllWritable(before.accepted) && AllLegal(p, attempts) && after == AfterAll(p, before, attempts)
  }

  predicate FollowsAll(p: Params, before: seq<Log>, events: seq<Event>, n: nat, after: seq<Log>) {
    n <= |events| && |before| == |after|
    && forall b | 0 <= b < |after| :: Follows(p, before[b], AttemptsOn(events[..n], b), after[b])
  }

  /** Far from wrapping after n more attempts. */
  predicate Headroom(logs: seq<Log>, n: nat) {
    forall b | 0 <= b < |logs| :: logs[b].failed + n < 0x4000_0000_0000_0000
  }

  /** One more attempt at the end of a run. */
  lemma {:induction false} AfterAllSnoc(p: Params, log: Log, attempts: seq<Attempt>, a: Attempt)
    requires AllWritable(log.accepted) && AllLegal(p, attempts) && Legal(p, a)
    ensures AllLegal(p, attempts + [a])
    ensures AfterAll(p, log, attempts + [a]) == After(p, AfterAll(p, log, attempts), a)
    decreases |attempts|
  {
    hide After, Legal, AllWritable;
    if attempts == [] {
      assert attempts + [a] == [a];
      var none: seq<Attempt> := [];
      assert [a][1..] == none;
    } else {
      assert (attempts + [a])[1..] == attempts[1..] + [a];
      assert (attempts + [a])[0] == attempts[0];
      AfterAllSnoc(p, After(p, log, attempts[0]), attempts[1..], a);
    }
  }

  lemma {:induction false} FailuresAreAttempts(p: Params, log: Log, attempts: seq<Attempt>)
    requires AllWritable(log.accepted) && AllLegal(p, attempts)
    ensures AfterAll(p, log, attempts).failed <= log.failed + |attempts|
    decreases |attempts|
  {
    hide Encode, AllWritable, Admitted;
    if attempts != [] {
      assert Legal(p, attempts[0]);
      forall k | 0 <= k < |attempts| - 1 ensures Legal(p, attempts[1..][k]) { assert Legal(p, attempts[k + 1]); }
      FailuresAreAttempts(p, After(p, log, attempts[0]), attempts[1..]);
    }
  }

  lemma FollowsStep(p: Params, before: Log, attempts: seq<Attempt>, now: Log, a: Attempt)
    requires Follows(p, before, attempts, now) && Legal(p, a)
    ensures AllWritable(now.accepted) && Follows(p, before, attempts + [a], After(p, now, a))
  {
    AfterAllSnoc(p, before, attempts, a);
  }

  lemma AttemptsSnoc(events: seq<Event>, n: nat, block: nat)
    requires n < |events|
    ensures AttemptsOn(events[..n + 1], block) ==
            AttemptsOn(events[..n], block) + if events[n].block == block then [events[n].attempt] else []
  {
    assert events[..n + 1][..n] == events[..n];
  }

  lemma RunBegins(p: Params, logs: seq<Log>, events: seq<Event>)
    requires forall b | 0 <= b < |logs| :: AllWritable(logs[b].accepted)
    ensures FollowsAll(p, logs, events, 0, logs)
  {
    hide AllWritable;
  }

  lemma RunLegal(p: Params, before: seq<Log>, events: seq<Event>, n: nat, logs: seq<Log>)
    requires AllEventsLegal(p, events) && n < |events|
    ensures Legal(p, events[n].attempt)
    ensures Writable(events[n].attempt.r) && Admitted(p, |events[n].attempt.r.body|)
  {
    hide Writable, Admitted;
  }

  /** No length field is near its end during the run. */
  lemma RunHeadroom(p: Params, mem: seq<byte>, headers: seq<BlockHeader>, before: seq<Log>, events: seq<Event>, n: nat,
                    logs: seq<Log>)
    requires Sensible(p) && AllBlocks(p, mem, headers, logs) && FollowsAll(p, before, events, n, logs)
    requires Headroom(before, |events|)
    ensures forall b: nat :: !Wraps(headers, b)
  {
    hide Encode, AllWritable, AllLegal;
    forall b: nat | b < |headers| ensures headers[b].length + 1 < U64 {
      assert BlockOk(p, mem, headers[b], logs[b], b);
      assert Follows(p, before[b], AttemptsOn(events[..n], b), logs[b]);
      FailuresAreAttempts(p, before[b], AttemptsOn(events[..n], b));
      EncodeIsLong(logs[b].accepted);
    }
  }

  lemma RunStep(p: Params, before: seq<Log>, events: seq<Event>, n: nat, now: seq<Log>, next: seq<Log>)
    requires n < |events| && FollowsAll(p, before, events, n, now) && Legal(p, events[n].attempt)
    requires var e := events[n];
             && (e.block < |now| ==> AllWritable(now[e.block].accepted))
             && next == if e.block < |now| then now[e.block := After(p, now[e.block], e.attempt)] else now
    ensures FollowsAll(p, before, events, n + 1, next)
  {
    hide Follows, After, Legal, AllWritable, AttemptsOn;
    var e := events[n];
    forall b: nat | b < |next| ensures Follows(p, before[b], AttemptsOn(events[..n + 1], b), next[b]) {
      AttemptsSnoc(events, n, b);
      if b == e.block {
        FollowsStep(p, before[b], AttemptsOn(events[..n], b), now[b], e.attempt);
      } else {
        assert AttemptsOn(events[..n], b) + [] == AttemptsOn(events[..n], b);
      }
    }
  }

  lemma RunEnds(p: Params, before: seq<Log>, events: seq<Event>, logs: seq<Log>)
    requires FollowsAll(p, before, events, |events|, logs)
    ensures forall b | 0 <= b < |logs| :: Follows(p, before[b], AttemptsOn(events, b), logs[b])
  {
    hide Follows, AttemptsOn;
    assert events[..|events|] == events;
  }

  lemma AfterIs(p: Params, log: Log, a: Attempt)
    requires AllWritable(log.accepted) && Writable(a.r) && Admitted(p, |a.r.body|)
    ensures Legal(p, a)
    ensures After(p, log, a) ==
            if !Passes(p, log, |a.r.body|) then log.(failed := log.failed + 1)
            else if a.checkOnly then log else Log(log.accepted + [a.r], 0)
    ensures Attempt(a.r, false).r == a.r && !Attempt(a.r, false).checkOnly
    ensures !a.checkOnly ==> a == Attempt(a.r, false)
  {
  }

  lemma ParaIsFree(p: Params, mem: seq<byte>, headers: seq<BlockHeader>, logs: seq<Log>, block: nat, config: nat)
    requires AllBlocks(p, mem, headers, logs) && block < |logs|
    ensures AllBlocks(p, mem, headers[block := headers[block].(mte2SrcPara := config)], logs)
  {
    hide Encode, AllWritable;
    var header := headers[block].(mte2SrcPara := config);
    assert BlockOk(p, mem, headers[block], logs[block], block);
    assert BlockOk(p, mem, header, logs[block], block);
    HeaderKept(p, mem, block, header, logs[block], headers, logs);
    assert logs[block := logs[block]] == logs;
  }

  /** The code's two tests together are the condition that the log lets the attempt pass; if it does not, the header
      is brought up to date. */
  lemma CheckMeaning(p: Params, mem: seq<byte>, headers: seq<BlockHeader>, logs: seq<Log>, block: nat, recordSize: nat)
    requires Sensible(p) && AllBlocks(p, mem, headers, logs) && block < |logs| && Admitted(p, recordSize)
    ensures AllWritable(logs[block].accepted)
    ensures var header, log := headers[block], logs[block];
            && (Passes(p, log, recordSize) <==>
                  header.length < OVERFLOW_BIT && header.length <= Capacity(p, recordSize))
            && (!Passes(p, log, recordSize) ==>
                  var length := if header.length >= OVERFLOW_BIT then header.length + 1
                                else header.count + 1 + OVERFLOW_BIT;
                  AllBlocks(p, mem, headers[block := header.(length := length)],
                            logs[block := log.(failed := log.failed + 1)]))
  {
    hide Encode, AllWritable;
    var header, log := headers[block], logs[block];
    assert BlockOk(p, mem, header, log, block);
    OverflowBit(p, mem, header, log, block);
    if !Passes(p, log, recordSize) {
      FailedCheck(p, mem, header, log, block, recordSize);
      var length := if log.failed > 0 then header.length + 1 else OVERFLOW_BIT + header.count + 1;
      HeaderKept(p, mem, block, header.(length := length), log.(failed := log.failed + 1), headers, logs);
    }
  }

  lemma RecordInPlace(mem: seq<byte>, offset: nat, r: LogRecord)
    requires Writable(r) && offset + |Bytes(r)| <= |mem|
    ensures var after := Overwritten(mem, offset, Bytes(r));
            && |Bytes(r)| == 8 + |r.body| && |after| == |mem|
            && after[offset + 8..offset + 8 + |r.body|] == r.body && after[offset..offset + 8] == Bytes(r)[..8]
            && forall k | 0 <= k < |mem| && !(offset <= k < offset + 8 + |r.body|) :: after[k] == mem[k]
  {
    BytesAre(r);
    hide Bytes;
    var after := Overwritten(mem, offset, Bytes(r));
    assert forall i | 0 <= i < |Bytes(r)| :: after[offset + i] == Bytes(r)[i];
    assert forall i | 0 <= i < |r.body| :: Bytes(r)[8..][i] == Bytes(r)[8 + i];
  }

  method WriteHeaderAndBody(mem: array<byte>, offset: nat, r: LogRecord)
    requires Writable(r) && offset + RECORD_HEADER_SIZE + |r.body| <= mem.Length
    modifies mem
    ensures mem[..] == Overwritten(old(mem[..]), offset, Bytes(r))
    ensures forall k | 0 <= k < mem.Length && !(offset <= k < offset + |Bytes(r)|) :: mem[k] == old(mem[k])
  {
    WriteData(mem, offset, Word(r.recordType) + Word(MAGIC_WORDS));
    WriteData(mem, offset + RECORD_HEADER_SIZE, r.body);
    TwoWrites(old(mem[..]), offset, Word(r.recordType) + Word(MAGIC_WORDS), r.body);
  }

  lemma TwoWrites(mem: seq<byte>, at: nat, a: seq<byte>, b: seq<byte>)
    requires at + |a| + |b| <= |mem|
    ensures Overwritten(Overwritten(mem, at, a), at + |a|, b) == Overwritten(mem, at, a + b)
  {
  }

  lemma BlockInside(p: Params, b: nat)
    requires Sensible(p) && b < p.maxBlock
    ensures b * p.blockMemSize + p.blockMemSize <= p.maxBlock * p.blockMemSize
  {
    OneMore(b, p.blockMemSize);
    ProductMonotone(b + 1, p.maxBlock, p.blockMemSize);
  }

  // ---------------------------------------------------------------------------------------
  // The host's reading
  // ---------------------------------------------------------------------------------------

  datatype Readout = Readout(records: seq<LogRecord>, processed: nat)

  /** Reads up to `left` records from `index` on. `beyond` stands for the bytes in memory behind the message, which
      the header copy may touch; `sizes` gives the record size of every known type. */
  function ReadFrom(msg: seq<byte>, beyond: seq<byte>, sizes: map<nat, nat>, index: nat, left: nat): (r: Readout)
    requires |beyond| >= RECORD_HEADER_SIZE
    ensures r.processed <= left && |r.records| <= r.processed
    decreases left
  {
    if left == 0 || index >= |msg| then Readout([], 0)
    else
      var recordType, magicWords := ReadWord(msg + beyond, index), ReadWord(msg + beyond, index + 4);
      var start := index + RECORD_HEADER_SIZE;
      if start >= |msg| || magicWords != MAGIC_WORDS || recordType !in sizes then Readout([], 0)
      else
        var end := start + sizes[recordType];
        var rest := ReadFrom(msg, beyond, sizes, end, left - 1);
        Readout((if end <= |msg| then [LogRecord(recordType, msg[start..end])] else []) + rest.records,
                1 + rest.processed)
  }

  method ParseMemoryChart(msg: seq<byte>, beyond: seq<byte>, sizes: map<nat, nat>, headerSize: nat, count: nat)
    returns (records: seq<LogRecord>, processedCount: nat, droppedRecord: nat)
    requires |beyond| >= RECORD_HEADER_SIZE
    ensures Readout(records, processedCount) == ReadFrom(msg, beyond, sizes, headerSize, count)
    ensures processedCount + droppedRecord == count
  {
    hide *;
    HeaderSize();
    records, processedCount, droppedRecord := [], 0, 0;
    var index: nat := headerSize;
    JoinedFirst(ReadFrom(msg, beyond, sizes, headerSize, count));
    if count == 0 {
      ReadFromStops(msg, beyond, sizes, index, 0);
      return;
    }
    while processedCount < count && index < |msg|
      invariant processedCount <= count
      invariant ReadFrom(msg, beyond, sizes, headerSize, count) ==
                Joined(records, processedCount, ReadFrom(msg, beyond, sizes, index, count - processedCount))
      decreases count - processedCount
    {
      var recordType, magicWords := ReadWord(msg + beyond, index), ReadWord(msg + beyond, index + 4);
      var start := index + RECORD_HEADER_SIZE;
      if start >= |msg| {
        break;
      }
      if magicWords != MAGIC_WORDS {
        break;
      }
      if recordType !in sizes {
        break;
      }
      ReadFromStep(msg, beyond, sizes, index, count - processedCount);
      index := start + sizes[recordType];
      ghost var rest := ReadFrom(msg, beyond, sizes, index, count - processedCount - 1);
      if index <= |msg| {
        JoinedStep(records, processedCount, [LogRecord(recordType, msg[start..index])], rest);
        records := records + [LogRecord(recordType, msg[start..index])];
      } else {
        JoinedStep(records, processedCount, [], rest);
      }
      processedCount := processedCount + 1;
    }
    ReadFromStops(msg, beyond, sizes, index, count - processedCount);
    JoinedNothing(records, processedCount);
    droppedRecord := count - processedCount;
  }

  function Joined(records: seq<LogRecord>, processed: nat, rest: Readout): Readout {
    Readout(records + rest.records, processed + rest.processed)
  }

  lemma JoinedStep(records: seq<LogRecord>, processed: nat, found: seq<LogRecord>, rest: Readout)
    ensures Joined(records, processed, Readout(found + rest.records, 1 + rest.processed))
         == Joined(records + found, processed + 1, rest)
    ensures found == [] ==> records + found == records
  {
  }

  lemma JoinedFirst(rest: Readout)
    ensures Joined([], 0, rest) == rest
  {
  }

  lemma HeaderSize()
    ensures RECORD_HEADER_SIZE == 8
  {
  }

  lemma JoinedNothing(records: seq<LogRecord>, processed: nat)
    ensures Joined(records, processed, Readout([], 0)) == Readout(records, processed)
  {
  }

  lemma ReadFromStops(msg: seq<byte>, beyond: seq<byte>, sizes: map<nat, nat>, index: nat, left: nat)
    requires |beyond| >= RECORD_HEADER_SIZE
    requires left > 0 && index < |msg| ==>
               index + RECORD_HEADER_SIZE >= |msg| || ReadWord(msg + beyond, index + 4) != MAGIC_WORDS
               || ReadWord(msg + beyond, index) !in sizes
    ensures ReadFrom(msg, beyond, sizes, index, left) == Readout([], 0)
  {
    hide ReadWord;
  }

  lemma ReadFromStep(msg: seq<byte>, beyond: seq<byte>, sizes: map<nat, nat>, index: nat, left: nat)
    requires |beyond| >= RECORD_HEADER_SIZE && left > 0 && index + RECORD_HEADER_SIZE < |msg|
    requires ReadWord(msg + beyond, index + 4) == MAGIC_WORDS && ReadWord(msg + beyond, index) in sizes
    ensures var t, start := ReadWord(msg + beyond, index), index + RECORD_HEADER_SIZE;
            var end := start + sizes[t];
            var rest := ReadFrom(msg, beyond, sizes, end, left - 1);
            ReadFrom(msg, beyond, sizes, index, left) ==
            Readout((if end <= |msg| then [LogRecord(t, msg[start..end])] else []) + rest.records, 1 + rest.processed)
  {
    hide ReadWord;
  }

  /** The host knows the type of every record, and its size. */
  predicate Known(rs: seq<LogRecord>, sizes: map<nat, nat>) {
    forall k | 0 <= k < |rs| :: rs[k].recordType in sizes && |rs[k].body| == sizes[rs[k].recordType]
  }

  /** The header in front of a record reads back. */
  lemma HeaderReads(buffer: seq<byte>, index: nat, r: LogRecord)
    requires Writable(r) && index + |Bytes(r)| <= |buffer| && buffer[index..index + |Bytes(r)|] == Bytes(r)
    ensures ReadWord(buffer, index) == r.recordType && ReadWord(buffer, index + 4) == MAGIC_WORDS
    ensures buffer[index + 8..index + 8 + |r.body|] == r.body
  {
    hide Word, ReadWord;
    var n := |Bytes(r)|;
    var piece := buffer[index..index + n];
    assert piece[0..4] == Word(r.recordType) && piece[4..8] == Word(MAGIC_WORDS) && piece[8..n] == r.body;
    SubSlice(buffer, index, index + n, 0, 4);
    SubSlice(buffer, index, index + n, 4, 8);
    SubSlice(buffer, index, index + n, 8, n);
    ReadWordOfWord(buffer, index, r.recordType);
    ReadWordOfWord(buffer, index + 4, MAGIC_WORDS);
  }

  lemma SubSlice(s: seq<byte>, a: nat, b: nat, c: nat, d: nat)
    requires a <= b <= |s| && c <= d <= b - a
    ensures s[a..b][c..d] == s[a + c..a + d]
  {
    var x, y := s[a..b][c..d], s[a + c..a + d];
    forall k | 0 <= k < d - c ensures x[k] == y[k] {
      assert x[k] == s[a..b][c + k] == s[a + (c + k)];
      assert y[k] == s[(a + c) + k];
    }
  }

  lemma Regroup(a: seq<byte>, b: seq<byte>, c: seq<byte>, d: seq<byte>)
    ensures a + (b + c) + d == (a + b) + c + d && a + (b + c) + d == a + b + (c + d)
  {
  }

  /** Reading returns exactly the records that were written, in order, whatever bytes follow them. */
  lemma ReadsWhatWasWritten(head: seq<byte>, rs: seq<LogRecord>, tail: seq<byte>, beyond: seq<byte>,
                            sizes: map<nat, nat>)
    requires AllWritable(rs) && Known(rs, sizes) && |beyond| >= RECORD_HEADER_SIZE
    ensures ReadFrom(head + Encode(rs) + tail, beyond, sizes, |head|, |rs|) == Readout(rs, |rs|)
  {
    hide Encode, ReadFrom, Known, AllWritable;
    ReadsOn(head, rs, tail, beyond, sizes, 0);
    NothingToRead(head + Encode(rs) + tail, beyond, sizes, |head| + |Encode(rs)|);
  }

  /** Asked for more, reading goes on behind them. */
  lemma {:induction false} ReadsOn(head: seq<byte>, rs: seq<LogRecord>, tail: seq<byte>, beyond: seq<byte>,
                                   sizes: map<nat, nat>, more: nat)
    requires AllWritable(rs) && Known(rs, sizes) && |beyond| >= RECORD_HEADER_SIZE
    ensures var msg := head + Encode(rs) + tail;
            var rest := ReadFrom(msg, beyond, sizes, |head| + |Encode(rs)|, more);
            ReadFrom(msg, beyond, sizes, |head|, |rs| + more) == Readout(rs + rest.records, |rs| + rest.processed)
    decreases |rs|
  {
    hide *;
    var msg := head + Encode(rs) + tail;
    var rest := ReadFrom(msg, beyond, sizes, |head| + |Encode(rs)|, more);
    if rs == [] {
      NoBytes(rs);
      assert rs + rest.records == rest.records;
    } else {
      var r, later := rs[0], rs[1..];
      FirstRecord(rs, sizes);
      FirstBytes(head, r, later, tail);
      ReadsOn(head + Bytes(r), later, tail, beyond, sizes, more);
      ReadOneMore(msg, head, r, Encode(later) + tail, |later| + more, beyond, sizes);
      Prepend(r, later, rest.records);
    }
  }

  lemma NoBytes(rs: seq<LogRecord>)
    requires rs == []
    ensures AllWritable(rs) && Encode(rs) == []
  {
  }

  lemma Prepend(r: LogRecord, later: seq<LogRecord>, rest: seq<LogRecord>)
    ensures [r] + (later + rest) == ([r] + later) + rest
  {
  }

  lemma FirstBytes(head: seq<byte>, r: LogRecord, later: seq<LogRecord>, tail: seq<byte>)
    requires Writable(r) && AllWritable(later)
    ensures AllWritable([r] + later)
    ensures var msg := head + Encode([r] + later) + tail;
            && msg == (head + Bytes(r)) + Encode(later) + tail && msg == head + Bytes(r) + (Encode(later) + tail)
            && |head + Bytes(r)| + |Encode(later)| == |head| + |Encode([r] + later)|
  {
    hide Bytes, Encode;
    EncodeCons(r, later);
    Regroup(head, Bytes(r), Encode(later), tail);
  }

  lemma ReadOneMore(msg: seq<byte>, head: seq<byte>, r: LogRecord, rest: seq<byte>, left: nat,
                    beyond: seq<byte>, sizes: map<nat, nat>)
    requires Writable(r) && msg == head + Bytes(r) + rest && |beyond| >= RECORD_HEADER_SIZE
    requires r.recordType in sizes && |r.body| == sizes[r.recordType]
    ensures var later := ReadFrom(msg, beyond, sizes, |head + Bytes(r)|, left);
            ReadFrom(msg, beyond, sizes, |head|, left + 1) == Readout([r] + later.records, later.processed + 1)
  {
    hide *;
    HeaderSize();
    assert |head + Bytes(r)| == |head| + RECORD_HEADER_SIZE + |r.body|;
    OneRead(msg, head, r, rest, beyond);
    ReadFromStep(msg, beyond, sizes, |head|, left + 1);
  }

  /** What the next bytes of a message are read as, when records are still expected.  Bytes up to a record header,
      without the magic word or of an unknown type end the reading; a record cut short ends it as well, but counts. */
  lemma NextExactly(head: seq<byte>, t: seq<byte>, beyond: seq<byte>, sizes: map<nat, nat>, left: nat)
    requires |beyond| >= RECORD_HEADER_SIZE
    ensures var msg := head + t;
            ReadFrom(msg, beyond, sizes, |head|, left + 1) ==
            if |t| <= 8 || t[4] != 0x5a || t[5] != 0x5a || t[6] != 0x5a || t[7] != 0x5a then Readout([], 0)
            else
              var kind: nat := t[0] as int + 0x100 * t[1] as int + 0x1_0000 * t[2] as int + 0x100_0000 * t[3] as int;
              if kind !in sizes then Readout([], 0)
              else if |t| < 8 + sizes[kind] then Readout([], 1)
              else
                var rest := ReadFrom(msg, beyond, sizes, |head| + 8 + sizes[kind], left);
                Readout([LogRecord(kind, t[8..8 + sizes[kind]])] + rest.records, 1 + rest.processed)
  {
    hide *;
    var msg, at := head + t, |head|;
    HeaderSize();
    if |t| <= 8 {
      ReadFromStops(msg, beyond, sizes, at, left + 1);
    } else {
      WordsAt(head, t, beyond);
      var kind := ReadWord(msg + beyond, at);
      if ReadWord(msg + beyond, at + 4) != MAGIC_WORDS || kind !in sizes {
        ReadFromStops(msg, beyond, sizes, at, left + 1);
      } else {
        var end := at + 8 + sizes[kind];
        ReadFromStep(msg, beyond, sizes, at, left + 1);
        if end > |msg| {
          ReadFromStops(msg, beyond, sizes, end, left);
        } else {
          Behind(head, t, 8, 8 + sizes[kind]);
        }
      }
    }
  }

  lemma Behind(head: seq<byte>, t: seq<byte>, a: nat, b: nat)
    requires a <= b <= |t|
    ensures (head + t)[|head| + a..|head| + b] == t[a..b]
  {
  }

  lemma WordsAt(head: seq<byte>, t: seq<byte>, beyond: seq<byte>)
    requires |t| > 8
    ensures var s, at := head + t + beyond, |head|;
            && ReadWord(s, at)
               == t[0] as int + 0x100 * t[1] as int + 0x1_0000 * t[2] as int + 0x100_0000 * t[3] as int
            && (ReadWord(s, at + 4) == MAGIC_WORDS <==> t[4] == t[5] == t[6] == t[7] == 0x5a)
  {
    var s, at := head + t + beyond, |head|;
    assert forall k | 0 <= k < 8 :: s[at + k] == t[k];
    assert s[at + 4] == t[4] && s[at + 4 + 1] == t[5] && s[at + 4 + 2] == t[6] && s[at + 4 + 3] == t[7];
    assert s[at] == t[0] && s[at + 1] == t[1] && s[at + 2] == t[2] && s[at + 3] == t[3];
    MagicSum(t[4], t[5], t[6], t[7]);
  }

  lemma MagicSum(a: byte, b: byte, c: byte, d: byte)
    ensures a as int + 256 * b as int + 65536 * c as int + 16777216 * d as int == MAGIC_WORDS
       <==> a == b == c == d == 0x5a
  {
  }

  /** A damaged log is read up to the damage: the records in front of it, and nothing else, whatever is counted. */
  lemma ReadsUpToDamage(head: seq<byte>, rs: seq<LogRecord>, t: seq<byte>, beyond: seq<byte>, sizes: map<nat, nat>,
                        count: nat)
    requires AllWritable(rs) && Known(rs, sizes) && |beyond| >= RECORD_HEADER_SIZE && count > |rs|
    requires |t| <= 8 || t[4] != 0x5a || t[5] != 0x5a || t[6] != 0x5a || t[7] != 0x5a
             || t[0] as int + 0x100 * t[1] as int + 0x1_0000 * t[2] as int + 0x100_0000 * t[3] as int !in sizes
    ensures ReadFrom(head + Encode(rs) + t, beyond, sizes, |head|, count) == Readout(rs, |rs|)
  {
    hide Encode, ReadFrom, Known, AllWritable;
    ReadsOn(head, rs, t, beyond, sizes, count - |rs|);
    NextExactly(head + Encode(rs), t, beyond, sizes, count - |rs| - 1);
  }

  lemma FirstRecord(rs: seq<LogRecord>, sizes: map<nat, nat>)
    requires AllWritable(rs) && Known(rs, sizes) && rs != []
    ensures rs == [rs[0]] + rs[1..] && Writable(rs[0]) && AllWritable(rs[1..]) && Known(rs[1..], sizes)
    ensures rs[0].recordType in sizes && |rs[0].body| == sizes[rs[0].recordType]
  {
    hide Writable;
  }

  lemma NothingToRead(msg: seq<byte>, beyond: seq<byte>, sizes: map<nat, nat>, index: nat)
    requires |beyond| >= RECORD_HEADER_SIZE
    ensures ReadFrom(msg, beyond, sizes, index, 0) == Readout([], 0)
  {
  }

  lemma OneRead(msg: seq<byte>, head: seq<byte>, r: LogRecord, rest: seq<byte>, beyond: seq<byte>)
    requires Writable(r) && msg == head + Bytes(r) + rest
    ensures |head| + RECORD_HEADER_SIZE + |r.body| <= |msg| && r.body != []
    ensures |msg + beyond| >= |head| + 8
    ensures ReadWord(msg + beyond, |head|) == r.recordType && ReadWord(msg + beyond, |head| + 4) == MAGIC_WORDS
    ensures msg[|head| + 8..|head| + 8 + |r.body|] == r.body
  {
    hide ReadWord, Bytes;
    var buffer := msg + beyond;
    assert buffer[|head|..|head| + |Bytes(r)|] == Bytes(r);
    HeaderReads(buffer, |head|, r);
    assert buffer[|head| + 8..|head| + 8 + |r.body|] == msg[|head| + 8..|head| + 8 + |r.body|];
  }

  /** What the host reads from a block's data area, asking for as many records as the header counts, are the
      records the block has accepted. */
  lemma BlockReadsBack(p: Params, mem: seq<byte>, header: BlockHeader, log: Log, block: nat, head: seq<byte>,
                       size: nat, beyond: seq<byte>, sizes: map<nat, nat>)
    requires Sensible(p) && BlockOk(p, mem, header, log, block) && |beyond| >= RECORD_HEADER_SIZE
    requires |Encode(log.accepted)| <= size && DataStart(p, block) + size <= |mem|
    requires Known(log.accepted, sizes)
    ensures ReadFrom(head + mem[DataStart(p, block)..DataStart(p, block) + size], beyond, sizes, |head|, header.count)
            == Readout(log.accepted, header.count)
  {
    hide *;
    BlockFacts(p, mem, header, log, block);
    var start, used := DataStart(p, block), |Encode(log.accepted)|;
    ReadsSlice(head, mem, start, used, size, log.accepted, beyond, sizes);
  }

  lemma ReadsSlice(head: seq<byte>, mem: seq<byte>, start: nat, used: nat, size: nat, rs: seq<LogRecord>,
                   beyond: seq<byte>, sizes: map<nat, nat>)
    requires used <= size && start + size <= |mem| && |beyond| >= RECORD_HEADER_SIZE
    requires AllWritable(rs) && Known(rs, sizes) && mem[start..start + used] == Encode(rs)
    ensures ReadFrom(head + mem[start..start + size], beyond, sizes, |head|, |rs|) == Readout(rs, |rs|)
  {
    hide *;
    SplitData(head, mem, start, used, size);
    ReadsWhatWasWritten(head, rs, mem[start + used..start + size], beyond, sizes);
  }

  lemma SplitData(head: seq<byte>, mem: seq<byte>, start: nat, used: nat, size: nat)
    requires used <= size && start + size <= |mem|
    ensures head + mem[start..start + size] == head + mem[start..start + used] + mem[start + used..start + size]
  {
    SliceJoin(mem, start, start + used, start + size);
  }

  /** The whole way, for any run on a block: the host reads the records wanted before the first overflow; and once
      overflowed, the length without its top bit minus the count is the number of attempts lost. */
  lemma RunReadsBack(p: Params, mem: seq<byte>, header: BlockHeader, block: nat, attempts: seq<Attempt>,
                     head: seq<byte>, size: nat, beyond: seq<byte>, sizes: map<nat, nat>) returns (k: nat)
    requires Sensible(p) && AllLegal(p, attempts) && |beyond| >= RECORD_HEADER_SIZE
    requires BlockOk(p, mem, header, AfterAll(p, Log([], 0), attempts), block)
    requires |Encode(AfterAll(p, Log([], 0), attempts).accepted)| <= size && DataStart(p, block) + size <= |mem|
    requires Known(Wanted(attempts), sizes)
    ensures k <= |attempts|
    ensures ReadFrom(head + mem[DataStart(p, block)..DataStart(p, block) + size], beyond, sizes, |head|, header.count)
            == Readout(Wanted(attempts[..k]), header.count)
    ensures k == |attempts| <==> header.length < OVERFLOW_BIT
    ensures k < |attempts| ==> header.length - OVERFLOW_BIT - header.count == |attempts| - k
    ensures forall i: nat | i < k :: FitsAt(p, Log([], 0), attempts, i)
    ensures k < |attempts| ==> !FitsAt(p, Log([], 0), attempts, k)
  {
    var log := AfterAll(p, Log([], 0), attempts);
    NothingLogged();
    BlockFacts(p, mem, header, log, block);
    hide *;
    k := PrefixIsAccepted(p, Log([], 0), attempts);
    WantedPrefix(attempts, k);
    assert log.accepted == Wanted(attempts[..k]);
    KnownPrefix(log.accepted, Wanted(attempts), sizes);
    BlockReadsBack(p, mem, header, log, block, head, size, beyond, sizes);
  }

  lemma NothingLogged()
    ensures AllWritable(Log([], 0).accepted)
  {
  }

  lemma BlockFacts(p: Params, mem: seq<byte>, header: BlockHeader, log: Log, block: nat)
    requires Sensible(p) && BlockOk(p, mem, header, log, block)
    ensures AllWritable(log.accepted) && header.count == |log.accepted|
    ensures header.length >= OVERFLOW_BIT <==> log.failed > 0
    ensures log.failed > 0 ==> header.length == OVERFLOW_BIT + header.count + log.failed
    ensures DataStart(p, block) + |Encode(log.accepted)| <= |mem|
    ensures mem[DataStart(p, block)..DataStart(p, block) + |Encode(log.accepted)|] == Encode(log.accepted)
  {
    OverflowBit(p, mem, header, log, block);
    hide Encode, AllWritable;
  }

  lemma KnownPrefix(a: seq<LogRecord>, b: seq<LogRecord>, sizes: map<nat, nat>)
    requires a <= b && Known(b, sizes)
    ensures Known(a, sizes)
  {
  }

  lemma {:induction false} WantedPrefix(attempts: seq<Attempt>, k: nat)
    requires k <= |attempts|
    ensures Wanted(attempts[..k]) <= Wanted(attempts)
    decreases |attempts|
  {
    if k > 0 {
      assert attempts[..k][1..] == attempts[1..][..k - 1];
      assert attempts[..k][0] == attempts[0];
      WantedPrefix(attempts[1..], k - 1);
    }
  }
}

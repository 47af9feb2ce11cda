/** Reassembly of client packets from an arbitrary stream of message chunks.

    `Packet` and `InjectionEvent` follow the source's classes.  Their methods are tied to the
    functions `Step` and `Run`; those are in turn compared with `Scan`, a parse of plain bytes
    that knows nothing about chunks or partially filled packets.
 */
module PacketFraming {
  import opened Common

  type Bytes = seq<byte>

  /** INVALID marks a packet whose head has not arrived; UNDEFINED stands for every other
      number a client may put into the type field. */
  datatype PacketType =
    | INVALID | CONFIG | DATA_PATH | PROCESS_CTRL | DBI_DATA | INSTR_LOG | POPPED_LOG
    | ICACHE_LOG | MTE_LOG | CCU_LOG | COLLECT_START | PROF_FINISH | UNDEFINED(code: nat)

  datatype Head = Head(kind: PacketType, length: nat)

  datatype ParseRet = PARSING | SUCCESS | FAILED

  /** The structure sizes and the decoding of heads and DBI headers that the wire protocol fixes.
      A head that is in no table entry has an undefined type. */
  datatype Wire = Wire(
    headSize: nat, heads: map<Bytes, Head>,
    dataPath: nat, ctrlReq: nat,
    dbiHeader: nat, dbiLengths: map<Bytes, nat>, blockData: nat, blockHeader: nat, pathMax: nat,
    instrLog: nat, instrLogV2: nat, icacheLog: nat, mteLog: nat, ccuLog: nat, collectStart: nat)
  {
    predicate Valid() {
      0 < headSize && blockHeader <= blockData
    }

    function HeadOf(bytes: Bytes): Head {
      if bytes in heads then heads[bytes] else Head(UNDEFINED(0), 0)
    }

    function DbiLengthOf(bytes: Bytes): nat {
      if bytes in dbiLengths then dbiLengths[bytes] else 0
    }

    predicate Known(kind: PacketType) {
      !kind.INVALID? && !kind.UNDEFINED?
    }

    function MaxLength(kind: PacketType): nat
      requires Known(kind)
    {
      match kind
      case CONFIG => 0
      case DATA_PATH => dataPath
      case PROCESS_CTRL => ctrlReq
      case DBI_DATA => dbiHeader + blockData
      case INSTR_LOG => if instrLogV2 > instrLog then instrLogV2 else instrLog
      case POPPED_LOG => if instrLogV2 > instrLog then instrLogV2 else instrLog
      case ICACHE_LOG => icacheLog
      case MTE_LOG => mteLog
      case CCU_LOG => ccuLog
      case COLLECT_START => collectStart
      case PROF_FINISH => 0
    }

    predicate HeadOk(head: Head) {
      Known(head.kind) && head.length <= MaxLength(head.kind)
    }

    /** A packet object on which ProcessMsg may be called: anything but a rejected head. */
    predicate Usable(p: PacketState) {
      p.head.kind.INVALID? || Known(p.head.kind)
    }

    predicate DbiOk(payload: Bytes)
      requires Valid()
    {
      var length := if |payload| < dbiHeader then 0 else DbiLengthOf(payload[..dbiHeader]);
      var maxLength := if blockData - blockHeader > pathMax then blockData - blockHeader else pathMax;
      length != 0 && length <= maxLength && dbiHeader + length == |payload|
    }

    /** The size checks made once the whole payload is there. */
    predicate PayloadOk(kind: PacketType, payload: Bytes)
      requires Valid() && Known(kind)
    {
      match kind
      case CONFIG => true
      case PROF_FINISH => true
      case DATA_PATH => |payload| == dataPath
      case PROCESS_CTRL => |payload| == ctrlReq
      case DBI_DATA => DbiOk(payload)
      case INSTR_LOG => |payload| == instrLog || |payload| == instrLogV2
      case POPPED_LOG => |payload| == instrLog || |payload| == instrLogV2
      case ICACHE_LOG => |payload| == icacheLog
      case MTE_LOG => |payload| == mteLog
      case CCU_LOG => |payload| == ccuLog
      case COLLECT_START => |payload| == collectStart
    }
  }

  datatype PacketState = PacketState(head: Head, ask: Bytes)

  const FRESH_PACKET := PacketState(Head(INVALID, 0), [])

  datatype Frame = Frame(kind: PacketType, payload: Bytes)

  // ---------------------------------------------------------------------------------------
  // One call of Packet::ProcessMsg on the unread part of a message
  // ---------------------------------------------------------------------------------------

  datatype StepResult = StepResult(ret: ParseRet, used: nat, state: PacketState)

  function PayloadStep(w: Wire, p: PacketState, unread: Bytes, from: nat): (r: StepResult)
    requires w.Valid() && w.Known(p.head.kind) && from <= |unread|
    ensures from <= r.used <= |unread| && w.Usable(r.state)
  {
    var avail := |unread| - from;
    if p.head.length < |p.ask| then
      StepResult(FAILED, |unread|, p)
    else
      var left := p.head.length - |p.ask|;
      if left > avail then
        StepResult(PARSING, |unread|, p.(ask := p.ask + unread[from..]))
      else
        var ask := p.ask + unread[from..from + left];
        StepResult(if w.PayloadOk(p.head.kind, ask) then SUCCESS else FAILED, from + left, p.(ask := ask))
  }

  function Step(w: Wire, p: PacketState, unread: Bytes): (r: StepResult)
    requires w.Valid() && w.Usable(p)
    ensures r.used <= |unread|
    ensures r.ret != FAILED ==> w.Usable(r.state)
  {
    if !p.head.kind.INVALID? then
      PayloadStep(w, p, unread, 0)
    else if |p.ask| + |unread| < w.headSize then
      StepResult(PARSING, |unread|, p.(ask := p.ask + unread))
    else if w.headSize < |p.ask| then
      StepResult(FAILED, |unread|, p)
    else
      var length := w.headSize - |p.ask|;
      var head := w.HeadOf(p.ask + unread[..length]);
      if !w.HeadOk(head) then
        StepResult(FAILED, |unread|, PacketState(head, []))
      else
        PayloadStep(w, PacketState(head, []), unread, length)
  }

  class Packet {
    const clientId: nat
    var head: Head
    var askMsg: Bytes

    constructor (clientId: nat)
      ensures State() == FRESH_PACKET && this.clientId == clientId
    {
      this.clientId := clientId;
      head, askMsg := Head(INVALID, 0), [];
    }

    ghost function State(): PacketState
      reads this
    {
      PacketState(head, askMsg)
    }

    /** Consumes bytes of `msg` from `idx` on.  While the head is missing, an index past the end
        of the message fails without touching the packet. */
    method ProcessMsg(w: Wire, msg: Bytes, idx: nat) returns (ret: ParseRet, next: nat)
      requires w.Valid() && w.Usable(State())
      requires idx <= |msg| || head.kind.INVALID?
      modifies this
      ensures idx > |msg| ==> ret == FAILED && next == |msg| && State() == old(State())
      ensures idx <= |msg| ==>
                var r := Step(w, old(State()), msg[idx..]);
                ret == r.ret && next == idx + r.used && State() == r.state
    {
      hide Wire.PayloadOk, Wire.HeadOf, Wire.MaxLength;
      ghost var unread := if idx <= |msg| then msg[idx..] else [];
      ghost var start := idx;
      next := idx;
      if head.kind.INVALID? {
        if |msg| < next {
          return FAILED, |msg|;
        }
        var headSize := |askMsg| + (|msg| - next);
        if headSize < w.headSize {
          askMsg := askMsg + msg[next..];
          return PARSING, |msg|;
        }
        if w.headSize < |askMsg| {
          return FAILED, |msg|;
        }
        var length := w.headSize - |askMsg|;
        assert msg[next..next + length] == unread[..length];
        askMsg := askMsg + msg[next..next + length];
        head := w.HeadOf(askMsg);
        askMsg := [];
        next := next + length;
        if !w.HeadOk(head) {
          return FAILED, |msg|;
        }
      }
      assert msg[next..] == unread[next - start..];
      if head.length < |askMsg| {
        return FAILED, |msg|;
      }
      var leftLength := head.length - |askMsg|;
      if leftLength > |msg| - next {
        askMsg := askMsg + msg[next..];
        return PARSING, |msg|;
      }
      assert msg[next..next + leftLength] == unread[next - start..next - start + leftLength];
      askMsg := askMsg + msg[next..next + leftLength];
      next := next + leftLength;
      ret := if w.PayloadOk(head.kind, askMsg) then SUCCESS else FAILED;
    }
  }

  // ---------------------------------------------------------------------------------------
  // InjectionEvent::Distribute for one client: pass after pass until the message is used up
  // ---------------------------------------------------------------------------------------

  /** Hung: a finished packet whose type has no handler is neither delivered nor reset, so with
      bytes left in the message every further pass finds the very same situation. */
  datatype Outcome =
    | Done(client: Option<PacketState>, frames: seq<Frame>)
    | Hung(frames: seq<Frame>)
  {
    function After(before: seq<Frame>): Outcome {
      match this
      case Done(client, fs) => Done(client, before + fs)
      case Hung(fs) => Hung(before + fs)
    }
  }

  predicate ClientUsable(w: Wire, client: Option<PacketState>) {
    client.Some? ==> w.Usable(client.value)
  }

  function Current(client: Option<PacketState>): PacketState {
    if client.None? then FRESH_PACKET else client.value
  }

  function Run(w: Wire, handled: set<PacketType>, client: Option<PacketState>, unread: Bytes): (o: Outcome)
    requires w.Valid() && ClientUsable(w, client)
    ensures o.Done? ==> ClientUsable(w, o.client)
    decreases |unread|, if client.None? then 0 else 1
  {
    if unread == [] then Done(client, []) else
    var r := Step(w, Current(client), unread);
    match r.ret
    case PARSING => Run(w, handled, Some(r.state), unread[r.used..])
    case FAILED => Run(w, handled, None, unread[r.used..])
    case SUCCESS =>
      if r.state.head.kind in handled then
        Run(w, handled, None, unread[r.used..]).After([Frame(r.state.head.kind, r.state.ask)])
      else if r.used == 0 then
        Hung([])
      else
        Run(w, handled, Some(r.state), unread[r.used..])
  }

  /** Hung is what the loop really does there: the pass succeeds, consumes nothing, changes
      nothing, and the type is still without a handler. */
  lemma HungPassRepeats(w: Wire, handled: set<PacketType>, p: PacketState, unread: Bytes)
    requires w.Valid() && w.Known(p.head.kind) && unread != []
    requires var r := Step(w, p, unread); r.ret == SUCCESS && r.used == 0 && r.state.head.kind !in handled
    ensures Step(w, p, unread).state == p
    ensures Run(w, handled, Some(p), unread) == Hung([])
  {
    assert p.ask + unread[0..0] == p.ask;
  }

  // ---------------------------------------------------------------------------------------
  // The reference: frames of a byte sequence, no chunks and no packet objects
  // ---------------------------------------------------------------------------------------

  /** How a byte sequence ends: with an incomplete frame (or a complete one nobody handles) as
      the very last bytes, with a rejected head and the bytes after it, or with an unhandled
      frame that is followed by more bytes. */
  datatype End = Tail(rest: Bytes) | BadHead(after: Bytes) | Unhandled

  datatype Parse = Parse(frames: seq<Frame>, end: End)
  {
    function After(before: seq<Frame>): Parse {
      Parse(before + frames, end)
    }
  }

  function Scan(w: Wire, handled: set<PacketType>, s: Bytes): Parse
    requires w.Valid()
    decreases |s|
  {
    if |s| < w.headSize then Parse([], Tail(s)) else
    var head := w.HeadOf(s[..w.headSize]);
    if !w.HeadOk(head) then Parse([], BadHead(s[w.headSize..])) else
    if |s| < w.headSize + head.length then Parse([], Tail(s)) else
    var payload, rest := s[w.headSize..w.headSize + head.length], s[w.headSize + head.length..];
    if !w.PayloadOk(head.kind, payload) then Scan(w, handled, rest)
    else if head.kind in handled then Scan(w, handled, rest).After([Frame(head.kind, payload)])
    else if rest == [] then Parse([], Tail(s))
    else Parse([], Unhandled)
  }

  predicate Pending(w: Wire, handled: set<PacketType>, tail: Bytes)
    requires w.Valid()
  {
    Scan(w, handled, tail) == Parse([], Tail(tail))
  }

  /** The packet object that stands for the bytes since the last finished frame. */
  function StateOf(w: Wire, tail: Bytes): Option<PacketState> {
    if tail == [] then None
    else if |tail| < w.headSize then Some(PacketState(Head(INVALID, 0), tail))
    else Some(PacketState(w.HeadOf(tail[..w.headSize]), tail[w.headSize..]))
  }

  function Settle(w: Wire, p: Parse): Outcome {
    match p.end
    case Tail(rest) => Done(StateOf(w, rest), p.frames)
    case BadHead(_) => Done(None, p.frames)
    case Unhandled => Hung(p.frames)
  }

  lemma {:induction false} ScanEndsPending(w: Wire, handled: set<PacketType>, s: Bytes)
    requires w.Valid()
    ensures var p := Scan(w, handled, s);
            p.end.Tail? ==> |p.end.rest| <= |s| && Pending(w, handled, p.end.rest)
                            && ClientUsable(w, StateOf(w, p.end.rest))
    decreases |s|
  {
    hide Wire.PayloadOk, Wire.HeadOf, Wire.MaxLength;
    if |s| >= w.headSize {
      var head := w.HeadOf(s[..w.headSize]);
      if w.HeadOk(head) && |s| >= w.headSize + head.length {
        ScanEndsPending(w, handled, s[w.headSize + head.length..]);
      }
    }
  }

  /** Pending bytes never hold more than one frame, and a complete one only when nobody
      handles its type. */
  lemma PendingIsShort(w: Wire, handled: set<PacketType>, tail: Bytes)
    requires w.Valid() && Pending(w, handled, tail) && w.headSize <= |tail|
    ensures var head := w.HeadOf(tail[..w.headSize]);
            && w.HeadOk(head) && |tail| <= w.headSize + head.length
            && (|tail| == w.headSize + head.length ==>
                  head.kind !in handled && w.PayloadOk(head.kind, tail[w.headSize..]))
  {
    hide Wire.PayloadOk, Wire.HeadOf, Wire.MaxLength;
    var head := w.HeadOf(tail[..w.headSize]);
    if w.HeadOk(head) && w.headSize + head.length <= |tail| {
      ScanEndsPending(w, handled, tail[w.headSize + head.length..]);
      if |tail| == w.headSize + head.length {
        assert tail[w.headSize..w.headSize + head.length] == tail[w.headSize..];
      }
    }
  }

  /** One message, with whatever bytes: the packets delivered and the state left behind are those
      of a scan of the pending bytes followed by the message.  A rejected head costs the rest of
      this message and nothing else. */
  lemma {:induction false} RunIsScan(w: Wire, handled: set<PacketType>, tail: Bytes, msg: Bytes)
    requires w.Valid() && Pending(w, handled, tail)
    ensures ClientUsable(w, StateOf(w, tail))
    ensures Run(w, handled, StateOf(w, tail), msg) == Settle(w, Scan(w, handled, tail + msg))
    decreases |msg|
  {
    hide Wire.PayloadOk, Wire.HeadOf, Wire.MaxLength;
    ScanEndsPending(w, handled, tail);
    var s, p := tail + msg, Current(StateOf(w, tail));
    if msg == [] {
      assert s == tail;
    } else if |s| < w.headSize {
      assert msg[|msg|..] == [];
    } else {
      var hs := w.headSize;
      var head := w.HeadOf(s[..hs]);
      if |tail| < hs {
        assert s[..hs] == p.ask + msg[..hs - |tail|];
        assert s[hs..] == msg[hs - |tail|..];
      } else {
        assert s[..hs] == tail[..hs];
        assert s[hs..] == p.ask + msg;
      }
      if !w.HeadOk(head) {
        assert msg[|msg|..] == [];
      } else if |s| < hs + head.length {
        assert msg[|msg|..] == [];
        if |tail| < hs {
          assert s[hs..] == [] + msg[hs - |tail|..];
        } else {
          assert s[hs..] == p.ask + msg[0..];
        }
      } else {
        RunFinishesFrame(w, handled, tail, msg, head);
      }
    }
  }

  lemma RunFinishesFrame(w: Wire, handled: set<PacketType>, tail: Bytes, msg: Bytes, head: Head)
    requires w.Valid() && Pending(w, handled, tail) && msg != [] && |tail + msg| >= w.headSize
    requires head == w.HeadOf((tail + msg)[..w.headSize]) && w.HeadOk(head)
    requires |tail + msg| >= w.headSize + head.length
    ensures ClientUsable(w, StateOf(w, tail))
    ensures Run(w, handled, StateOf(w, tail), msg) == Settle(w, Scan(w, handled, tail + msg))
    decreases |msg|, 0
  {
    hide Run, Step, Scan;
    var hs, s := w.headSize, tail + msg;
    var payload, rest := s[hs..hs + head.length], s[hs + head.length..];
    if |tail| >= hs {
      assert s[..hs] == tail[..hs];
      PendingIsShort(w, handled, tail);
    }
    ScanEndsPending(w, handled, tail);
    ScanOfFrame(w, handled, s, head);
    if |tail| == hs + head.length {
      assert payload == tail[hs..] && rest == msg;
      RunOfFinished(w, handled, tail, msg, head);
    } else {
      RunOfFrame(w, handled, tail, msg, head);
      assert [] + rest == rest;
      NothingPending(w, handled);
      RunIsScan(w, handled, [], rest);
      if rest == [] { assert s[hs..] == payload; }
    }
  }

  lemma NothingPending(w: Wire, handled: set<PacketType>)
    requires w.Valid()
    ensures Pending(w, handled, [])
  {
  }

  /** What a complete first frame contributes to a scan. */
  lemma ScanOfFrame(w: Wire, handled: set<PacketType>, s: Bytes, head: Head)
    requires w.Valid() && |s| >= w.headSize && head == w.HeadOf(s[..w.headSize]) && w.HeadOk(head)
    requires |s| >= w.headSize + head.length
    ensures var payload, rest := s[w.headSize..w.headSize + head.length], s[w.headSize + head.length..];
            Scan(w, handled, s) ==
              if !w.PayloadOk(head.kind, payload) then Scan(w, handled, rest)
              else if head.kind in handled then Scan(w, handled, rest).After([Frame(head.kind, payload)])
              else if rest == [] then Parse([], Tail(s))
              else Parse([], Unhandled)
  {
    hide Wire.PayloadOk, Wire.HeadOf, Wire.MaxLength;
  }

  /** A finished frame without a handler was pending: the pass makes no progress. */
  lemma RunOfFinished(w: Wire, handled: set<PacketType>, tail: Bytes, msg: Bytes, head: Head)
    requires w.Valid() && msg != [] && |tail| >= w.headSize && head == w.HeadOf(tail[..w.headSize])
    requires w.HeadOk(head) && |tail| == w.headSize + head.length
    requires w.PayloadOk(head.kind, tail[w.headSize..]) && head.kind !in handled
    ensures Run(w, handled, StateOf(w, tail), msg) == Hung([])
  {
    RunOfFinishedState(w, handled, PacketState(head, tail[w.headSize..]), msg);
  }

  lemma RunOfFrame(w: Wire, handled: set<PacketType>, tail: Bytes, msg: Bytes, head: Head)
    requires w.Valid() && msg != [] && ClientUsable(w, StateOf(w, tail))
    requires |tail + msg| >= w.headSize && head == w.HeadOf((tail + msg)[..w.headSize]) && w.HeadOk(head)
    requires |tail| < w.headSize + head.length <= |tail + msg|
    ensures var s := tail + msg;
            var payload, rest := s[w.headSize..w.headSize + head.length], s[w.headSize + head.length..];
            Run(w, handled, StateOf(w, tail), msg) ==
              if !w.PayloadOk(head.kind, payload) then Run(w, handled, None, rest)
              else if head.kind in handled then Run(w, handled, None, rest).After([Frame(head.kind, payload)])
              else if rest == [] then Done(Some(PacketState(head, payload)), [])
              else Hung([])
  {
    hide Wire.PayloadOk, Wire.HeadOf, Wire.MaxLength;
    var hs, s, client := w.headSize, tail + msg, StateOf(w, tail);
    var payload, rest, used := s[hs..hs + head.length], s[hs + head.length..], hs + head.length - |tail|;
    StepFinishesFrame(w, tail, msg, head);
    assert msg[used..] == rest;
    var p := PacketState(head, payload);
    if w.PayloadOk(head.kind, payload) && head.kind !in handled && rest != [] {
      RunOfFinishedState(w, handled, p, rest);
    }
  }

  lemma RunOfFinishedState(w: Wire, handled: set<PacketType>, p: PacketState, rest: Bytes)
    requires w.Valid() && rest != [] && w.Known(p.head.kind) && |p.ask| == p.head.length
    requires w.PayloadOk(p.head.kind, p.ask) && p.head.kind !in handled
    ensures Run(w, handled, Some(p), rest) == Hung([])
  {
    hide Wire.PayloadOk, Wire.HeadOf, Wire.MaxLength;
    assert p.ask + rest[0..0 + 0] == p.ask;
    assert Step(w, p, rest) == StepResult(SUCCESS, 0, p);
  }

  lemma StepFinishesFrame(w: Wire, tail: Bytes, msg: Bytes, head: Head)
    requires w.Valid() && ClientUsable(w, StateOf(w, tail))
    requires w.headSize <= |tail + msg| && head == w.HeadOf((tail + msg)[..w.headSize]) && w.HeadOk(head)
    requires |tail| < w.headSize + head.length <= |tail + msg|
    ensures var payload := (tail + msg)[w.headSize..w.headSize + head.length];
            var ok := if w.PayloadOk(head.kind, payload) then SUCCESS else FAILED;
            Step(w, Current(StateOf(w, tail)), msg)
              == StepResult(ok, w.headSize + head.length - |tail|, PacketState(head, payload))
  {
    hide Wire.PayloadOk, Wire.HeadOf, Wire.MaxLength;
    var hs, s := w.headSize, tail + msg;
    if |tail| < hs {
      var length := hs - |tail|;
      assert s[..hs] == tail + msg[..length];
      assert s[hs..hs + head.length] == [] + msg[length..length + head.length];
    } else {
      assert s[..hs] == tail[..hs];
      var left := hs + head.length - |tail|;
      assert s[hs..hs + head.length] == tail[hs..] + msg[0..0 + left];
    }
  }

  // ---------------------------------------------------------------------------------------
  // A client's stream cut into chunks
  // ---------------------------------------------------------------------------------------

  function Flatten(chunks: seq<Bytes>): Bytes {
    if chunks == [] then [] else chunks[0] + Flatten(chunks[1..])
  }

  /** The messages of one client, one call of Distribute each. */
  function Feed(w: Wire, handled: set<PacketType>, client: Option<PacketState>, chunks: seq<Bytes>): (o: Outcome)
    requires w.Valid() && ClientUsable(w, client)
    ensures o.Done? ==> ClientUsable(w, o.client)
    decreases |chunks|
  {
    if chunks == [] then Done(client, []) else
    match Run(w, handled, client, chunks[0])
    case Hung(frames) => Hung(frames)
    case Done(next, frames) => Feed(w, handled, next, chunks[1..]).After(frames)
  }

  /** What a scan makes of `b` once it has come to the end described by `p`. */
  function Continue(w: Wire, handled: set<PacketType>, p: Parse, b: Bytes): Parse
    requires w.Valid()
  {
    match p.end
    case Tail(rest) => Scan(w, handled, rest + b).After(p.frames)
    case BadHead(after) => Parse(p.frames, BadHead(after + b))
    case Unhandled => p
  }

  lemma {:induction false} ScanAppend(w: Wire, handled: set<PacketType>, a: Bytes, b: Bytes)
    requires w.Valid()
    ensures Scan(w, handled, a + b) == Continue(w, handled, Scan(w, handled, a), b)
    decreases |a|
  {
    hide Wire.PayloadOk, Wire.HeadOf, Wire.MaxLength;
    var s, hs := a + b, w.headSize;
    if |a| >= hs {
      assert s[..hs] == a[..hs] && s[hs..] == a[hs..] + b;
      var head := w.HeadOf(a[..hs]);
      if w.HeadOk(head) && |a| >= hs + head.length {
        var payload, rest := a[hs..hs + head.length], a[hs + head.length..];
        assert s[hs..hs + head.length] == payload;
        assert s[hs + head.length..] == rest + b;
        if w.PayloadOk(head.kind, payload) && head.kind !in handled {
          if rest == [] && b == [] { assert s == a; }
        } else {
          ScanAppend(w, handled, rest, b);
          var p := Scan(w, handled, rest);
          if w.PayloadOk(head.kind, payload) {
            ContinueAfter(w, handled, p, b, [Frame(head.kind, payload)]);
          }
        }
      }
    }
  }

  lemma ContinueAfter(w: Wire, handled: set<PacketType>, p: Parse, b: Bytes, before: seq<Frame>)
    requires w.Valid()
    ensures Continue(w, handled, p.After(before), b) == Continue(w, handled, p, b).After(before)
  {
    if p.end.Tail? {
      var q := Scan(w, handled, p.end.rest + b);
      assert before + (p.frames + q.frames) == (before + p.frames) + q.frames;
    }
  }

  /** A rejected head with bytes after it: the one thing that makes chunk boundaries visible. */
  predicate Resynchronises(w: Wire, handled: set<PacketType>, s: Bytes)
    requires w.Valid()
  {
    var end := Scan(w, handled, s).end;
    end.BadHead? && end.after != []
  }

  /** However a stream is cut, the packets delivered after its chunks are the complete well-sized
      frames of all bytes so far, in order, and the state is the trailing partial frame. */
  lemma {:induction false} FeedIsScan(w: Wire, handled: set<PacketType>, tail: Bytes, chunks: seq<Bytes>)
    requires w.Valid() && Pending(w, handled, tail)
    requires !Resynchronises(w, handled, tail + Flatten(chunks))
    ensures ClientUsable(w, StateOf(w, tail))
    ensures Feed(w, handled, StateOf(w, tail), chunks) == Settle(w, Scan(w, handled, tail + Flatten(chunks)))
    decreases |chunks|
  {
    ScanEndsPending(w, handled, tail);
    if chunks == [] {
      assert tail + Flatten(chunks) == tail;
    } else {
      var first, rest := tail + chunks[0], Flatten(chunks[1..]);
      assert tail + Flatten(chunks) == first + rest;
      RunIsScan(w, handled, tail, chunks[0]);
      ScanAppend(w, handled, first, rest);
      var p := Scan(w, handled, first);
      match p.end
      case Tail(t) =>
        ScanEndsPending(w, handled, first);
        FeedIsScan(w, handled, t, chunks[1..]);
      case BadHead(after) =>
        assert after + rest == [];
        assert [] + rest == [];
        FeedIsScan(w, handled, [], chunks[1..]);
      case Unhandled =>
    }
  }

  ghost predicate ChunkIndependent(w: Wire, handled: set<PacketType>, s: Bytes)
    requires w.Valid()
  {
    forall chunks: seq<Bytes> | Flatten(chunks) == s ::
      Feed(w, handled, None, chunks) == Feed(w, handled, None, [s])
  }

  /** Chunk boundaries do not matter, for any stream, any set of handlers and any cut, exactly
      when no rejected head is followed by further bytes. */
  lemma ChunkIndependence(w: Wire, handled: set<PacketType>, s: Bytes)
    requires w.Valid() && 2 <= w.headSize
    ensures ChunkIndependent(w, handled, s) <==> !Resynchronises(w, handled, s)
  {
    assert Flatten([s]) == s by { assert [s][1..] == []; }
    if !Resynchronises(w, handled, s) {
      forall chunks: seq<Bytes> | Flatten(chunks) == s
        ensures Feed(w, handled, None, chunks) == Feed(w, handled, None, [s])
      {
        assert [] + Flatten(chunks) == s && [] + Flatten([s]) == s;
        FeedIsScan(w, handled, [], chunks);
        FeedIsScan(w, handled, [], [s]);
      }
    } else {
      LastByteTellsChunksApart(w, handled, s);
    }
  }

  lemma FeedOne(w: Wire, handled: set<PacketType>, client: Option<PacketState>, a: Bytes)
    requires w.Valid() && ClientUsable(w, client)
    ensures Flatten([a]) == a
    ensures Feed(w, handled, client, [a]) == Run(w, handled, client, a)
  {
    var none: seq<Bytes> := [];
    assert [a][1..] == none;
    assert a + Flatten(none) == a;
    var o := Run(w, handled, client, a);
    assert o.frames + [] == o.frames;
  }

  lemma FeedTwo(w: Wire, handled: set<PacketType>, client: Option<PacketState>, a: Bytes, b: Bytes)
    requires w.Valid() && ClientUsable(w, client)
    requires Run(w, handled, client, a).Done?
    ensures Flatten([a, b]) == a + b
    ensures var o := Run(w, handled, client, a);
            Feed(w, handled, client, [a, b]) == Run(w, handled, o.client, b).After(o.frames)
  {
    assert [a, b][1..] == [b];
    var o := Run(w, handled, client, a);
    FeedOne(w, handled, o.client, b);
  }

  /** Cutting off the last byte leaves it pending, while one message would have dropped it. */
  lemma LastByteTellsChunksApart(w: Wire, handled: set<PacketType>, s: Bytes)
    requires w.Valid() && 2 <= w.headSize && Resynchronises(w, handled, s)
    ensures s != [] && Flatten([s[..|s| - 1], s[|s| - 1..]]) == s
    ensures Feed(w, handled, None, [s[..|s| - 1], s[|s| - 1..]]) != Feed(w, handled, None, [s])
  {
    var a, b := s[..|s| - 1], s[|s| - 1..];
    assert a + b == s && [] + s == s && [] + a == a && [] + b == b;
    BadHeadBeforeLastByte(w, handled, a, b);
    RunIsScan(w, handled, [], s);
    RunIsScan(w, handled, [], a);
    RunIsScan(w, handled, [], b);
    FeedOne(w, handled, None, s);
    FeedTwo(w, handled, None, a, b);
  }

  lemma BadHeadBeforeLastByte(w: Wire, handled: set<PacketType>, a: Bytes, b: Bytes)
    requires w.Valid() && |b| == 1 && Resynchronises(w, handled, a + b)
    ensures Scan(w, handled, a).end.BadHead?
  {
    ScanAppend(w, handled, a, b);
    var p := Scan(w, handled, a);
    if p.end.Tail? {
      ScanEndsPending(w, handled, a);
      OneByteCannotResynchronise(w, handled, p.end.rest, b);
    }
  }

  lemma OneByteCannotResynchronise(w: Wire, handled: set<PacketType>, t: Bytes, b: Bytes)
    requires w.Valid() && |b| == 1 && Pending(w, handled, t)
    ensures !Resynchronises(w, handled, t + b)
  {
    if |t| >= w.headSize {
      PendingIsShort(w, handled, t);
      assert (t + b)[..w.headSize] == t[..w.headSize];
      FrameEndsWithinOneByte(w, handled, t, b);
    } else if |t + b| == w.headSize {
      assert (t + b)[w.headSize..] == [];
      var head := w.HeadOf((t + b)[..w.headSize]);
      if w.HeadOk(head) && head.length == 0 { ScanOfFrame(w, handled, t + b, head); }
    }
  }

  lemma FrameEndsWithinOneByte(w: Wire, handled: set<PacketType>, t: Bytes, b: Bytes)
    requires w.Valid() && |b| == 1 && Pending(w, handled, t) && w.headSize <= |t|
    ensures var head := w.HeadOf(t[..w.headSize]);
            |t + b| >= w.headSize + head.length ==> !Scan(w, handled, t + b).end.BadHead?
  {
    PendingIsShort(w, handled, t);
    assert (t + b)[..w.headSize] == t[..w.headSize];
    var head := w.HeadOf(t[..w.headSize]);
    if |t| == w.headSize + head.length {
      assert (t + b)[w.headSize..w.headSize + head.length] == t[w.headSize..];
    } else if |t + b| >= w.headSize + head.length {
      assert (t + b)[w.headSize + head.length..] == [];
    }
  }

  // ---------------------------------------------------------------------------------------
  // Serialised packets come back, and buffers stay bounded
  // ---------------------------------------------------------------------------------------

  /** `packet` is a head followed by the payload of `f`, of a size the receiver accepts. */
  predicate Sends(w: Wire, packet: Bytes, f: Frame)
    requires w.Valid()
  {
    && w.headSize <= |packet|
    && w.HeadOf(packet[..w.headSize]) == Head(f.kind, |f.payload|)
    && packet[w.headSize..] == f.payload
    && w.HeadOk(Head(f.kind, |f.payload|))
    && w.PayloadOk(f.kind, f.payload)
  }

  predicate AllSend(w: Wire, packets: seq<Bytes>, frames: seq<Frame>)
    requires w.Valid()
  {
    |packets| == |frames| && forall i | 0 <= i < |packets| :: Sends(w, packets[i], frames[i])
  }

  lemma {:induction false} ScanOfPackets(w: Wire, handled: set<PacketType>, packets: seq<Bytes>, frames: seq<Frame>)
    requires w.Valid() && AllSend(w, packets, frames)
    requires forall f | f in frames :: f.kind in handled
    ensures Scan(w, handled, Flatten(packets)) == Parse(frames, Tail([]))
    decreases |packets|
  {
    if packets != [] {
      var packet, rest, f, hs := packets[0], Flatten(packets[1..]), frames[0], w.headSize;
      assert Sends(w, packet, f);
      var s := packet + rest;
      assert s[..hs] == packet[..hs];
      assert s[hs..hs + |f.payload|] == packet[hs..] && s[hs + |f.payload|..] == rest;
      forall i | 0 <= i < |packets[1..]| ensures Sends(w, packets[1..][i], frames[1..][i]) {
        assert Sends(w, packets[i + 1], frames[i + 1]);
      }
      ScanOfPackets(w, handled, packets[1..], frames[1..]);
      assert [f] + frames[1..] == frames;
    }
  }

  /** What well-behaved clients rely on: serialised packets, joined and cut at will, are
      delivered one by one and leave nothing behind. */
  lemma PacketsRoundTrip(w: Wire, handled: set<PacketType>, packets: seq<Bytes>, frames: seq<Frame>, chunks: seq<Bytes>)
    requires w.Valid() && AllSend(w, packets, frames)
    requires forall f | f in frames :: f.kind in handled
    requires Flatten(chunks) == Flatten(packets)
    ensures Feed(w, handled, None, chunks) == Done(None, frames)
  {
    ScanOfPackets(w, handled, packets, frames);
    assert [] + Flatten(chunks) == Flatten(packets);
    FeedIsScan(w, handled, [], chunks);
  }

  /** The buffer of a packet left pending: a partial head, or at most the payload its type allows. */
  predicate Bounded(w: Wire, client: Option<PacketState>) {
    client.Some? ==>
      if client.value.head.kind.INVALID? then 0 < |client.value.ask| < w.headSize
      else w.HeadOk(client.value.head) && |client.value.ask| <= client.value.head.length
  }

  lemma {:induction false} BuffersStayBounded(w: Wire, handled: set<PacketType>, tail: Bytes, chunks: seq<Bytes>)
    requires w.Valid() && Pending(w, handled, tail)
    ensures ClientUsable(w, StateOf(w, tail))
    ensures var o := Feed(w, handled, StateOf(w, tail), chunks);
            o.Done? ==> exists t | Pending(w, handled, t) :: o.client == StateOf(w, t) && Bounded(w, o.client)
    decreases |chunks|
  {
    ScanEndsPending(w, handled, tail);
    if chunks == [] {
      if w.headSize <= |tail| { PendingIsShort(w, handled, tail); }
    } else {
      RunIsScan(w, handled, tail, chunks[0]);
      var p := Scan(w, handled, tail + chunks[0]);
      ScanEndsPending(w, handled, tail + chunks[0]);
      if p.end.Tail? {
        BuffersStayBounded(w, handled, p.end.rest, chunks[1..]);
      } else if p.end.BadHead? {
        BuffersStayBounded(w, handled, [], chunks[1..]);
      }
    }
  }

  /** Distribute comes back from every message when all types that can be parsed have a handler;
      a type without one makes it hang, exactly when a frame of that type is followed by bytes. */
  lemma {:induction false} HangsOnlyOnUnhandled(w: Wire, handled: set<PacketType>, tail: Bytes, msg: Bytes)
    requires w.Valid() && Pending(w, handled, tail)
    ensures ClientUsable(w, StateOf(w, tail))
    ensures Run(w, handled, StateOf(w, tail), msg).Hung? <==> Scan(w, handled, tail + msg).end.Unhandled?
    ensures (forall kind | w.Known(kind) :: kind in handled) ==> Run(w, handled, StateOf(w, tail), msg).Done?
  {
    RunIsScan(w, handled, tail, msg);
    ScanEndsHandled(w, handled, tail + msg);
  }

  lemma {:induction false} ScanEndsHandled(w: Wire, handled: set<PacketType>, s: Bytes)
    requires w.Valid()
    ensures (forall kind | w.Known(kind) :: kind in handled) ==> !Scan(w, handled, s).end.Unhandled?
    decreases |s|
  {
    if |s| >= w.headSize {
      var head := w.HeadOf(s[..w.headSize]);
      if w.HeadOk(head) && |s| >= w.headSize + head.length {
        ScanEndsHandled(w, handled, s[w.headSize + head.length..]);
      }
    }
  }

  // ---------------------------------------------------------------------------------------
  // What is accepted, on the sizes of the wire alone
  // ---------------------------------------------------------------------------------------

  /** The payloads a type is sent with: empty, a structure of fixed size, one of two layouts of an instruction log, or
      a DBI header followed by as many bytes as it announces, at least one and not more than fit a block or a path. */
  predicate WellSized(w: Wire, kind: PacketType, payload: Bytes) {
    || ((kind == CONFIG || kind == PROF_FINISH) && payload == [])
    || (kind == DATA_PATH && |payload| == w.dataPath)
    || (kind == PROCESS_CTRL && |payload| == w.ctrlReq)
    || (kind == ICACHE_LOG && |payload| == w.icacheLog)
    || (kind == MTE_LOG && |payload| == w.mteLog)
    || (kind == CCU_LOG && |payload| == w.ccuLog)
    || (kind == COLLECT_START && |payload| == w.collectStart)
    || ((kind == INSTR_LOG || kind == POPPED_LOG) && (|payload| == w.instrLog || |payload| == w.instrLogV2))
    || (kind == DBI_DATA && w.dbiHeader < |payload| <= w.dbiHeader + w.blockData
        && payload[..w.dbiHeader] in w.dbiLengths && w.dbiHeader + w.dbiLengths[payload[..w.dbiHeader]] == |payload|
        && (|payload| - w.dbiHeader <= w.blockData - w.blockHeader || |payload| - w.dbiHeader <= w.pathMax))
  }

  /** The lengths that a head may not announce, and the types that it may not name. */
  predicate TooLong(w: Wire, kind: PacketType, length: nat) {
    match kind
    case INVALID => true
    case UNDEFINED(_) => true
    case CONFIG => length > 0
    case PROF_FINISH => length > 0
    case DATA_PATH => length > w.dataPath
    case PROCESS_CTRL => length > w.ctrlReq
    case ICACHE_LOG => length > w.icacheLog
    case MTE_LOG => length > w.mteLog
    case CCU_LOG => length > w.ccuLog
    case COLLECT_START => length > w.collectStart
    case INSTR_LOG => length > w.instrLog && length > w.instrLogV2
    case POPPED_LOG => length > w.instrLog && length > w.instrLogV2
    case DBI_DATA => length > w.dbiHeader + w.blockData
  }

  /** A complete packet in one message succeeds if and only if its payload is well sized for its type. */
  lemma AcceptedExactly(w: Wire, h: Bytes, kind: PacketType, payload: Bytes)
    requires w.Valid() && |h| == w.headSize && h in w.heads && w.heads[h] == Head(kind, |payload|)
    ensures Step(w, PacketState(Head(INVALID, 0), []), h + payload).ret == SUCCESS <==> WellSized(w, kind, payload)
    ensures WellSized(w, kind, payload) ==>
              Step(w, PacketState(Head(INVALID, 0), []), h + payload)
              == StepResult(SUCCESS, |h| + |payload|, PacketState(Head(kind, |payload|), payload))
  {
    HeadOfPacket(w, h, payload);
    SizesAgree(w, kind, payload);
    hide Wire.PayloadOk, Wire.HeadOf, Wire.HeadOk, WellSized;
    assert (h + payload)[|h|..|h| + |payload|] == payload && [] + payload == payload;
  }

  /** A head that comes in pieces is treated as if it came in one; with more than a head pending, nothing is read. */
  lemma HeadInPieces(w: Wire, ask: Bytes, unread: Bytes)
    requires w.Valid()
    ensures |ask| <= w.headSize ==>
              var whole := Step(w, PacketState(Head(INVALID, 0), []), ask + unread);
              && whole.used >= |ask|
              && Step(w, PacketState(Head(INVALID, 0), ask), unread)
                 == StepResult(whole.ret, whole.used - |ask|, whole.state)
    ensures |ask| > w.headSize ==>
              Step(w, PacketState(Head(INVALID, 0), ask), unread)
              == StepResult(FAILED, |unread|, PacketState(Head(INVALID, 0), ask))
  {
    hide Wire.HeadOf, Wire.MaxLength, Wire.PayloadOk;
    var all := ask + unread;
    assert [] + all == all;
    if |ask| <= w.headSize <= |all| {
      var length := w.headSize - |ask|;
      assert [] + all[..w.headSize] == ask + unread[..length];
      var head := w.HeadOf(ask + unread[..length]);
      if w.Known(head.kind) { SamePayload(w, head, ask, unread, length); }
    }
  }

  lemma SamePayload(w: Wire, head: Head, ask: Bytes, unread: Bytes, from: nat)
    requires w.Valid() && w.Known(head.kind) && from <= |unread|
    ensures var a, b := PayloadStep(w, PacketState(head, []), ask + unread, |ask| + from),
                        PayloadStep(w, PacketState(head, []), unread, from);
            a == StepResult(b.ret, |ask| + b.used, b.state)
  {
    hide Wire.PayloadOk;
    var all := ask + unread;
    assert all[|ask| + from..] == unread[from..];
    if head.length <= |unread| - from {
      assert all[|ask| + from..|ask| + from + head.length] == unread[from..from + head.length];
    }
  }

  /** The same for a payload. */
  lemma PayloadInPieces(w: Wire, head: Head, ask: Bytes, unread: Bytes)
    requires w.Valid() && w.Known(head.kind)
    ensures |ask| <= head.length ==>
              var whole := Step(w, PacketState(head, []), ask + unread);
              && whole.used >= |ask|
              && Step(w, PacketState(head, ask), unread) == StepResult(whole.ret, whole.used - |ask|, whole.state)
    ensures |ask| > head.length ==>
              Step(w, PacketState(head, ask), unread) == StepResult(FAILED, |unread|, PacketState(head, ask))
  {
    hide Wire.PayloadOk;
    var all := ask + unread;
    assert [] + all[0..] == ask + unread[0..];
    if |ask| <= head.length <= |all| {
      assert [] + all[0..0 + head.length] == ask + unread[0..0 + (head.length - |ask|)];
    }
  }

  lemma HeadOfPacket(w: Wire, h: Bytes, rest: Bytes)
    requires |h| == w.headSize && h in w.heads
    ensures (h + rest)[..w.headSize] == h && [] + (h + rest)[..w.headSize] == h && (h + rest)[w.headSize..] == rest
    ensures w.HeadOf(h) == w.heads[h]
  {
  }

  lemma SizesAgree(w: Wire, kind: PacketType, payload: Bytes)
    requires w.Valid()
    ensures w.HeadOk(Head(kind, |payload|)) <==> !TooLong(w, kind, |payload|)
    ensures w.HeadOk(Head(kind, |payload|)) ==> (w.PayloadOk(kind, payload) <==> WellSized(w, kind, payload))
    ensures WellSized(w, kind, payload) ==> !TooLong(w, kind, |payload|)
  {
    if kind == DBI_DATA && w.dbiHeader <= |payload| <= w.dbiHeader + w.blockData { DbiAgrees(w, payload); }
  }

  lemma DbiAgrees(w: Wire, payload: Bytes)
    requires w.Valid() && w.dbiHeader <= |payload| <= w.dbiHeader + w.blockData
    ensures w.DbiOk(payload) <==> WellSized(w, DBI_DATA, payload)
  {
  }

  lemma LengthAgrees(w: Wire, kind: PacketType, length: nat)
    ensures w.HeadOk(Head(kind, length)) <==> !TooLong(w, kind, length)
  {
  }

  /** A head is rejected, and with it the rest of the message, if and only if it names no known type or announces more
      than the type can have; bytes that are no head at all are rejected as well. */
  lemma RejectedExactly(w: Wire, h: Bytes, rest: Bytes)
    requires w.Valid() && |h| == w.headSize && rest != []
    ensures var head := if h in w.heads then w.heads[h] else Head(UNDEFINED(0), 0);
            Step(w, PacketState(Head(INVALID, 0), []), h + rest)
              == StepResult(FAILED, |h| + |rest|, PacketState(head, []))
            <==> TooLong(w, head.kind, head.length)
  {
    assert (h + rest)[..w.headSize] == h && [] + h == h && (h + rest)[w.headSize..] == rest;
    var head := w.HeadOf(h);
    LengthAgrees(w, head.kind, head.length);
    hide Wire.PayloadOk, Wire.HeadOk, TooLong;
    if w.HeadOk(head) && |rest| >= head.length {
      assert head.length > 0 ==> [] + (h + rest)[|h|..|h| + head.length] != [];
    }
  }

  /** The parse of a byte stream that begins with a head, by the sizes of the wire: rejected, incomplete, skipped,
      delivered, kept, or stuck. */
  lemma ParseOfPacket(w: Wire, handled: set<PacketType>, h: Bytes, kind: PacketType, length: nat, rest: Bytes)
    requires w.Valid() && |h| == w.headSize && h in w.heads && w.heads[h] == Head(kind, length)
    ensures Scan(w, handled, h + rest) ==
            if TooLong(w, kind, length) then Parse([], BadHead(rest))
            else if |rest| < length then Parse([], Tail(h + rest))
            else if !WellSized(w, kind, rest[..length]) then Scan(w, handled, rest[length..])
            else if kind in handled then
              Parse([Frame(kind, rest[..length])] + Scan(w, handled, rest[length..]).frames,
                    Scan(w, handled, rest[length..]).end)
            else if |rest| == length then Parse([], Tail(h + rest))
            else Parse([], Unhandled)
  {
    hide *;
    HeadOfPacket(w, h, rest);
    LengthAgrees(w, kind, length);
    var s := h + rest;
    ScanUnfolds(w, handled, s, Head(kind, length));
    if |rest| >= length {
      SizesAgree(w, kind, rest[..length]);
      assert s[|h|..|h| + length] == rest[..length] && s[|h| + length..] == rest[length..];
      assert |rest[..length]| == length;
    }
  }

  lemma ScanUnfolds(w: Wire, handled: set<PacketType>, s: Bytes, head: Head)
    requires w.Valid() && |s| >= w.headSize && head == w.HeadOf(s[..w.headSize])
    ensures w.HeadOk(head) ==> w.Known(head.kind)
    ensures Scan(w, handled, s) ==
            if !w.HeadOk(head) then Parse([], BadHead(s[w.headSize..]))
            else if |s| < w.headSize + head.length then Parse([], Tail(s))
            else
              var payload, rest := s[w.headSize..w.headSize + head.length], s[w.headSize + head.length..];
              if !w.PayloadOk(head.kind, payload) then Scan(w, handled, rest)
              else if head.kind in handled then
                Parse([Frame(head.kind, payload)] + Scan(w, handled, rest).frames, Scan(w, handled, rest).end)
              else if rest == [] then Parse([], Tail(s))
              else Parse([], Unhandled)
  {
    hide Wire.PayloadOk, Wire.HeadOf, Wire.MaxLength;
  }

  /** What a client has to send: exactly the well-sized packets are the ones that come back under any cut. */
  lemma SentExactly(w: Wire, h: Bytes, kind: PacketType, payload: Bytes)
    requires w.Valid() && |h| == w.headSize && h in w.heads && w.heads[h] == Head(kind, |payload|)
    ensures Sends(w, h + payload, Frame(kind, payload)) <==> WellSized(w, kind, payload)
  {
    HeadOfPacket(w, h, payload);
    SizesAgree(w, kind, payload);
    hide Wire.PayloadOk, Wire.HeadOf, Wire.HeadOk, WellSized;
  }

  /** A pending payload by the sizes of the wire: what was announced is not too long and is not complete, unless it is
      well sized and nobody handles it. */
  lemma PendingBySize(w: Wire, handled: set<PacketType>, h: Bytes, kind: PacketType, length: nat, rest: Bytes)
    requires w.Valid() && |h| == w.headSize && h in w.heads && w.heads[h] == Head(kind, length)
    ensures Pending(w, handled, h + rest) <==>
            && !TooLong(w, kind, length)
            && (|rest| < length || (|rest| == length && WellSized(w, kind, rest) && kind !in handled))
  {
    ParseOfPacket(w, handled, h, kind, length, rest);
    hide Scan, WellSized, TooLong;
    if |rest| >= length {
      ScanEndsPending(w, handled, rest[length..]);
      assert |rest| == length ==> rest[..length] == rest;
    }
  }
}

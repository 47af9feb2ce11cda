/** Merging of program-counter addresses into ranges (pc_process.cpp), by way of hexadecimal text (ustring.h). */
module AddrMerge {
  import opened Arithmetic
  import opened Common

  const UINT64_MAX: nat := 0xFFFF_FFFF_FFFF_FFFF
  const PC_ADDR_ESS_GAP: nat := 4

  // ---------------------------------------------------------------------------------------
  // Hexadecimal text
  // ---------------------------------------------------------------------------------------

  function HexChar(d: nat): char
    requires d < 16
  {
    if d < 10 then '0' + d as char else 'a' + (d - 10) as char
  }

  function HexDigit(c: char): Option<nat> {
    if '0' <= c <= '9' then Some((c - '0') as nat)
    else if 'a' <= c <= 'f' then Some((c - 'a') as nat + 10)
    else if 'A' <= c <= 'F' then Some((c - 'A') as nat + 10)
    else None
  }

  function Hex(n: nat): (s: string)
    ensures s != ""
  {
    if n < 16 then [HexChar(n)] else Hex(n / 16) + [HexChar(n % 16)]
  }

  /** At least `size` digits behind the prefix. */
  function NumToHexString(num: nat, size: nat): string {
    "0x" + Repeat('0', if |Hex(num)| < size then size - |Hex(num)| else 0) + Hex(num)
  }

  /** The value of a row of digits; other characters end it. */
  function Value(s: string, soFar: nat): nat
    decreases |s|
  {
    if s == "" || HexDigit(s[0]).None? then soFar else Value(s[1..], 16 * soFar + HexDigit(s[0]).value)
  }

  predicate AllHexDigits(s: string) {
    forall k | 0 <= k < |s| :: HexDigit(s[k]).Some?
  }

  /** What is left behind a prefix, which only counts if something follows. */
  function Unprefixed(s: string): string {
    if |s| >= 3 && s[0] == '0' && (s[1] == 'x' || s[1] == 'X') then s[2..] else s
  }

  /** The strict conversion at radix 16: the whole text must be used up, and the value must fit 64 bits. */
  function StoullConverter(numString: string): Option<nat> {
    var digits := Unprefixed(numString);
    if digits == "" || !AllHexDigits(digits) then None
    else if Value(digits, 0) > UINT64_MAX then None
    else Some(Value(digits, 0))
  }

  lemma HexDigitOfChar(d: nat)
    requires d < 16
    ensures HexDigit(HexChar(d)) == Some(d)
  {
  }

  lemma {:induction false} HexIsDigits(n: nat)
    ensures AllHexDigits(Hex(n))
  {
    hide HexChar, HexDigit;
    if n < 16 {
      HexDigitOfChar(n);
    } else {
      HexIsDigits(n / 16);
      HexDigitOfChar(n % 16);
    }
  }

  lemma {:induction false} ValueAppend(a: string, c: char, soFar: nat)
    requires AllHexDigits(a) && HexDigit(c).Some?
    ensures Value(a + [c], soFar) == 16 * Value(a, soFar) + HexDigit(c).value
    decreases |a|
  {
    hide HexDigit;
    if a == "" {
      var none := "";
      assert (a + [c])[1..] == none;
    } else {
      assert (a + [c])[1..] == a[1..] + [c];
      ValueAppend(a[1..], c, 16 * soFar + HexDigit(a[0]).value);
    }
  }

  lemma {:induction false} ValueOfHex(n: nat)
    ensures Value(Hex(n), 0) == n
  {
    hide HexChar, HexDigit;
    if n < 16 {
      HexDigitOfChar(n);
      var none := "";
      assert [HexChar(n)][1..] == none;
    } else {
      ValueOfHex(n / 16);
      HexIsDigits(n / 16);
      HexDigitOfChar(n % 16);
      ValueAppend(Hex(n / 16), HexChar(n % 16), 0);
    }
  }

  lemma {:induction false} LeadingZeros(n: nat, s: string)
    ensures Value(Repeat('0', n) + s, 0) == Value(s, 0)
  {
    if n == 0 {
      assert Repeat('0', 0) + s == s;
    } else {
      assert (Repeat('0', n) + s)[0] == '0';
      assert (Repeat('0', n) + s)[1..] == Repeat('0', n - 1) + s;
      LeadingZeros(n - 1, s);
    }
  }

  lemma DigitExactly(c: char, d: nat)
    requires d < 16
    ensures HexDigit(c) == Some(d) <==> c == "0123456789abcdef"[d] || c == "0123456789ABCDEF"[d]
  {
  }

  /** Digits read as their value, the first counting most, alike without prefix and with either one. */
  lemma ReadsExactly(s: string, c: char)
    requires AllHexDigits(s) && HexDigit(c).Some?
    ensures Value("", 0) == 0 && Value(s + [c], 0) == 16 * Value(s, 0) + HexDigit(c).value
    ensures var digits := s + [c];
            && StoullConverter(digits)
               == (if Value(digits, 0) < 0x1_0000_0000_0000_0000 then Some(Value(digits, 0)) else None)
            && StoullConverter("0x" + digits) == StoullConverter(digits)
            && StoullConverter("0X" + digits) == StoullConverter(digits)
  {
    var digits := s + [c];
    ValueAppend(s, c, 0);
    assert HexDigit('x').None? && HexDigit('X').None?;
    hide HexDigit, Value;
    assert ("0x" + digits)[2..] == digits && ("0X" + digits)[2..] == digits;
    assert |digits| >= 2 ==> HexDigit(digits[1]).Some?;
  }

  /** Nothing else is read. */
  lemma RefusedExactly(s: string)
    requires s == "" || exists k | 0 <= k < |s| :: HexDigit(s[k]).None?
    requires |s| > 2 && (s[..2] == "0x" || s[..2] == "0X") ==> exists k | 2 <= k < |s| :: HexDigit(s[k]).None?
    ensures StoullConverter(s) == None
  {
    hide HexDigit, Value;
    if |s| >= 3 && s[0] == '0' && (s[1] == 'x' || s[1] == 'X') {
      assert s[..2] == [s[0], s[1]];
      assert s[..2] == "0x" || s[..2] == "0X";
      var k :| 2 <= k < |s| && HexDigit(s[k]).None?;
      assert s[2..][k - 2] == s[k];
    }
  }

  /** The text of a number: the prefix, zeros up to the size, digits without a leading zero; the last digit is the
      remainder by 16, the digits before it those of the quotient. */
  lemma TextExactly(num: nat, size: nat)
    ensures var text, digits := NumToHexString(num, size), Hex(num);
            && text[..2] == "0x"
            && |text| == 2 + (if |digits| < size then size else |digits|)
            && text[|text| - |digits|..] == digits
            && (forall k | 2 <= k < |text| - |digits| :: text[k] == '0')
            && digits[|digits| - 1] == "0123456789abcdef"[num % 16]
            && (num >= 16 ==> digits[..|digits| - 1] == Hex(num / 16))
            && (num < 16 ==> |digits| == 1)
            && (digits[0] == '0' ==> num == 0)
  {
    NoLeadingZero(num);
    HexDigitIs(num % 16);
    hide HexChar;
  }

  lemma HexDigitIs(d: nat)
    requires d < 16
    ensures HexChar(d) == "0123456789abcdef"[d]
  {
  }

  lemma {:induction false} NoLeadingZero(n: nat)
    ensures Hex(n)[0] == '0' ==> n == 0
  {
    if n >= 16 { NoLeadingZero(n / 16); }
  }

  /** Printed and parsed, every 64-bit value comes back. */
  lemma HexRoundTrip(num: nat, size: nat)
    requires num <= UINT64_MAX
    ensures StoullConverter(NumToHexString(num, size)) == Some(num)
  {
    hide Hex, HexDigit;
    var pad := if |Hex(num)| < size then size - |Hex(num)| else 0;
    var text := NumToHexString(num, size);
    assert text[2..] == Repeat('0', pad) + Hex(num) && text[0] == '0' && text[1] == 'x';
    LeadingZeros(pad, Hex(num));
    ValueOfHex(num);
    HexIsDigits(num);
    ZeroIsDigit();
    assert AllHexDigits(text[2..]);
  }

  lemma ZeroIsDigit()
    ensures HexDigit('0') == Some(0)
  {
  }

  // ---------------------------------------------------------------------------------------
  // Ranges
  // ---------------------------------------------------------------------------------------

  /** The addresses as an ordered set delivers them. */
  predicate Ascending(pcs: seq<nat>) {
    && (forall i, j | 0 <= i < j < |pcs| :: pcs[i] < pcs[j])
    && (forall i | 0 <= i < |pcs| :: pcs[i] <= UINT64_MAX)
  }

  /** When an address joins the range of the one before it. The code adds startPc once more to the end of the range
      than to the new address, so the gap is compared with startPc; without startPc this is a gap of at most 4. */
  predicate Near(pcs: seq<nat>, startPc: nat, i: nat)
    requires 0 < i < |pcs|
  {
    startPc <= pcs[i] - pcs[i - 1] <= startPc + PC_ADDR_ESS_GAP
  }

  /** A range, by the positions of its first and last address. */
  datatype Segment = Segment(first: nat, last: nat)

  /** The first n addresses cut wherever neighbours are not near. */
  predicate IsCut(segments: seq<Segment>, pcs: seq<nat>, startPc: nat, n: nat)
    requires n <= |pcs|
  {
    && segments != [] && segments[0].first == 0 && segments[|segments| - 1].last == n - 1
    && (forall r | 0 <= r < |segments| :: segments[r].first <= segments[r].last < n)
    && (forall r | 0 < r < |segments| ::
          segments[r - 1].last + 1 == segments[r].first && !Near(pcs, startPc, segments[r].first))
    && (forall r, i | 0 <= r < |segments| && segments[r].first < i <= segments[r].last :: Near(pcs, startPc, i))
  }

  /** The texts of a range. */
  function Shown(segment: Segment, pcs: seq<nat>, startPc: nat): seq<string>
    requires segment.first < |pcs| && segment.last < |pcs|
  {
    [NumToHexString(pcs[segment.first] + startPc, 8), NumToHexString(pcs[segment.last] + startPc, 8)]
  }

  /** What the code needs to get through: no sum leaves 64 bits, startPc being added twice to all but the last
      address. */
  predicate NoOverflow(pcs: seq<nat>, startPc: nat) {
    && (forall i | 0 <= i < |pcs| :: pcs[i] + startPc <= UINT64_MAX)
    && (forall i | 0 <= i < |pcs| - 1 :: pcs[i] + startPc + startPc <= UINT64_MAX)
  }

  lemma NoOverflowExactly(pcs: seq<nat>, startPc: nat)
    ensures NoOverflow(pcs, startPc) <==>
            && (forall i | 0 <= i < |pcs| :: pcs[i] + startPc < 0x1_0000_0000_0000_0000)
            && (forall i | 0 <= i < |pcs| - 1 :: pcs[i] + 2 * startPc < 0x1_0000_0000_0000_0000)
  {
  }

  predicate ShowsAll(addrRange: seq<seq<string>>, segments: seq<Segment>, pcs: seq<nat>, startPc: nat) {
    |addrRange| == |segments| && forall r | 0 <= r < |segments| ::
      segments[r].first < |pcs| && segments[r].last < |pcs| && addrRange[r] == Shown(segments[r], pcs, startPc)
  }

  method MergeAddrRange(pcList: seq<nat>, startPc: nat)
    returns (addrRange: seq<seq<string>>, ghost segments: seq<Segment>)
    requires Ascending(pcList) && startPc <= UINT64_MAX
    ensures pcList == [] || !NoOverflow(pcList, startPc) ==> addrRange == []
    ensures pcList != [] && NoOverflow(pcList, startPc) ==>
              IsCut(segments, pcList, startPc, |pcList|) && ShowsAll(addrRange, segments, pcList, startPc)
  {
    hide NumToHexString, StoullConverter, IsCut, ShowsAll;
    addrRange, segments := [], [];
    if pcList == [] {
      return;
    }
    if UINT64_MAX - startPc < pcList[0] {
      return;
    }
    addrRange := [[NumToHexString(pcList[0] + startPc, 8), NumToHexString(pcList[0] + startPc, 8)]];
    segments := [Segment(0, 0)];
    FirstSegment(pcList, startPc);
    for i := 1 to |pcList|
      invariant IsCut(segments, pcList, startPc, i) && ShowsAll(addrRange, segments, pcList, startPc)
      invariant forall k | 0 <= k < i :: pcList[k] + startPc <= UINT64_MAX
      invariant forall k | 0 <= k < i - 1 :: pcList[k] + startPc + startPc <= UINT64_MAX
    {
      var pc := pcList[i];
      LastShown(addrRange, segments, pcList, startPc, i);
      HexRoundTrip(pcList[i - 1] + startPc, 8);
      var converted := StoullConverter(addrRange[|addrRange| - 1][1]);
      if converted.None? {
        return [], segments;
      }
      var pcCurMax := converted.value;
      if UINT64_MAX - startPc >= pc && UINT64_MAX - startPc >= pcCurMax {
        pc := pc + startPc;
        pcCurMax := pcCurMax + startPc;
      } else {
        return [], segments;
      }
      var difference := if pc >= pcCurMax then pc - pcCurMax else pc - pcCurMax + (UINT64_MAX + 1);
      assert difference <= PC_ADDR_ESS_GAP <==> Near(pcList, startPc, i);
      NextSegment(addrRange, segments, pcList, startPc, i);
      if difference <= PC_ADDR_ESS_GAP {
        addrRange := addrRange[|addrRange| - 1 := [addrRange[|addrRange| - 1][0], NumToHexString(pc, 8)]];
        segments := segments[|segments| - 1 := Segment(segments[|segments| - 1].first, i)];
      } else {
        addrRange := addrRange + [[NumToHexString(pc, 8), NumToHexString(pc, 8)]];
        segments := segments + [Segment(i, i)];
      }
    }
  }

  lemma FirstSegment(pcs: seq<nat>, startPc: nat)
    requires pcs != []
    ensures var text := NumToHexString(pcs[0] + startPc, 8);
            IsCut([Segment(0, 0)], pcs, startPc, 1) && ShowsAll([[text, text]], [Segment(0, 0)], pcs, startPc)
  {
    hide NumToHexString;
  }

  lemma LastShown(addrRange: seq<seq<string>>, segments: seq<Segment>, pcs: seq<nat>, startPc: nat, n: nat)
    requires n <= |pcs| && IsCut(segments, pcs, startPc, n) && ShowsAll(addrRange, segments, pcs, startPc)
    ensures n > 0 && segments != [] && |addrRange| == |segments| && |addrRange[|addrRange| - 1]| == 2
    ensures addrRange[|addrRange| - 1][1] == NumToHexString(pcs[n - 1] + startPc, 8)
  {
    hide NumToHexString;
    assert addrRange[|segments| - 1] == Shown(segments[|segments| - 1], pcs, startPc);
  }

  lemma NextSegment(addrRange: seq<seq<string>>, segments: seq<Segment>, pcs: seq<nat>, startPc: nat, i: nat)
    requires 0 < i < |pcs| && IsCut(segments, pcs, startPc, i) && ShowsAll(addrRange, segments, pcs, startPc)
    ensures segments != [] && |addrRange| == |segments| && |addrRange[|addrRange| - 1]| == 2
    ensures var n, text := |segments| - 1, NumToHexString(pcs[i] + startPc, 8);
            if Near(pcs, startPc, i) then
              && IsCut(segments[n := Segment(segments[n].first, i)], pcs, startPc, i + 1)
              && ShowsAll(addrRange[n := [addrRange[n][0], text]], segments[n := Segment(segments[n].first, i)], pcs,
                          startPc)
            else
              && IsCut(segments + [Segment(i, i)], pcs, startPc, i + 1)
              && ShowsAll(addrRange + [[text, text]], segments + [Segment(i, i)], pcs, startPc)
  {
    LastShown(addrRange, segments, pcs, startPc, i);
    hide NumToHexString;
    var n := |segments| - 1;
    if Near(pcs, startPc, i) {
      ExtendCut(segments, pcs, startPc, i);
    } else {
      AddCut(segments, pcs, startPc, i);
    }
    hide IsCut, Near;
    assert addrRange[n] == Shown(segments[n], pcs, startPc);
  }

  lemma ExtendCut(segments: seq<Segment>, pcs: seq<nat>, startPc: nat, i: nat)
    requires 0 < i < |pcs| && IsCut(segments, pcs, startPc, i) && Near(pcs, startPc, i)
    ensures IsCut(segments[|segments| - 1 := Segment(segments[|segments| - 1].first, i)], pcs, startPc, i + 1)
  {
    hide Near;
  }

  lemma AddCut(segments: seq<Segment>, pcs: seq<nat>, startPc: nat, i: nat)
    requires 0 < i < |pcs| && IsCut(segments, pcs, startPc, i) && !Near(pcs, startPc, i)
    ensures IsCut(segments + [Segment(i, i)], pcs, startPc, i + 1)
  {
    hide Near;
  }

  // ---------------------------------------------------------------------------------------
  // What the ranges are
  // ---------------------------------------------------------------------------------------

  /** Without startPc nothing can overflow. */
  lemma NeverFailsUnshifted(pcs: seq<nat>)
    requires Ascending(pcs)
    ensures NoOverflow(pcs, 0)
  {
  }

  lemma EndsNoEarlier(a: seq<Segment>, b: seq<Segment>, pcs: seq<nat>, startPc: nat, r: nat)
    requires IsCut(a, pcs, startPc, |pcs|) && IsCut(b, pcs, startPc, |pcs|)
    requires r < |a| && r < |b| && a[r].first == b[r].first
    ensures b[r].last <= a[r].last && (r + 1 < |b| ==> r + 1 < |a| || b[r].last < a[r].last)
  {
    hide Near;
    if a[r].last < |pcs| - 1 {
      assert r + 1 < |a| && a[r].last + 1 == a[r + 1].first;
      assert !Near(pcs, startPc, a[r].last + 1);
    }
    assert r + 1 < |b| ==> b[r].last + 1 == b[r + 1].first;
  }

  lemma {:induction false} SameSegment(a: seq<Segment>, b: seq<Segment>, pcs: seq<nat>, startPc: nat, r: nat)
    requires IsCut(a, pcs, startPc, |pcs|) && IsCut(b, pcs, startPc, |pcs|) && r < |a|
    ensures r < |b| && a[r] == b[r]
  {
    hide Near;
    if r > 0 {
      SameSegment(a, b, pcs, startPc, r - 1);
      EndsNoEarlier(b, a, pcs, startPc, r - 1);
      assert a[r - 1].last + 1 == a[r].first && b[r - 1].last + 1 == b[r].first;
    }
    EndsNoEarlier(a, b, pcs, startPc, r);
    EndsNoEarlier(b, a, pcs, startPc, r);
  }

  /** The ranges are determined by the addresses and startPc: there is one way to cut only. */
  lemma CutIsUnique(a: seq<Segment>, b: seq<Segment>, pcs: seq<nat>, startPc: nat)
    requires IsCut(a, pcs, startPc, |pcs|) && IsCut(b, pcs, startPc, |pcs|)
    ensures a == b
  {
    SameSegment(a, b, pcs, startPc, |a| - 1);
    SameSegment(b, a, pcs, startPc, |b| - 1);
    hide IsCut;
    forall r | 0 <= r < |a| ensures a[r] == b[r] { SameSegment(a, b, pcs, startPc, r); }
  }

  /** Every address lies in a range. */
  lemma {:induction false} EveryAddressCovered(segments: seq<Segment>, pcs: seq<nat>, startPc: nat, i: nat)
    returns (r: nat)
    requires IsCut(segments, pcs, startPc, |pcs|) && i < |pcs|
    ensures r < |segments| && segments[r].first <= i <= segments[r].last
  {
    hide Near;
    if i == 0 {
      return 0;
    }
    r := EveryAddressCovered(segments, pcs, startPc, i - 1);
    if i > segments[r].last {
      assert r + 1 < |segments|;
      assert segments[r].last + 1 == segments[r + 1].first;
      r := r + 1;
    }
  }

  lemma GapBetween(segments: seq<Segment>, pcs: seq<nat>, r: nat)
    requires Ascending(pcs) && IsCut(segments, pcs, 0, |pcs|) && 0 < r < |segments|
    ensures segments[r - 1].last < |pcs| && segments[r].first < |pcs|
    ensures pcs[segments[r - 1].last] + 4 < pcs[segments[r].first]
  {
    var i := segments[r].first;
    assert segments[r - 1].last == i - 1 && segments[r].first <= segments[r].last < |pcs|;
    assert pcs[i - 1] < pcs[i] && !Near(pcs, 0, i);
  }

  lemma GapInside(segments: seq<Segment>, pcs: seq<nat>, r: nat, i: nat)
    requires Ascending(pcs) && IsCut(segments, pcs, 0, |pcs|)
    requires r < |segments| && segments[r].first < i <= segments[r].last
    ensures i < |pcs| && pcs[i - 1] < pcs[i] <= pcs[i - 1] + 4
  {
    assert Near(pcs, 0, i);
  }

  lemma EndsInOrder(segments: seq<Segment>, pcs: seq<nat>, r: nat)
    requires Ascending(pcs) && IsCut(segments, pcs, 0, |pcs|) && r < |segments|
    ensures segments[r].first < |pcs| && segments[r].last < |pcs|
    ensures pcs[segments[r].first] <= pcs[segments[r].last]
  {
  }

  /** At startPc = 0: the ranges ascend, their ends are addresses, neighbours in a range are at most 4 apart, and
      ranges are separated by more than 4. */
  lemma RangesUnshifted(segments: seq<Segment>, pcs: seq<nat>)
    requires Ascending(pcs) && IsCut(segments, pcs, 0, |pcs|)
    ensures forall r | 0 <= r < |segments| ::
              && segments[r].first < |pcs| && segments[r].last < |pcs|
              && pcs[segments[r].first] <= pcs[segments[r].last]
    ensures forall r | 0 < r < |segments| ::
              pcs[segments[r - 1].last] + 4 < pcs[segments[r].first]
    ensures forall r, i | 0 <= r < |segments| && segments[r].first < i <= segments[r].last ::
              pcs[i - 1] < pcs[i] <= pcs[i - 1] + 4
  {
    hide IsCut, Ascending;
    forall r | 0 <= r < |segments|
      ensures segments[r].first < |pcs| && segments[r].last < |pcs| && pcs[segments[r].first] <= pcs[segments[r].last]
    {
      EndsInOrder(segments, pcs, r);
    }
    forall r | 0 < r < |segments| ensures pcs[segments[r - 1].last] + 4 < pcs[segments[r].first] {
      GapBetween(segments, pcs, r);
    }
    forall r, i | 0 <= r < |segments| && segments[r].first < i <= segments[r].last
      ensures pcs[i - 1] < pcs[i] <= pcs[i - 1] + 4
    {
      GapInside(segments, pcs, r, i);
    }
  }

  lemma NearIsInside(segments: seq<Segment>, pcs: seq<nat>, startPc: nat, i: nat, r: nat)
    requires IsCut(segments, pcs, startPc, |pcs|) && 0 < i < |pcs|
    requires r < |segments| && segments[r].first <= i <= segments[r].last
    ensures Near(pcs, startPc, i) <==> segments[r].first < i
  {
  }

  lemma SameNearSameCut(segments: seq<Segment>, pcs: seq<nat>, startPc: nat)
    requires IsCut(segments, pcs, startPc, |pcs|)
    requires forall i | 0 < i < |pcs| :: Near(pcs, startPc, i) <==> Near(pcs, 0, i)
    ensures IsCut(segments, pcs, 0, |pcs|)
  {
    hide Near;
    forall r | 0 < r < |segments|
      ensures segments[r - 1].last + 1 == segments[r].first && !Near(pcs, 0, segments[r].first)
    {
      assert segments[r - 1].last + 1 == segments[r].first;
      assert !Near(pcs, startPc, segments[r].first);
    }
    forall r, i | 0 <= r < |segments| && segments[r].first < i <= segments[r].last ensures Near(pcs, 0, i) {
      assert segments[r].last < |pcs|;
      assert Near(pcs, startPc, i);
    }
  }

  /** A nonzero startPc changes the ranges, exactly if some neighbours are at most 4 and less than startPc apart, or
      more than 4 apart but between startPc and startPc + 4. */
  lemma ShiftAgreesExactly(segments: seq<Segment>, unshifted: seq<Segment>, pcs: seq<nat>, startPc: nat)
    requires Ascending(pcs)
    requires IsCut(segments, pcs, startPc, |pcs|) && IsCut(unshifted, pcs, 0, |pcs|)
    ensures segments == unshifted <==> forall i | 0 < i < |pcs| ::
              var gap := pcs[i] - pcs[i - 1];
              && !(gap <= 4 && gap < startPc)
              && !(gap > 4 && startPc <= gap <= startPc + 4)
  {
    forall i | 0 < i < |pcs|
      ensures (Near(pcs, startPc, i) <==> Near(pcs, 0, i)) <==>
              var gap := pcs[i] - pcs[i - 1];
              && !(gap <= 4 && gap < startPc)
              && !(gap > 4 && startPc <= gap <= startPc + 4)
    {
    }
    hide IsCut, Near;
    if segments == unshifted {
      forall i | 0 < i < |pcs| ensures Near(pcs, startPc, i) <==> Near(pcs, 0, i) {
        var r := EveryAddressCovered(segments, pcs, startPc, i);
        NearIsInside(segments, pcs, startPc, i, r);
        NearIsInside(unshifted, pcs, 0, i, r);
      }
    } else if forall i | 0 < i < |pcs| :: Near(pcs, startPc, i) <==> Near(pcs, 0, i) {
      SameNearSameCut(segments, pcs, startPc);
      CutIsUnique(segments, unshifted, pcs, 0);
    }
  }

  /** For other startPc the rule is another: two addresses make one range if and only if their distance is between
      startPc and startPc + 4, so addresses 4 apart fall into two ranges and addresses 104 apart into one. */
  lemma PairsWhenShifted(a: nat, b: nat, startPc: nat, segments: seq<Segment>)
    requires a < b <= UINT64_MAX && IsCut(segments, [a, b], startPc, 2)
    ensures |segments| == 1 <==> startPc <= b - a <= startPc + 4
  {
    if |segments| == 1 {
      assert Near([a, b], startPc, 1);
    } else {
      assert segments[0].last + 1 == segments[1].first;
      assert !Near([a, b], startPc, segments[1].first);
    }
  }
}

/** Reading instruction encodings from hexadecimal log text (ParseBinary, NormalizeBinary, FromEncoding). */
module BinaryText {
  import opened InstrBinaries
  import opened Splitting

  // ---------------------------------------------------------------------------------------
  // Digits
  // ---------------------------------------------------------------------------------------

  predicate IsHexChar(c: char) {
    '0' <= c <= '9' || 'a' <= c <= 'f' || 'A' <= c <= 'F'
  }

  predicate IsLowerHexChar(c: char) {
    '0' <= c <= '9' || 'a' <= c <= 'f'
  }

  function DigitOf(c: char): bv32 {
    match c
    case '1' => 1 case '2' => 2 case '3' => 3 case '4' => 4 case '5' => 5 case '6' => 6 case '7' => 7
    case '8' => 8 case '9' => 9 case 'a' => 10 case 'b' => 11 case 'c' => 12 case 'd' => 13 case 'e' => 14
    case 'f' => 15
    case _ => 0
  }

  function CharOf(d: bv32): char {
    if d == 0 then '0' else if d == 1 then '1' else if d == 2 then '2' else if d == 3 then '3'
    else if d == 4 then '4' else if d == 5 then '5' else if d == 6 then '6' else if d == 7 then '7'
    else if d == 8 then '8' else if d == 9 then '9' else if d == 10 then 'a' else if d == 11 then 'b'
    else if d == 12 then 'c' else if d == 13 then 'd' else if d == 14 then 'e' else 'f'
  }

  lemma DigitOfChar(d: bv32)
    requires d <= 15
    ensures DigitOf(CharOf(d)) == d && IsLowerHexChar(CharOf(d))
  {
  }

  lemma CharOfDigit(c: char)
    requires IsLowerHexChar(c)
    ensures CharOf(DigitOf(c)) == c && DigitOf(c) <= 15
  {
    assert c == '0' || c == '1' || c == '2' || c == '3' || c == '4' || c == '5' || c == '6' || c == '7' || c == '8'
        || c == '9' || c == 'a' || c == 'b' || c == 'c' || c == 'd' || c == 'e' || c == 'f';
  }

  /** The values of the digits, and what is a digit. */
  lemma DigitValues(c: char)
    ensures DigitOf('0') == 0 && DigitOf('1') == 1 && DigitOf('2') == 2 && DigitOf('3') == 3 && DigitOf('4') == 4
    ensures DigitOf('5') == 5 && DigitOf('6') == 6 && DigitOf('7') == 7 && DigitOf('8') == 8 && DigitOf('9') == 9
    ensures DigitOf('a') == 10 && DigitOf('b') == 11 && DigitOf('c') == 12 && DigitOf('d') == 13 && DigitOf('e') == 14
    ensures DigitOf('f') == 15
    ensures IsHexChar(c) <==> '0' <= c <= '9' || 'a' <= c <= 'f' || 'A' <= c <= 'F'
  {
  }

  function Or(v: bv32, w: bv32): bv32 {
    v | w
  }

  /** A digit moved to place k, `d << (k * 4)`. */
  function Shifted(d: bv32, k: nat): bv32
    requires k < 8
  {
    match k
    case 0 => d case 1 => d << 4 case 2 => d << 8 case 3 => d << 12
    case 4 => d << 16 case 5 => d << 20 case 6 => d << 24 case _ => d << 28
  }

  /** The digit at place k. */
  function Nibble(w: bv32, k: nat): bv32
    requires k < 8
  {
    match k
    case 0 => w & 15 case 1 => (w >> 4) & 15 case 2 => (w >> 8) & 15 case 3 => (w >> 12) & 15
    case 4 => (w >> 16) & 15 case 5 => (w >> 20) & 15 case 6 => (w >> 24) & 15 case _ => (w >> 28) & 15
  }

  /** Place k is bits 4k to 4k + 3. */
  lemma PlacesExactly(w: bv32)
    ensures Nibble(w, 0) == w & 0xf && Nibble(w, 1) == (w >> 4) & 0xf && Nibble(w, 2) == (w >> 8) & 0xf
    ensures Nibble(w, 3) == (w >> 12) & 0xf && Nibble(w, 4) == (w >> 16) & 0xf && Nibble(w, 5) == (w >> 20) & 0xf
    ensures Nibble(w, 6) == (w >> 24) & 0xf && Nibble(w, 7) == w >> 28
  {
  }

  lemma NibbleIsDigit(w: bv32, k: nat)
    requires k < 8
    ensures Nibble(w, k) <= 15
  {
  }

  lemma OrDistributes(v: bv32, w: bv32)
    ensures (v | w) & 15 == (v & 15) | (w & 15)
    ensures ((v | w) >> 4) & 15 == ((v >> 4) & 15) | ((w >> 4) & 15)
    ensures ((v | w) >> 8) & 15 == ((v >> 8) & 15) | ((w >> 8) & 15)
    ensures ((v | w) >> 12) & 15 == ((v >> 12) & 15) | ((w >> 12) & 15)
    ensures ((v | w) >> 16) & 15 == ((v >> 16) & 15) | ((w >> 16) & 15)
    ensures ((v | w) >> 20) & 15 == ((v >> 20) & 15) | ((w >> 20) & 15)
    ensures ((v | w) >> 24) & 15 == ((v >> 24) & 15) | ((w >> 24) & 15)
    ensures ((v | w) >> 28) & 15 == ((v >> 28) & 15) | ((w >> 28) & 15)
  {
  }

  lemma NibbleOfEither(v: bv32, w: bv32, k: nat)
    requires k < 8
    ensures Nibble(Or(v, w), k) == Or(Nibble(v, k), Nibble(w, k))
  {
    OrDistributes(v, w);
    if k == 0 {
    } else if k == 1 {
    } else if k == 2 {
    } else if k == 3 {
    } else if k == 4 {
    } else if k == 5 {
    } else if k == 6 {
    } else {
      assert k == 7;
    }
  }

  lemma NibbleOfShifted(d: bv32, m: nat, k: nat)
    requires m < 8 && k < 8 && d <= 15
    ensures Nibble(Shifted(d, m), k) == if k == m then d else 0
  {
  }

  lemma OrZero(d: bv32)
    ensures Or(d, 0) == d && Or(0, d) == d
  {
  }

  /** A word is its eight digits. */
  lemma NibblesDecide(v: bv32, w: bv32)
    requires forall k: nat | k < 8 :: Nibble(v, k) == Nibble(w, k)
    ensures v == w
  {
    assert Nibble(v, 0) == Nibble(w, 0) && Nibble(v, 1) == Nibble(w, 1) && Nibble(v, 2) == Nibble(w, 2)
        && Nibble(v, 3) == Nibble(w, 3) && Nibble(v, 4) == Nibble(w, 4) && Nibble(v, 5) == Nibble(w, 5)
        && Nibble(v, 6) == Nibble(w, 6) && Nibble(v, 7) == Nibble(w, 7);
    FromNibbles(v);
    FromNibbles(w);
  }

  lemma FromNibbles(w: bv32)
    ensures w == Nibble(w, 0) | (Nibble(w, 1) << 4) | (Nibble(w, 2) << 8) | (Nibble(w, 3) << 12)
               | (Nibble(w, 4) << 16) | (Nibble(w, 5) << 20) | (Nibble(w, 6) << 24) | (Nibble(w, 7) << 28)
  {
  }

  // ---------------------------------------------------------------------------------------
  // Words to text and back
  // ---------------------------------------------------------------------------------------

  /** The first m digits of word j, counted from the end of the text. */
  function Partial(hex: string, j: nat, m: nat): bv32
    requires m <= 8 && 8 * j + m <= |hex|
  {
    if m == 0 then 0
    else Or(Partial(hex, j, m - 1), Shifted(DigitOf(hex[|hex| - (8 * j + m)]), m - 1))
  }

  function WordAt(hex: string, j: nat): bv32 {
    if 8 * j + 8 <= |hex| then Partial(hex, j, 8) else 0
  }

  function WidthOf(length: nat): EncodingType {
    if length == 8 then BIT32 else if length == 16 then BIT64 else if length == 32 then BIT128 else INVALID
  }

  predicate AllHex(hex: string) {
    forall k | 0 <= k < |hex| :: IsHexChar(hex[k])
  }

  predicate AllLowerHex(hex: string) {
    forall k | 0 <= k < |hex| :: IsLowerHexChar(hex[k])
  }

  /** The encoding a normalized text stands for. */
  function Decode(hex: string): InstrBinary {
    if WidthOf(|hex|) == INVALID || !AllHex(hex) then NO_BINARY
    else InstrBinary(Words(WordAt(hex, 0), WordAt(hex, 1), WordAt(hex, 2), WordAt(hex, 3)), WidthOf(|hex|))
  }

  /** One word as eight digits, the highest first. */
  function WordHex(w: bv32): (s: string)
    ensures |s| == 8
  {
    [CharOf(Nibble(w, 7)), CharOf(Nibble(w, 6)), CharOf(Nibble(w, 5)), CharOf(Nibble(w, 4)),
     CharOf(Nibble(w, 3)), CharOf(Nibble(w, 2)), CharOf(Nibble(w, 1)), CharOf(Nibble(w, 0))]
  }

  /** An encoding as text, the highest word first. */
  function HexOf(b: InstrBinary): string {
    match b.bitType
    case INVALID => ""
    case BIT32 => WordHex(b.words.w0)
    case BIT64 => WordHex(b.words.w1) + WordHex(b.words.w0)
    case BIT128 => WordHex(b.words.w3) + WordHex(b.words.w2) + WordHex(b.words.w1) + WordHex(b.words.w0)
  }

  /** Unused words are zero, as in every encoding built by FromEncoding. */
  predicate Clean(b: InstrBinary) {
    && (b.bitType == INVALID ==> b == NO_BINARY)
    && (b.bitType == BIT32 ==> b.words.w1 == 0 && b.words.w2 == 0 && b.words.w3 == 0)
    && (b.bitType == BIT64 ==> b.words.w2 == 0 && b.words.w3 == 0)
  }

  lemma FromEncodingIsClean(low64: bv64, high64: bv64, bits: EncodingType)
    ensures Clean(FromEncoding(low64, high64, bits))
  {
  }

  lemma {:induction false} NibbleOfPartial(hex: string, j: nat, m: nat, k: nat)
    requires m <= 8 && 8 * j + m <= |hex| && k < 8 && AllLowerHex(hex)
    ensures Nibble(Partial(hex, j, m), k) == if k < m then DigitOf(hex[|hex| - 1 - (8 * j + k)]) else 0
  {
    if m == 0 {
      ZeroNibble(k);
    } else {
      hide Nibble, Shifted, DigitOf, Or;
      var d, front := DigitOf(hex[|hex| - (8 * j + m)]), Partial(hex, j, m - 1);
      NibbleOfPartial(hex, j, m - 1, k);
      CharOfDigit(hex[|hex| - (8 * j + m)]);
      NibbleOfEither(front, Shifted(d, m - 1), k);
      NibbleOfShifted(d, m - 1, k);
      OrZero(Nibble(front, k));
      OrZero(d);
    }
  }

  lemma ZeroNibble(k: nat)
    requires k < 8
    ensures Nibble(0, k) == 0
  {
  }

  /** Eight digits of the text, printed again. */
  lemma WordHexOfWordAt(hex: string, j: nat)
    requires 8 * j + 8 <= |hex| && AllLowerHex(hex)
    ensures WordHex(WordAt(hex, j)) == hex[|hex| - (8 * j + 8)..|hex| - 8 * j]
  {
    hide Nibble, Partial, DigitOf, CharOf;
    var s := hex[|hex| - (8 * j + 8)..|hex| - 8 * j];
    forall k: nat | k < 8 ensures CharOf(Nibble(WordAt(hex, j), k)) == s[7 - k] {
      NibbleOfPartial(hex, j, 8, k);
      CharOfDigit(hex[|hex| - 1 - (8 * j + k)]);
      assert s[7 - k] == hex[|hex| - 1 - (8 * j + k)];
    }
    EightChars(s, WordHex(WordAt(hex, j)));
  }

  lemma EightChars(s: string, t: string)
    requires |s| == 8 == |t|
    requires s[0] == t[0] && s[1] == t[1] && s[2] == t[2] && s[3] == t[3]
    requires s[4] == t[4] && s[5] == t[5] && s[6] == t[6] && s[7] == t[7]
    ensures s == t
  {
  }

  /** A word read from its own print. */
  lemma WordAtOfWordHex(hex: string, j: nat, w: bv32)
    requires 8 * j + 8 <= |hex| && AllLowerHex(hex)
    requires hex[|hex| - (8 * j + 8)..|hex| - 8 * j] == WordHex(w)
    ensures WordAt(hex, j) == w
  {
    hide Partial, DigitOf, CharOf, Nibble;
    forall k: nat | k < 8 ensures Nibble(WordAt(hex, j), k) == Nibble(w, k) {
      NibbleOfPartial(hex, j, 8, k);
      var i := |hex| - 1 - (8 * j + k);
      assert hex[i] == WordHex(w)[7 - k];
      WordHexAt(w, k);
      NibbleIsDigit(w, k);
      DigitOfChar(Nibble(w, k));
    }
    NibblesDecide(WordAt(hex, j), w);
  }

  lemma WordHexAt(w: bv32, k: nat)
    requires k < 8
    ensures WordHex(w)[7 - k] == CharOf(Nibble(w, k))
  {
    hide Nibble, CharOf;
  }

  lemma WordHexIsHex(w: bv32)
    ensures AllLowerHex(WordHex(w))
  {
    hide Nibble, CharOf;
    forall i | 0 <= i < 8 ensures IsLowerHexChar(WordHex(w)[i]) {
      WordHexAt(w, 7 - i);
      NibbleIsDigit(w, 7 - i);
      DigitOfChar(Nibble(w, 7 - i));
    }
  }

  lemma HexOfIsHex(b: InstrBinary)
    ensures AllLowerHex(HexOf(b)) && WidthOf(|HexOf(b)|) == b.bitType
  {
    hide WordHex, IsLowerHexChar;
    WordHexIsHex(b.words.w0);
    WordHexIsHex(b.words.w1);
    WordHexIsHex(b.words.w2);
    WordHexIsHex(b.words.w3);
  }

  /** Printing and reading back: nothing changes, at any width. */
  lemma DecodeOfHex(b: InstrBinary)
    requires Clean(b)
    ensures Decode(HexOf(b)) == b
  {
    hide WordHex, WordAt, AllLowerHex;
    HexOfIsHex(b);
    LowerIsHex(HexOf(b));
    var hex := HexOf(b);
    match b.bitType
    case INVALID =>
    case BIT32 =>
      assert hex[|hex| - 8..|hex|] == WordHex(b.words.w0);
      WordAtOfWordHex(hex, 0, b.words.w0);
      NoWordBeyond(hex, 1);
    case BIT64 =>
      assert hex[|hex| - 8..|hex|] == WordHex(b.words.w0);
      assert hex[|hex| - 16..|hex| - 8] == WordHex(b.words.w1);
      WordAtOfWordHex(hex, 0, b.words.w0);
      WordAtOfWordHex(hex, 1, b.words.w1);
      NoWordBeyond(hex, 2);
    case BIT128 =>
      FourWords(WordHex(b.words.w3), WordHex(b.words.w2), WordHex(b.words.w1), WordHex(b.words.w0));
      WordAtOfWordHex(hex, 0, b.words.w0);
      WordAtOfWordHex(hex, 1, b.words.w1);
      WordAtOfWordHex(hex, 2, b.words.w2);
      WordAtOfWordHex(hex, 3, b.words.w3);
  }

  lemma FourWords(a: string, b: string, c: string, d: string)
    requires |a| == |b| == |c| == |d| == 8
    ensures var s := a + b + c + d;
            && |s| == 32 && s[|s| - 8..|s|] == d && s[|s| - 16..|s| - 8] == c
            && s[|s| - 24..|s| - 16] == b && s[|s| - 32..|s| - 24] == a
  {
  }

  lemma NoWordBeyond(hex: string, j: nat)
    requires |hex| <= 8 * j
    ensures forall i: nat | j <= i :: WordAt(hex, i) == 0
  {
  }

  lemma LowerIsHex(hex: string)
    requires AllLowerHex(hex)
    ensures AllHex(hex)
  {
  }

  /** Reading and printing back: the text returns, so no digit is lost or moved. */
  lemma HexOfDecode(hex: string)
    requires AllLowerHex(hex) && WidthOf(|hex|) != INVALID
    ensures Decode(hex).bitType != INVALID && Clean(Decode(hex)) && HexOf(Decode(hex)) == hex
  {
    hide WordHex, WordAt, AllLowerHex, AllHex;
    LowerIsHex(hex);
    var n := |hex|;
    WordHexOfWordAt(hex, 0);
    if n == 8 {
      NoWordBeyond(hex, 1);
    } else if n == 16 {
      WordHexOfWordAt(hex, 1);
      NoWordBeyond(hex, 2);
      assert hex == hex[n - 16..n - 8] + hex[n - 8..n];
    } else {
      WordHexOfWordAt(hex, 1);
      WordHexOfWordAt(hex, 2);
      WordHexOfWordAt(hex, 3);
      FourParts(hex);
    }
  }

  /** Which digit goes where: digit i from the end is place i % 8 of word i / 8. */
  lemma DigitsExactly(hex: string, i: nat)
    requires AllLowerHex(hex) && (|hex| == 8 || |hex| == 16 || |hex| == 32) && i < |hex|
    ensures var b := Decode(hex);
            var w := if i < 8 then b.words.w0 else if i < 16 then b.words.w1
                     else if i < 24 then b.words.w2 else b.words.w3;
            && b.bitType == (if |hex| == 8 then BIT32 else if |hex| == 16 then BIT64 else BIT128)
            && Nibble(w, i % 8) == DigitOf(hex[|hex| - 1 - i])
  {
    hide Nibble, Partial, DigitOf, AllLowerHex, AllHex;
    LowerIsHex(hex);
    NibbleOfPartial(hex, i / 8, 8, i % 8);
  }

  lemma FourParts(s: string)
    requires |s| == 32
    ensures s == s[0..8] + s[8..16] + s[16..24] + s[24..32]
  {
  }

  // ---------------------------------------------------------------------------------------
  // Normalizing
  // ---------------------------------------------------------------------------------------

  /** What a stream takes for white space. */
  const BLANKS: set<char> := {' ', '\t', '\n', '\r', 11 as char, 12 as char}

  function Strip(part: string): string {
    if |part| >= 2 && part[0] == '0' && (part[1] == 'x' || part[1] == 'X') then part[2..] else part
  }

  /** The parts without prefixes, the last one first. */
  function Backwards(parts: seq<string>): string {
    if parts == [] then "" else Backwards(parts[1..]) + Strip(parts[0])
  }

  function ToLower(c: char): char {
    if 'A' <= c <= 'Z' then c - 'A' + 'a' else c
  }

  function Lower(s: string): (r: string)
    ensures |r| == |s| && forall k | 0 <= k < |s| :: r[k] == ToLower(s[k])
  {
    if s == "" then "" else [ToLower(s[0])] + Lower(s[1..])
  }

  function Normalized(raw: string): string {
    Lower(Backwards(Tokens(raw, BLANKS)))
  }

  method NormalizeBinary(rawBinary: string) returns (result: string)
    ensures result == Normalized(rawBinary)
  {
    hide *;
    var parts := Tokens(rawBinary, BLANKS);
    result := "";
    NothingBackwards(parts);
    var i := |parts|;
    while i > 0
      invariant 0 <= i <= |parts| && result == Backwards(parts[i..])
    {
      i := i - 1;
      OneMoreBackwards(parts, i);
      result := result + Strip(parts[i]);
    }
    NormalizedIs(rawBinary);
    assert parts[0..] == parts;
    result := Lower(result);
  }

  lemma NothingBackwards(parts: seq<string>)
    ensures Backwards(parts[|parts|..]) == ""
  {
  }

  lemma OneMoreBackwards(parts: seq<string>, i: nat)
    requires i < |parts|
    ensures Backwards(parts[i..]) == Backwards(parts[i + 1..]) + Strip(parts[i])
  {
    assert parts[i..][1..] == parts[i + 1..];
  }

  lemma NormalizedIs(raw: string)
    ensures Normalized(raw) == Lower(Backwards(Tokens(raw, BLANKS)))
  {
  }

  // ---------------------------------------------------------------------------------------
  // Parsing
  // ---------------------------------------------------------------------------------------

  /** The encoding a log text stands for. */
  function Reads(raw: string): InstrBinary {
    Decode(Normalized(raw))
  }

  /** Word j after the last i digits of the text. */
  function WordSoFar(hex: string, j: nat, i: nat): bv32
    requires i <= |hex|
  {
    if i <= 8 * j then 0 else Partial(hex, j, if i < 8 * j + 8 then i - 8 * j else 8)
  }

  predicate SoFar(hex: string, words: seq<bv32>, i: nat) {
    && i <= |hex| && |words| == 4
    && (forall j | 0 <= j < 4 :: words[j] == WordSoFar(hex, j, i))
    && (forall k | |hex| - i <= k < |hex| :: IsHexChar(hex[k]))
  }

  lemma NextDigit(hex: string, words: seq<bv32>, i: nat)
    requires SoFar(hex, words, i) && i < |hex| <= 32 && IsHexChar(hex[|hex| - 1 - i])
    ensures SoFar(hex, words[i / 8 := Or(words[i / 8], Shifted(DigitOf(hex[|hex| - 1 - i]), i % 8))], i + 1)
  {
    hide Or, Shifted, DigitOf, IsHexChar;
    var j, m := i / 8, i % 8;
    assert i == 8 * j + m;
    assert |hex| - (8 * j + (m + 1)) == |hex| - 1 - i;
    assert Partial(hex, j, m + 1) == Or(Partial(hex, j, m), Shifted(DigitOf(hex[|hex| - 1 - i]), m));
    assert WordSoFar(hex, j, i) == Partial(hex, j, m) && WordSoFar(hex, j, i + 1) == Partial(hex, j, m + 1);
    OtherWords(hex, i);
  }

  lemma OtherWords(hex: string, i: nat)
    requires i < |hex|
    ensures forall j: nat | j != i / 8 :: WordSoFar(hex, j, i + 1) == WordSoFar(hex, j, i)
  {
  }

  lemma AllDigits(hex: string, words: seq<bv32>)
    requires SoFar(hex, words, |hex|) && WidthOf(|hex|) != INVALID
    ensures |words| == 4
    ensures Decode(hex) == InstrBinary(Words(words[0], words[1], words[2], words[3]), WidthOf(|hex|))
  {
    hide IsHexChar, Partial;
  }

  lemma NotHex(hex: string, k: nat)
    requires k < |hex| && !IsHexChar(hex[k])
    ensures Decode(hex) == NO_BINARY
  {
  }

  method ParseBinary(rawBinary: string) returns (binary: InstrBinary)
    ensures binary == Reads(rawBinary)
  {
    hide WordSoFar, Decode, Normalized, IsHexChar, DigitOf, Shifted, Or;
    var hex := NormalizeBinary(rawBinary);
    var bitType := WidthOf(|hex|);
    if bitType == INVALID {
      NoWidth(hex);
      return NO_BINARY;
    }
    var words: seq<bv32> := [0, 0, 0, 0];
    assert SoFar(hex, words, 0) by { NoDigitsYet(hex); }
    hide SoFar;
    for i := 0 to |hex|
      invariant SoFar(hex, words, i) && |words| == 4
    {
      var c := hex[|hex| - 1 - i];
      if !IsHexChar(c) {
        NotHex(hex, |hex| - 1 - i);
        return NO_BINARY;
      }
      NextDigit(hex, words, i);
      words := words[i / 8 := Or(words[i / 8], Shifted(DigitOf(c), i % 8))];
    }
    AllDigits(hex, words);
    binary := InstrBinary(Words(words[0], words[1], words[2], words[3]), bitType);
  }

  lemma NoDigitsYet(hex: string)
    ensures forall j: nat :: WordSoFar(hex, j, 0) == 0
  {
  }

  lemma NoWidth(hex: string)
    requires WidthOf(|hex|) == INVALID
    ensures Decode(hex) == NO_BINARY
  {
  }

  // ---------------------------------------------------------------------------------------
  // What the text stands for
  // ---------------------------------------------------------------------------------------

  lemma LowerHex(s: string)
    ensures AllHex(Lower(s)) <==> AllLowerHex(Lower(s))
    ensures AllLowerHex(s) ==> Lower(s) == s
  {
    forall k | 0 <= k < |s| ensures IsHexChar(Lower(s)[k]) <==> IsLowerHexChar(Lower(s)[k]) {
      assert Lower(s)[k] == ToLower(s[k]);
    }
    if AllLowerHex(s) {
      assert forall k | 0 <= k < |s| :: Lower(s)[k] == s[k];
    }
  }

  /** A text is understood if and only if 8, 16 or 32 hexadecimal digits are left of it, and then no digit is
      lost: the encoding prints as exactly that text. */
  lemma UnderstoodExactly(raw: string)
    ensures Reads(raw).bitType != INVALID <==> |Normalized(raw)| in {8, 16, 32} && AllHex(Normalized(raw))
    ensures Reads(raw).bitType != INVALID ==> HexOf(Reads(raw)) == Normalized(raw) && Clean(Reads(raw))
  {
    hide HexOf, WordAt, Backwards, Tokens, Clean, AllHex, AllLowerHex;
    var hex := Normalized(raw);
    LowerHex(Backwards(Tokens(raw, BLANKS)));
    if WidthOf(|hex|) != INVALID && AllHex(hex) {
      HexOfDecode(hex);
    }
  }

  lemma {:induction false} BackwardsAppend(a: seq<string>, b: seq<string>)
    ensures Backwards(a + b) == Backwards(b) + Backwards(a)
  {
    if a == [] {
      assert a + b == b;
    } else {
      assert (a + b)[1..] == a[1..] + b;
      BackwardsAppend(a[1..], b);
    }
  }

  /** Any number of blanks, at either end or between tokens, is as good as one. */
  lemma {:induction false} BlanksDoNotMatter(a: string, blanks: string, b: string)
    requires blanks != ""
    requires forall k | 0 <= k < |blanks| ::
               blanks[k] in [' ', '\t', '\n', '\r', 11 as char, 12 as char]
    ensures Tokens(a + blanks + b, BLANKS) == Tokens(a, BLANKS) + Tokens(b, BLANKS)
    ensures Reads(a + blanks + b) == Reads(a + " " + b)
    decreases |blanks|
  {
    hide Tokens, Decode, Lower, Backwards;
    assert ' ' in BLANKS;
    Separates(a, ' ', b, BLANKS);
    var n := |blanks| - 1;
    if n == 0 {
      assert a + blanks + b == a + [blanks[0]] + b;
      Separates(a, blanks[0], b, BLANKS);
    } else {
      assert a + blanks + b == (a + blanks[..n]) + [blanks[n]] + b;
      Separates(a + blanks[..n], blanks[n], b, BLANKS);
      BlanksDoNotMatter(a, blanks[..n], "");
      assert a + blanks[..n] + "" == a + blanks[..n];
      NoTokens(BLANKS);
    }
  }

  /** Blank-free texts: only the prefix is dropped. */
  lemma NormalizedToken(s: string)
    requires Free(s, BLANKS)
    ensures Normalized(s) == Lower(Strip(s))
  {
    if s != "" {
      OneToken(s, BLANKS);
      var none: seq<string> := [];
      assert [s][1..] == none;
      assert Backwards(none) + Strip(s) == Strip(s);
    }
  }

  /** The prefix of a token, in either case, does not matter. */
  lemma PrefixDoesNotMatter(s: string)
    requires Free(s, BLANKS) && Strip(s) == s
    ensures Reads("0x" + s) == Reads(s) && Reads("0X" + s) == Reads(s)
  {
    hide Decode, Lower;
    NormalizedToken(s);
    forall x | x == 'x' || x == 'X' ensures Normalized(['0', x] + s) == Normalized(s) {
      assert (['0', x] + s)[2..] == s;
      NormalizedToken(['0', x] + s);
    }
    assert Normalized("0x" + s) == Normalized(s) && Normalized("0X" + s) == Normalized(s);
  }

  function ToUpper(c: char): char {
    if 'a' <= c <= 'z' then c - 'a' + 'A' else c
  }

  function Upper(s: string): (r: string)
    ensures |r| == |s| && forall k | 0 <= k < |s| :: r[k] == ToUpper(s[k])
  {
    if s == "" then "" else [ToUpper(s[0])] + Upper(s[1..])
  }

  function UpperAll(parts: seq<string>): (r: seq<string>)
    ensures |r| == |parts| && forall k | 0 <= k < |r| :: r[k] == Upper(parts[k])
  {
    if parts == [] then [] else [Upper(parts[0])] + UpperAll(parts[1..])
  }

  lemma UpperBlank(c: char)
    ensures ToUpper(c) in BLANKS <==> c in BLANKS
  {
  }

  lemma UpperRun(s: string)
    ensures Run(Upper(s), BLANKS) == Run(s, BLANKS)
  {
    hide ToUpper;
    var n := Run(s, BLANKS);
    forall k | 0 <= k < |s| ensures Upper(s)[k] in BLANKS <==> s[k] in BLANKS { UpperBlank(s[k]); }
    forall k | 0 <= k < n ensures Upper(s)[..n][k] !in BLANKS { assert s[..n][k] !in BLANKS; }
    RunIs(Upper(s), BLANKS, n);
  }

  lemma {:induction false} UpperTokens(s: string)
    ensures Tokens(Upper(s), BLANKS) == UpperAll(Tokens(s, BLANKS))
    decreases |s|
  {
    if s == "" {
      assert UpperAll([]) == [];
    } else {
      var u := Upper(s);
      UpperBlank(s[0]);
      assert u[0] == ToUpper(s[0]);
      hide *;
      if s[0] in BLANKS {
        SkipSeparator(s, BLANKS);
        SkipSeparator(u, BLANKS);
        UpperParts(s, 1);
        UpperTokens(s[1..]);
      } else {
        var n := Run(s, BLANKS);
        UpperRun(s);
        FirstToken(s, BLANKS);
        FirstToken(u, BLANKS);
        UpperParts(s, n);
        UpperTokens(s[n..]);
        UpperAllOf(s[..n], Tokens(s[n..], BLANKS));
      }
    }
  }

  lemma UpperParts(s: string, n: nat)
    requires n <= |s|
    ensures Upper(s)[..n] == Upper(s[..n]) && Upper(s)[n..] == Upper(s[n..])
  {
  }

  lemma UpperAllOf(first: string, others: seq<string>)
    ensures UpperAll([first] + others) == [Upper(first)] + UpperAll(others)
  {
    assert ([first] + others)[1..] == others;
  }

  lemma LowerOfUpper(s: string)
    ensures Lower(Upper(s)) == Lower(s)
  {
    forall k | 0 <= k < |s| ensures ToLower(ToUpper(s[k])) == ToLower(s[k]) {
    }
  }

  lemma LowerOf(a: string, b: string)
    ensures Lower(a + b) == Lower(a) + Lower(b)
  {
  }

  lemma StripOfUpper(part: string)
    ensures Strip(Upper(part)) == Upper(Strip(part))
  {
    if |part| >= 2 {
      assert Upper(part)[0] == ToUpper(part[0]) && Upper(part)[1] == ToUpper(part[1]);
      assert ToUpper(part[0]) == '0' <==> part[0] == '0';
      assert ToUpper(part[1]) == 'X' <==> part[1] == 'x' || part[1] == 'X';
      assert ToUpper(part[1]) != 'x';
    }
  }

  lemma {:induction false} LowerBackwardsUpper(parts: seq<string>)
    ensures Lower(Backwards(UpperAll(parts))) == Lower(Backwards(parts))
  {
    hide Lower, Strip, Upper;
    if parts != [] {
      var later := parts[1..];
      assert UpperAll(parts)[1..] == UpperAll(later);
      LowerBackwardsUpper(later);
      StripOfUpper(parts[0]);
      LowerOfUpper(Strip(parts[0]));
      LowerOf(Backwards(later), Strip(parts[0]));
      LowerOf(Backwards(UpperAll(later)), Upper(Strip(parts[0])));
    } else {
      assert UpperAll(parts) == [];
    }
  }

  lemma UpperReadsAlike(raw: string)
    ensures Reads(Upper(raw)) == Reads(raw)
  {
    hide Decode, Tokens, Backwards;
    UpperTokens(raw);
    LowerBackwardsUpper(Tokens(raw, BLANKS));
  }

  /** One letter, in either case. */
  predicate SameLetter(c: char, d: char) {
    c == d || ('a' <= c <= 'z' && d == c - 'a' + 'A') || ('A' <= c <= 'Z' && d == c - 'A' + 'a')
  }

  /** Texts that differ in the case of letters only, prefix letters included, read alike. */
  lemma CaseDoesNotMatter(a: string, b: string)
    requires |a| == |b| && forall k | 0 <= k < |a| :: SameLetter(a[k], b[k])
    ensures Reads(a) == Reads(b)
  {
    forall k | 0 <= k < |a| ensures Upper(a)[k] == Upper(b)[k] { SameUpper(a[k], b[k]); }
    hide Reads, ToUpper, SameLetter;
    assert Upper(a) == Upper(b);
    UpperReadsAlike(a);
    UpperReadsAlike(b);
  }

  lemma SameUpper(c: char, d: char)
    requires SameLetter(c, d)
    ensures ToUpper(c) == ToUpper(d)
  {
  }

  lemma HexIsBlankFree(s: string)
    requires AllLowerHex(s)
    ensures Free(s, BLANKS) && Strip(s) == s && Lower(s) == s
  {
    LowerHex(s);
    if |s| >= 2 { assert IsLowerHexChar(s[1]); }
    forall k | 0 <= k < |s| ensures s[k] !in BLANKS { assert IsLowerHexChar(s[k]); }
  }

  /** The hexadecimal text of any encoding reads as that encoding, at all three widths. */
  lemma ReadsWhatWasPrinted(low64: bv64, high64: bv64, bits: EncodingType)
    ensures var b := FromEncoding(low64, high64, bits);
            Reads(HexOf(b)) == b && Reads("0x" + HexOf(b)) == b
  {
    hide HexOf, Clean, Decode, Tokens, Lower, Strip, FromEncoding;
    var b := FromEncoding(low64, high64, bits);
    FromEncodingIsClean(low64, high64, bits);
    HexOfIsHex(b);
    HexIsBlankFree(HexOf(b));
    NormalizedToken(HexOf(b));
    PrefixDoesNotMatter(HexOf(b));
    DecodeOfHex(b);
  }

  /** Log lines split 128 bits into two tokens, the low half first. */
  lemma TwoTokens(low64: bv64, high64: bv64)
    ensures var low, high := FromEncoding(low64, 0, BIT64), FromEncoding(high64, 0, BIT64);
            Reads("0x" + HexOf(low) + " " + HexOf(high)) == FromEncoding(low64, high64, BIT128)
  {
    var low, high := FromEncoding(low64, 0, BIT64), FromEncoding(high64, 0, BIT64);
    var both := FromEncoding(low64, high64, BIT128);
    assert HexOf(both) == HexOf(high) + HexOf(low) by { HalvesMakeWhole(low64, high64); }
    FromEncodingIsClean(low64, high64, BIT128);
    hide HexOf, FromEncoding, Clean;
    HexOfIsHex(low);
    HexOfIsHex(high);
    HexOfIsHex(both);
    TwoTokensNormalized(HexOf(low), HexOf(high));
    DecodeOfHex(both);
  }

  lemma HalvesMakeWhole(low64: bv64, high64: bv64)
    ensures HexOf(FromEncoding(low64, high64, BIT128))
         == HexOf(FromEncoding(high64, 0, BIT64)) + HexOf(FromEncoding(low64, 0, BIT64))
  {
    hide WordHex, Low32, High32;
    var a, b := WordHex(High32(high64)), WordHex(Low32(high64));
    var c, d := WordHex(High32(low64)), WordHex(Low32(low64));
    assert (a + b) + (c + d) == a + b + c + d;
  }

  lemma TwoTokensNormalized(low: string, high: string)
    requires AllLowerHex(low) && AllLowerHex(high)
    ensures Normalized("0x" + low + " " + high) == high + low
  {
    hide IsLowerHexChar, Lower;
    HexIsBlankFree(low);
    HexIsBlankFree(high);
    var first := "0x" + low;
    assert first[2..] == low;
    assert Free(first, BLANKS) by { assert forall k | 2 <= k < |first| :: first[k] == low[k - 2]; }
    assert first + " " + high == first + [' '] + high;
    Separates(first, ' ', high, BLANKS);
    OneToken(first, BLANKS);
    BackwardsAppend(Tokens(first, BLANKS), Tokens(high, BLANKS));
    BackwardsOne(first);
    if high == "" { NoTokens(BLANKS); } else { OneToken(high, BLANKS); BackwardsOne(high); }
    LowerOf(high, low);
  }

  lemma BackwardsOne(part: string)
    ensures Backwards([part]) == Strip(part) && Backwards([]) == ""
  {
    var none: seq<string> := [];
    assert [part][1..] == none;
    assert Backwards(none) + Strip(part) == Strip(part);
  }
}

/** Decimal numbers and joined strings (std::to_string, Join in ustring.h). */
module Strings {

  // ---------------------------------------------------------------------------------------
  // Decimal numbers
  // ---------------------------------------------------------------------------------------

  predicate IsDigit(c: char) {
    '0' <= c <= '9'
  }

  function DigitChar(d: nat): (c: char)
    requires d < 10
    ensures IsDigit(c)
  {
    '0' + d as char
  }

  function Decimal(n: nat): (s: string)
    ensures s != "" && forall k | 0 <= k < |s| :: IsDigit(s[k])
  {
    if n < 10 then [DigitChar(n)] else Decimal(n / 10) + [DigitChar(n % 10)]
  }

  /** Signed numbers, as printed for ids of type int32_t. */
  function Signed(n: int): (s: string)
    ensures s != "" && forall k | 0 <= k < |s| :: IsDigit(s[k]) || s[k] == '-'
  {
    if n < 0 then "-" + Decimal(-n) else Decimal(n)
  }

  /** The number that a row of decimal digits stands for, the highest digit first. */
  function DecimalValue(s: string): nat
    requires forall k | 0 <= k < |s| :: IsDigit(s[k])
  {
    if s == "" then 0
    else
      assert IsDigit(s[|s| - 1]);
      10 * DecimalValue(s[..|s| - 1]) + (s[|s| - 1] - '0') as nat
  }

  /** A printed number stands for that number and has no leading zero. */
  lemma {:induction false} DecimalIsValue(n: nat)
    ensures DecimalValue(Decimal(n)) == n && (Decimal(n)[0] == '0' ==> n == 0)
  {
    var s := Decimal(n);
    if n < 10 {
      assert s[..0] == "";
    } else {
      DecimalIsValue(n / 10);
      assert s[..|s| - 1] == Decimal(n / 10);
    }
  }

  lemma {:induction false} DecimalInjective(a: nat, b: nat)
    requires Decimal(a) == Decimal(b)
    ensures a == b
    decreases a
  {
    var s, t := Decimal(a), Decimal(b);
    assert s[|s| - 1] == DigitChar(a % 10) && t[|t| - 1] == DigitChar(b % 10);
    assert a % 10 == b % 10;
    if a >= 10 && b >= 10 {
      assert s[..|s| - 1] == Decimal(a / 10) && t[..|t| - 1] == Decimal(b / 10);
      DecimalInjective(a / 10, b / 10);
    }
  }

  lemma SignedInjective(a: int, b: int)
    requires Signed(a) == Signed(b)
    ensures a == b
  {
    assert (Signed(a)[0] == '-') == (a < 0) && (Signed(b)[0] == '-') == (b < 0);
    if a < 0 && b < 0 {
      assert Signed(a)[1..] == Decimal(-a) && Signed(b)[1..] == Decimal(-b);
      DecimalInjective(-a, -b);
    } else if a >= 0 && b >= 0 {
      DecimalInjective(a, b);
    }
  }

  /** A text cut at the first occurrence of a separator is cut in one way only. */
  lemma CutAtFirst(a: string, b: string, c: string, d: string, sep: char)
    requires a + [sep] + b == c + [sep] + d && sep !in a && sep !in c
    ensures a == c && b == d
  {
    var s := a + [sep] + b;
    assert s[|a|] == sep && s[|c|] == sep;
    assert forall k | 0 <= k < |a| :: s[k] == a[k] && a[k] in a;
    assert forall k | 0 <= k < |c| :: s[k] == c[k] && c[k] in c;
    SameCut(a, b, c, d, sep);
  }

  lemma SameCut(a: string, b: string, c: string, d: string, sep: char)
    requires a + [sep] + b == c + [sep] + d && |a| == |c|
    ensures a == c && b == d
  {
    var s := a + [sep] + b;
    assert a == s[..|a|] && c == s[..|c|] && b == s[|a| + 1..] && d == s[|c| + 1..];
  }

  /** The same for the last occurrence. */
  lemma CutAtLast(a: string, b: string, c: string, d: string, sep: char)
    requires a + [sep] + b == c + [sep] + d && sep !in b && sep !in d
    ensures a == c && b == d
  {
    LastAt(a, b, sep);
    LastAt(c, d, sep);
    SameCut(a, b, c, d, sep);
  }

  lemma LastAt(a: string, b: string, sep: char)
    requires sep !in b
    ensures var s := a + [sep] + b;
            s[|a|] == sep && forall k | |a| < k < |s| :: s[k] != sep
  {
    var s := a + [sep] + b;
    forall k | |a| < k < |s| ensures s[k] != sep {
      assert s[k] == b[k - |a| - 1] && b[k - |a| - 1] in b;
    }
  }

  // ---------------------------------------------------------------------------------------
  // Join
  // ---------------------------------------------------------------------------------------

  /** The parts that are not empty, with `sep` between them. */
  function Joined(parts: seq<string>, sep: string): string {
    if parts == [] then ""
    else
      var front, last := Joined(parts[..|parts| - 1], sep), parts[|parts| - 1];
      if last == "" then front else if front == "" then last else front + sep + last
  }

  method Join(parts: seq<string>, sep: string) returns (ret: string)
    ensures ret == Joined(parts, sep)
  {
    ret := "";
    for k := 0 to |parts|
      invariant ret == Joined(parts[..k], sep)
    {
      assert parts[..k + 1][..k] == parts[..k];
      if parts[k] != "" {
        if ret != "" {
          ret := ret + sep;
        }
        ret := ret + parts[k];
      }
    }
    assert parts[..|parts|] == parts;
  }

  lemma JoinedSnoc(parts: seq<string>, last: string, sep: string)
    ensures var front := Joined(parts, sep);
            Joined(parts + [last], sep) ==
            if last == "" then front else if front == "" then last else front + sep + last
  {
    assert (parts + [last])[..|parts|] == parts;
  }
}

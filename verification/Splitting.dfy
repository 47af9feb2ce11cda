/** Texts cut into the maximal stretches free of separators. */
module Splitting {

  predicate Free(s: string, seps: set<char>) {
    forall k | 0 <= k < |s| :: s[k] !in seps
  }

  /** The number of leading characters that are not separators. */
  function Run(s: string, seps: set<char>): (n: nat)
    ensures n <= |s| && Free(s[..n], seps) && (n < |s| ==> s[n] in seps)
  {
    if s == "" || s[0] in seps then 0 else 1 + Run(s[1..], seps)
  }

  lemma RunIs(s: string, seps: set<char>, n: nat)
    requires n <= |s| && Free(s[..n], seps) && (n < |s| ==> s[n] in seps)
    ensures Run(s, seps) == n
  {
    var r := Run(s, seps);
    assert forall k | 0 <= k < n :: s[..n][k] == s[k];
    assert forall k | 0 <= k < r :: s[..r][k] == s[k];
  }

  function Tokens(s: string, seps: set<char>): (parts: seq<string>)
    ensures forall k | 0 <= k < |parts| :: Free(parts[k], seps) && parts[k] != ""
    decreases |s|
  {
    if s == "" then []
    else if s[0] in seps then Tokens(s[1..], seps)
    else [s[..Run(s, seps)]] + Tokens(s[Run(s, seps)..], seps)
  }

  lemma NoTokens(seps: set<char>)
    ensures Tokens("", seps) == []
  {
  }

  lemma FirstToken(s: string, seps: set<char>)
    requires s != "" && s[0] !in seps
    ensures Run(s, seps) > 0 && Tokens(s, seps) == [s[..Run(s, seps)]] + Tokens(s[Run(s, seps)..], seps)
  {
  }

  lemma SkipSeparator(s: string, seps: set<char>)
    requires s != "" && s[0] in seps
    ensures Tokens(s, seps) == Tokens(s[1..], seps)
  {
  }

  lemma OneToken(s: string, seps: set<char>)
    requires s != "" && Free(s, seps)
    ensures Tokens(s, seps) == [s]
  {
    assert s[..|s|] == s;
    RunIs(s, seps, |s|);
    FirstToken(s, seps);
    assert s[|s|..] == "";
  }

  lemma RunStops(a: string, sep: char, b: string, seps: set<char>)
    requires sep in seps && a != "" && a[0] !in seps
    ensures Run(a + [sep] + b, seps) == Run(a, seps) > 0
  {
    var s, n := a + [sep] + b, Run(a, seps);
    assert s[..n] == a[..n];
    assert n < |a| ==> s[n] == a[n];
    RunIs(s, seps, n);
  }

  /** A separator separates, whatever stands on its two sides. */
  lemma {:induction false} Separates(a: string, sep: char, b: string, seps: set<char>)
    requires sep in seps
    ensures Tokens(a + [sep] + b, seps) == Tokens(a, seps) + Tokens(b, seps)
    decreases |a|
  {
    var s := a + [sep] + b;
    if a == "" {
      assert s[1..] == b;
    } else if a[0] in seps {
      assert s[1..] == a[1..] + [sep] + b;
      Separates(a[1..], sep, b, seps);
    } else {
      hide Run, Free;
      var n := Run(a, seps);
      RunStops(a, sep, b, seps);
      assert s[..n] == a[..n] && s[n..] == a[n..] + [sep] + b;
      FirstToken(s, seps);
      FirstToken(a, seps);
      hide Tokens;
      Separates(a[n..], sep, b, seps);
      assert Tokens(s, seps) == [a[..n]] + (Tokens(a[n..], seps) + Tokens(b, seps));
    }
  }
}

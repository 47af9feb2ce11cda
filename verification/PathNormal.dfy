/** Lexical normalisation of paths (GetAbsolutePath in filesystem.cpp). */
module PathNormal {
  import opened Common
  import opened Splitting
  import opened Strings

  const SLASH: set<char> := {'/'}

  // ---------------------------------------------------------------------------------------
  // The reference: directories entered one after the other
  // ---------------------------------------------------------------------------------------

  /** One component: ".." leaves a directory, or stays at the root; "." stays. */
  function Enter(dirs: seq<string>, component: string): seq<string> {
    if component == ".." then if dirs == [] then dirs else dirs[..|dirs| - 1]
    else if component == "." then dirs
    else dirs + [component]
  }

  function EnterAll(dirs: seq<string>, components: seq<string>): seq<string>
    decreases |components|
  {
    if components == [] then dirs else EnterAll(Enter(dirs, components[0]), components[1..])
  }

  function Lexical(path: string): string {
    "/" + Joined(EnterAll([], Tokens(path, SLASH)), "/")
  }

  /** The path that is evaluated: the home directory for a leading '~', the working directory for relative paths. */
  function Anchored(path: string, home: Option<string>, cwd: Option<string>): Option<string> {
    if path != "" && path[0] == '~' && (home.None? || home.value == "") then None
    else
      var absPath := if path != "" && path[0] == '~' then home.value + path[1..] else path;
      if absPath != "" && absPath[0] == '/' then Some(absPath)
      else if cwd.None? then None
      else Some(Joined([cwd.value, absPath], "/"))
  }

  /** The whole operation; the empty text stands for failure. */
  function Normal(path: string, home: Option<string>, cwd: Option<string>): string {
    match Anchored(path, home, cwd)
    case None => ""
    case Some(absPath) => Lexical(absPath)
  }

  // ---------------------------------------------------------------------------------------
  // The code
  // ---------------------------------------------------------------------------------------

  /** The next place from `from` on whose character is, or is not, a slash; the length of the text if there is none. */
  function FindFirst(s: string, from: nat, slash: bool): (k: nat)
    requires from <= |s|
    ensures from <= k <= |s| && (k < |s| ==> (s[k] == '/') == slash)
    ensures forall i | from <= i < k :: (s[i] == '/') != slash
    decreases |s| - from
  {
    if from == |s| || (s[from] == '/') == slash then from else FindFirst(s, from + 1, slash)
  }

  lemma ComponentFound(s: string, slow: nat)
    requires slow < |s| && s[slow] != '/'
    ensures var fast := FindFirst(s, slow, true);
            slow < fast && Tokens(s[slow..], SLASH) == [s[slow..fast]] + Tokens(s[fast..], SLASH)
  {
    hide Tokens, Run, FindFirst;
    var fast := FindFirst(s, slow, true);
    var rest := s[slow..];
    assert rest[..fast - slow] == s[slow..fast];
    RunIs(rest, SLASH, fast - slow);
    FirstToken(rest, SLASH);
    assert rest[fast - slow..] == s[fast..];
  }

  lemma {:induction false} SlashesSkipped(s: string, from: nat)
    requires from <= |s|
    ensures Tokens(s[FindFirst(s, from, false)..], SLASH) == Tokens(s[from..], SLASH)
    decreases |s| - from
  {
    if from < |s| && s[from] == '/' {
      SkipSeparator(s[from..], SLASH);
      assert s[from..][1..] == s[from + 1..];
      hide Tokens;
      SlashesSkipped(s, from + 1);
    }
  }

  method GetAbsolutePath(path: string, home: Option<string>, cwd: Option<string>) returns (result: string)
    ensures result == Normal(path, home, cwd)
  {
    hide Tokens, EnterAll, Enter, FindFirst, Joined;
    var absPath := path;
    if path != "" && path[0] == '~' {
      if home.None? || home.value == "" {
        return "";
      }
      absPath := home.value + absPath[1..];
    }
    if !(absPath != "" && absPath[0] == '/') {
      if cwd.None? {
        return "";
      }
      absPath := Join([cwd.value, absPath], "/");
    }
    assert Anchored(path, home, cwd) == Some(absPath);
    result := Evaluate(absPath);
  }

  /** The scanning loop. */
  method Evaluate(absPath: string) returns (result: string)
    ensures result == Lexical(absPath)
  {
    hide Tokens, EnterAll, FindFirst, Joined;
    var dirs: seq<string> := [];
    var slow := FindFirst(absPath, 0, false);
    var fast := FindFirst(absPath, slow, true);
    SlashesSkipped(absPath, 0);
    assert absPath[0..] == absPath;
    while fast != slow
      invariant slow <= fast <= |absPath| && fast == FindFirst(absPath, slow, true)
      invariant slow < |absPath| ==> absPath[slow] != '/'
      invariant EnterAll(dirs, Tokens(absPath[slow..], SLASH)) == EnterAll([], Tokens(absPath, SLASH))
      decreases |absPath| - slow
    {
      ComponentFound(absPath, slow);
      var cur := absPath[slow..fast];
      EnterNext(dirs, cur, Tokens(absPath[fast..], SLASH));
      if cur == ".." {
        if dirs != [] {
          dirs := dirs[..|dirs| - 1];
        }
      } else if cur != "." {
        dirs := dirs + [cur];
      }
      SlashesSkipped(absPath, fast);
      slow := FindFirst(absPath, fast, false);
      fast := FindFirst(absPath, slow, true);
    }
    AllScanned(absPath, slow);
    EnterNone(dirs);
    var joined := Join(dirs, "/");
    result := "/" + joined;
  }

  lemma EnterNext(dirs: seq<string>, component: string, later: seq<string>)
    ensures EnterAll(dirs, [component] + later) == EnterAll(Enter(dirs, component), later)
  {
    assert ([component] + later)[1..] == later;
  }

  lemma EnterNone(dirs: seq<string>)
    ensures EnterAll(dirs, []) == dirs
  {
  }

  lemma AllScanned(s: string, slow: nat)
    requires slow <= |s| && FindFirst(s, slow, true) == slow && (slow < |s| ==> s[slow] != '/')
    ensures Tokens(s[slow..], SLASH) == []
  {
    assert slow == |s|;
  }

  // ---------------------------------------------------------------------------------------
  // What the result is like
  // ---------------------------------------------------------------------------------------

  predicate Plain(dirs: seq<string>) {
    forall k | 0 <= k < |dirs| :: Free(dirs[k], SLASH) && dirs[k] != "" && dirs[k] != "." && dirs[k] != ".."
  }

  lemma {:induction false} EnteredArePlain(dirs: seq<string>, components: seq<string>)
    requires Plain(dirs) && forall k | 0 <= k < |components| :: Free(components[k], SLASH) && components[k] != ""
    ensures Plain(EnterAll(dirs, components))
    decreases |components|
  {
    hide Free;
    if components != [] {
      EnteredArePlain(Enter(dirs, components[0]), components[1..]);
    }
  }

  lemma {:induction false} PlainEntersItself(dirs: seq<string>, more: seq<string>)
    requires Plain(more)
    ensures EnterAll(dirs, more) == dirs + more
    decreases |more|
  {
    hide Free;
    if more != [] {
      PlainEntersItself(Enter(dirs, more[0]), more[1..]);
      assert dirs + more == (dirs + [more[0]]) + more[1..];
    }
  }

  lemma PlainFromRoot(dirs: seq<string>)
    requires Plain(dirs)
    ensures EnterAll([], dirs) == dirs
  {
    PlainEntersItself([], dirs);
    assert [] + dirs == dirs;
  }

  /** Joined and split again: the components come back. */
  lemma {:induction false} TokensOfJoined(dirs: seq<string>)
    requires Plain(dirs)
    ensures Tokens(Joined(dirs, "/"), SLASH) == dirs
    ensures dirs != [] ==> Joined(dirs, "/") != ""
  {
    if dirs == [] {
      NoTokens(SLASH);
    } else {
      var front, last := dirs[..|dirs| - 1], dirs[|dirs| - 1];
      assert dirs == front + [last];
      JoinedSnoc(front, last, "/");
      hide Joined, Free, Tokens;
      assert Plain(front);
      TokensOfJoined(front);
      OneToken(last, SLASH);
      if Joined(front, "/") != "" {
        assert Joined(front, "/") + "/" + last == Joined(front, "/") + ['/'] + last;
        Separates(Joined(front, "/"), '/', last, SLASH);
      } else {
        NoTokens(SLASH);
      }
    }
  }

  lemma RootedTokens(dirs: seq<string>)
    requires Plain(dirs)
    ensures Tokens("/" + Joined(dirs, "/"), SLASH) == dirs
  {
    hide Joined, Free, Tokens;
    TokensOfJoined(dirs);
    var path := "/" + Joined(dirs, "/");
    SkipSeparator(path, SLASH);
    assert path[1..] == Joined(dirs, "/");
  }

  /** The directories of a normalised path. */
  function Dirs(path: string): (dirs: seq<string>)
    ensures Plain(dirs)
  {
    EnteredArePlain([], Tokens(path, SLASH));
    EnterAll([], Tokens(path, SLASH))
  }

  /** A result starts with a slash, its components are neither empty nor "." nor "..", single slashes separate them,
      and they are the directories reached by walking the path from the root. */
  lemma ResultIsCanonical(path: string)
    ensures Lexical(path)[0] == '/' && Plain(Tokens(Lexical(path), SLASH))
    ensures Tokens(Lexical(path), SLASH) == Dirs(path)
    ensures Lexical(path) == "/" + Joined(Tokens(Lexical(path), SLASH), "/")
  {
    hide Plain, Joined, EnterAll;
    RootedTokens(Dirs(path));
  }

  /** Normalising a result again changes nothing, whatever home and working directory are. */
  lemma Idempotent(path: string, home: Option<string>, cwd: Option<string>, home': Option<string>, cwd': Option<string>)
    requires Normal(path, home, cwd) != ""
    ensures Normal(Normal(path, home, cwd), home', cwd') == Normal(path, home, cwd)
  {
    hide Plain, Joined, Tokens, EnterAll;
    var absPath := Anchored(path, home, cwd).value;
    var result := Lexical(absPath);
    assert result[0] == '/';
    RootedTokens(Dirs(absPath));
    PlainFromRoot(Dirs(absPath));
    assert Anchored(result, home', cwd') == Some(result);
  }

  lemma {:induction false} EnterAppend(dirs: seq<string>, a: seq<string>, b: seq<string>)
    ensures EnterAll(dirs, a + b) == EnterAll(EnterAll(dirs, a), b)
    decreases |a|
  {
    hide Enter;
    if a == [] {
      assert a + b == b;
    } else {
      assert (a + b)[1..] == a[1..] + b;
      EnterAppend(Enter(dirs, a[0]), a[1..], b);
    }
  }

  /** A leading part may be normalised first: ".." of the rest then leaves directories of the result. */
  lemma PrefixFirst(a: string, b: string)
    ensures Lexical(a + "/" + b) == Lexical(Lexical(a) + "/" + b)
  {
    hide Plain, Joined, Tokens, EnterAll;
    assert a + "/" + b == a + ['/'] + b && Lexical(a) + "/" + b == Lexical(a) + ['/'] + b;
    Separates(a, '/', b, SLASH);
    Separates(Lexical(a), '/', b, SLASH);
    RootedTokens(Dirs(a));
    PlainFromRoot(Dirs(a));
    EnterAppend([], Tokens(a, SLASH), Tokens(b, SLASH));
    EnterAppend([], Dirs(a), Tokens(b, SLASH));
  }

  /** It fails exactly when the home or working directory it needs is missing. */
  lemma FailsExactly(path: string, home: Option<string>, cwd: Option<string>)
    ensures Normal(path, home, cwd) == "" <==>
            || (path != "" && path[0] == '~' && (home.None? || home.value == ""))
            || (cwd.None? && !(path != "" && path[0] == '/')
                && !(path != "" && path[0] == '~' && home.Some? && home.value != "" && home.value[0] == '/'))
  {
    hide Joined, EnterAll, Tokens;
  }

  // ---------------------------------------------------------------------------------------
  // What the components do
  // ---------------------------------------------------------------------------------------

  /** Neither empty nor "." nor "..", and without slashes. */
  predicate IsName(x: string) {
    x != "" && x != "." && x != ".." && forall k | 0 <= k < |x| :: x[k] != '/'
  }

  lemma OneComponent(x: string)
    requires x != "" && forall k | 0 <= k < |x| :: x[k] != '/'
    ensures Tokens(x, SLASH) == [x]
  {
    OneToken(x, SLASH);
  }

  lemma WalkOf(a: string, b: string)
    ensures Dirs(a + "/" + b) == EnterAll(Dirs(a), Tokens(b, SLASH))
    ensures Dirs("/" + b) == Dirs(b)
  {
    hide Plain, EnterAll, Tokens;
    assert a + "/" + b == a + ['/'] + b && "/" + b == "" + ['/'] + b;
    Separates(a, '/', b, SLASH);
    Separates("", '/', b, SLASH);
    NoTokens(SLASH);
    assert [] + Tokens(b, SLASH) == Tokens(b, SLASH);
    EnterAppend([], Tokens(a, SLASH), Tokens(b, SLASH));
  }

  lemma WalkIsLexical(a: string)
    ensures Lexical(a) == "/" + Joined(Dirs(a), "/") && Tokens(Lexical(a), SLASH) == Dirs(a)
  {
    hide Plain, Joined;
    RootedTokens(Dirs(a));
  }

  lemma OneEntered(dirs: seq<string>, x: string)
    ensures x == ".." ==> EnterAll(dirs, [x]) == if dirs == [] then dirs else dirs[..|dirs| - 1]
    ensures x == "." ==> EnterAll(dirs, [x]) == dirs
    ensures x != ".." && x != "." ==> EnterAll(dirs, [x]) == dirs + [x]
  {
    EnterNext(dirs, x, []);
    assert [x] + [] == [x];
    assert ".." != "." by { assert |".."| != |"."|; }
  }

  /** A name leads one directory further down. */
  lemma NameEnters(a: string, x: string)
    requires IsName(x)
    ensures Tokens(Lexical(a + "/" + x), SLASH) == Tokens(Lexical(a), SLASH) + [x]
  {
    OneComponent(x);
    hide *;
    WalkOf(a, x);
    WalkIsLexical(a);
    WalkIsLexical(a + "/" + x);
    assert x != ".." && x != "." by { NameIs(x); }
    OneEntered(Dirs(a), x);
  }

  lemma NameIs(x: string)
    requires IsName(x)
    ensures x != "" && x != "." && x != ".." && forall k | 0 <= k < |x| :: x[k] != '/'
  {
  }

  /** ".." takes back the last name, and nothing else. */
  lemma ParentLeaves(a: string, x: string)
    requires IsName(x)
    ensures Lexical(a + "/" + x + "/" + "..") == Lexical(a)
  {
    OneComponent("..");
    OneComponent(x);
    hide *;
    NameIs(x);
    WalkOf(a, x);
    WalkOf(a + "/" + x, "..");
    OneEntered(Dirs(a), x);
    OneEntered(Dirs(a) + [x], "..");
    assert (Dirs(a) + [x])[..|Dirs(a) + [x]| - 1] == Dirs(a);
    WalkIsLexical(a);
    WalkIsLexical(a + "/" + x + "/" + "..");
  }

  /** At the root ".." stays there. */
  lemma ParentOfRoot(b: string)
    ensures Lexical("/" + ".." + "/" + b) == Lexical("/" + b)
  {
    OneComponent("..");
    RootIs();
    hide *;
    WalkOf("/" + "..", b);
    WalkOf("", "..");
    WalkOf("", b);
    OneEntered([], "..");
    WalkIsLexical("/" + ".." + "/" + b);
    WalkIsLexical("/" + b);
    assert "" + "/" + ".." == "/" + ".." && "" + "/" + b == "/" + b;
  }

  lemma RootIs()
    ensures Dirs("") == [] && Lexical("") == "/"
  {
    NoTokens(SLASH);
  }

  /** "." and additional slashes change nothing. */
  lemma SelfStays(a: string)
    ensures Lexical(a + "/" + ".") == Lexical(a) && Lexical(a + "/") == Lexical(a) && Lexical("/" + a) == Lexical(a)
  {
    OneComponent(".");
    NoTokens(SLASH);
    hide *;
    WalkOf(a, ".");
    WalkOf(a, "");
    assert a + "/" + "" == a + "/";
    OneEntered(Dirs(a), ".");
    EnterNone(Dirs(a));
    WalkIsLexical(a);
    WalkIsLexical(a + "/" + ".");
    WalkIsLexical(a + "/");
    WalkOf("", a);
    WalkIsLexical("/" + a);
  }

  /** Two parts joined by JoinPath walk like the two with a slash between them, empty or not. */
  lemma JoinedWalks(dir: string, path: string)
    ensures Lexical(Joined([dir, path], "/")) == Lexical(dir + "/" + path)
  {
    JoinedTwo(dir, path);
    hide *;
    SelfStays(dir);
    SelfStays(path);
    if path == "" {
      assert dir + "/" + path == dir + "/";
    } else if dir == "" {
      assert dir + "/" + path == "/" + path;
    }
  }

  lemma JoinedTwo(a: string, b: string)
    ensures Joined([a, b], "/") == if b == "" then a else if a == "" then b else a + "/" + b
  {
    hide Joined;
    var none: seq<string> := [];
    assert none + [a] == [a] && [a] + [b] == [a, b];
    JoinedSnoc(none, a, "/");
    JoinedSnoc([a], b, "/");
    JoinedOfNone();
  }

  lemma JoinedOfNone()
    ensures Joined([], "/") == ""
  {
  }

  /** Where a path starts: at the root, in the home directory, or in the working directory. */
  lemma NormalExactly(path: string, home: Option<string>, cwd: Option<string>)
    ensures path != "" && path[0] == '/' ==> Normal(path, home, cwd) == Lexical(path)
    ensures (path == "" || (path[0] != '/' && path[0] != '~')) && cwd.Some? ==>
              Normal(path, home, cwd) == Lexical(cwd.value + "/" + path)
    ensures path != "" && path[0] == '~' && home.Some? && home.value != "" && home.value[0] == '/' ==>
              Normal(path, home, cwd) == Lexical(home.value + path[1..])
    ensures path != "" && path[0] == '~' && home.Some? && home.value != "" && home.value[0] != '/' && cwd.Some? ==>
              Normal(path, home, cwd) == Lexical(cwd.value + "/" + (home.value + path[1..]))
  {
    hide Lexical, Joined;
    if cwd.Some? {
      JoinedWalks(cwd.value, path);
      if path != "" && home.Some? { JoinedWalks(cwd.value, home.value + path[1..]); }
    }
  }

  /** A name under a working directory. */
  lemma RelativeName(x: string, home: Option<string>, dir: string)
    requires IsName(x) && x[0] != '~'
    ensures Tokens(Normal(x, home, Some(dir)), SLASH) == Tokens(Lexical(dir), SLASH) + [x]
  {
    hide Lexical, Normal;
    NormalExactly(x, home, Some(dir));
    NameEnters(dir, x);
  }
}

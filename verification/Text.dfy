/** Option and Result, and the few string operations of Rust's standard library
    that the modelled code calls: `rfind`, `split`, `trim`, `starts_with`,
    `ends_with` and code-point comparison. */
module Text {

  datatype Option<+T> = None | Some(value: T) {
    function GetOr(default: T): T {
      if Some? then value else default
    }
  }

  datatype Result<+T, +E> = Ok(value: T) | Err(error: E)

  /** Position of the last `c` in `s`, as `str::rfind`. */
  function RFind(s: string, c: char): (r: Option<nat>)
    ensures r.None? <==> c !in s
    ensures r.Some? ==> r.value < |s| && s[r.value] == c && c !in s[r.value + 1..]
  {
    if s == [] then None
    else if s[|s| - 1] == c then Some(|s| - 1)
    else
      assert s == s[..|s| - 1] + [s[|s| - 1]];
      RFind(s[..|s| - 1], c)
  }

  /** The last `c` is where the text after it has none. */
  lemma RFindAt(s: string, c: char, k: nat)
    requires k < |s| && s[k] == c && c !in s[k + 1..]
    ensures RFind(s, c) == Some(k)
  {
    var r := RFind(s, c).value;
    assert forall m | k < m < |s| :: s[m] == s[k + 1..][m - k - 1];
    assert forall m | r < m < |s| :: s[m] == s[r + 1..][m - r - 1];
  }

  /** `str::split` on a character: always at least one piece. */
  function Split(s: string, c: char): (pieces: seq<string>)
    ensures |pieces| >= 1
    decreases |s|
  {
    match RFind(s, c)
    case None => [s]
    case Some(k) => Split(s[..k], c) + [s[k + 1..]]
  }

  /** Appending `c` and a piece without `c` appends exactly that piece. */
  lemma SplitAppend(s: string, c: char, piece: string)
    requires c !in piece
    ensures Split(s + [c] + piece, c) == Split(s, c) + [piece]
  {
    var t := s + [c] + piece;
    assert t[|s| + 1..] == piece;
    RFindAt(t, c, |s|);
    assert t[..|s|] == s;
  }

  lemma SplitWhole(s: string, c: char)
    requires c !in s
    ensures Split(s, c) == [s]
  {
  }

  /** The characters with the Unicode property White_Space, which `str::trim` removes. */
  predicate IsWhite(c: char) {
    || '\U{9}' <= c <= '\U{D}' || c == ' ' || c == '\U{85}' || c == '\U{A0}'
    || c == '\U{1680}' || '\U{2000}' <= c <= '\U{200A}' || c == '\U{2028}'
    || c == '\U{2029}' || c == '\U{202F}' || c == '\U{205F}' || c == '\U{3000}'
  }

  /** The twenty-five of them, one by one. */
  lemma WhiteCharacters(c: char)
    ensures IsWhite(c) <==>
            || c in "\t\n\U{B}\U{C}\r \U{85}\U{A0}\U{1680}\U{2028}\U{2029}\U{202F}\U{205F}\U{3000}"
            || c in "\U{2000}\U{2001}\U{2002}\U{2003}\U{2004}\U{2005}\U{2006}\U{2007}\U{2008}\U{2009}\U{200A}"
  {
  }

  predicate Blank(s: string) {
    forall k | 0 <= k < |s| :: IsWhite(s[k])
  }

  function TrimStart(s: string): string {
    if s != [] && IsWhite(s[0]) then TrimStart(s[1..]) else s
  }

  function TrimEnd(s: string): string {
    if s != [] && IsWhite(s[|s| - 1]) then TrimEnd(s[..|s| - 1]) else s
  }

  /** `str::trim`. */
  function Trim(s: string): string {
    TrimEnd(TrimStart(s))
  }

  /** Trimming removes blank text at both ends and nothing else. */
  lemma TrimSplits(s: string) returns (before: string, after: string)
    ensures s == before + Trim(s) + after
    ensures Blank(before) && Blank(after)
    ensures Trim(s) != [] ==> !IsWhite(Trim(s)[0]) && !IsWhite(Trim(s)[|Trim(s)| - 1])
  {
    before := TrimStartSplits(s);
    after := TrimEndSplits(TrimStart(s));
  }

  lemma TrimStartSplits(s: string) returns (before: string)
    ensures s == before + TrimStart(s)
    ensures Blank(before)
    ensures TrimStart(s) != [] ==> !IsWhite(TrimStart(s)[0])
  {
    if s != [] && IsWhite(s[0]) {
      var rest := TrimStartSplits(s[1..]);
      before := [s[0]] + rest;
    } else {
      before := [];
    }
  }

  lemma TrimEndSplits(s: string) returns (after: string)
    ensures s == TrimEnd(s) + after
    ensures Blank(after)
    ensures TrimEnd(s) != [] ==> !IsWhite(TrimEnd(s)[|TrimEnd(s)| - 1])
    ensures TrimEnd(s) != [] ==> TrimEnd(s)[0] == s[0]
  {
    if s != [] && IsWhite(s[|s| - 1]) {
      var rest := TrimEndSplits(s[..|s| - 1]);
      after := rest + [s[|s| - 1]];
    } else {
      after := [];
    }
  }

  /** Trimming yields the empty string exactly for blank text. */
  lemma TrimBlank(s: string)
    ensures Trim(s) == [] <==> Blank(s)
  {
    var before, after := TrimSplits(s);
    if Trim(s) != [] {
      assert s[|before|] == Trim(s)[0];
    }
  }

  lemma TrimStartSkips(before: string, s: string)
    requires Blank(before)
    ensures TrimStart(before + s) == TrimStart(s)
  {
    if before == [] {
      assert before + s == s;
    } else {
      assert (before + s)[1..] == before[1..] + s;
      TrimStartSkips(before[1..], s);
    }
  }

  lemma TrimEndSkips(s: string, after: string)
    requires Blank(after)
    ensures TrimEnd(s + after) == TrimEnd(s)
  {
    if after == [] {
      assert s + after == s;
    } else {
      var n := |after| - 1;
      assert (s + after)[..|s| + n] == s + after[..n];
      TrimEndSkips(s, after[..n]);
    }
  }

  lemma TrimStartKeepsTail(s: string, after: string)
    requires TrimStart(s) != []
    ensures TrimStart(s + after) == TrimStart(s) + after
  {
    if s != [] && IsWhite(s[0]) {
      assert (s + after)[1..] == s[1..] + after;
      TrimStartKeepsTail(s[1..], after);
    }
  }

  /** Surrounding white space never changes the trimmed text. */
  lemma TrimSurrounded(before: string, s: string, after: string)
    requires Blank(before) && Blank(after)
    ensures Trim(before + s + after) == Trim(s)
  {
    assert before + s + after == before + (s + after);
    TrimStartSkips(before, s + after);
    if TrimStart(s) == [] {
      var b := TrimStartSplits(s);
      assert s + after == b + after + [];
      assert Blank(s + after);
      TrimStartSkips(s + after, []);
      assert s + after + [] == s + after;
    } else {
      TrimStartKeepsTail(s, after);
      TrimEndSkips(TrimStart(s), after);
    }
  }

  /** Plain ASCII text is not white space: trimming it off space, tabs and line ends leaves it. */
  lemma TrimAscii(before: string, s: string, after: string)
    requires forall k | 0 <= k < |before| :: before[k] in " \t\r\n"
    requires forall k | 0 <= k < |after| :: after[k] in " \t\r\n"
    requires s != [] ==> '!' <= s[0] <= '~' && '!' <= s[|s| - 1] <= '~'
    ensures Trim(before + s + after) == s
  {
    TrimSurrounded(before, s, after);
  }

  predicate StartsWith(s: string, prefix: string) {
    |prefix| <= |s| && s[..|prefix|] == prefix
  }

  predicate EndsWith(s: string, suffix: string) {
    |suffix| <= |s| && s[|s| - |suffix|..] == suffix
  }

  /** `str::trim_end_matches` with a non-empty pattern: strips it as often as it ends the text. */
  function TrimEndMatches(s: string, suffix: string): string
    requires suffix != []
    decreases |s|
  {
    if EndsWith(s, suffix) then TrimEndMatches(s[..|s| - |suffix|], suffix) else s
  }

  /** The last ending is stripped from text that has one, and nothing from other text. */
  lemma TrimEndMatchesOnce(s: string, suffix: string)
    requires suffix != [] && (|s| < |suffix| || s[|s| - |suffix|..] != suffix)
    ensures TrimEndMatches(s, suffix) == s && TrimEndMatches(s + suffix, suffix) == s
  {
    assert (s + suffix)[|s|..] == suffix && (s + suffix)[..|s|] == s;
  }

  /** Joining path components with `/`. */
  function JoinPath(parts: seq<string>): string {
    if parts == [] then []
    else if |parts| == 1 then parts[0]
    else JoinPath(parts[..|parts| - 1]) + "/" + parts[|parts| - 1]
  }

  /** A path component: not empty, without the separator or a backslash. */
  predicate IsComponent(name: string) {
    name != [] && '/' !in name && '\\' !in name
  }

  predicate AreComponents(parts: seq<string>) {
    forall k | 0 <= k < |parts| :: IsComponent(parts[k])
  }

  /** Distinct component lists spell distinct paths. */
  lemma {:induction false} JoinPathInjective(a: seq<string>, b: seq<string>)
    requires AreComponents(a) && AreComponents(b)
    requires JoinPath(a) == JoinPath(b)
    ensures a == b
    decreases |a|
  {
    JoinPathSplit(a);
    JoinPathSplit(b);
    if a != [] && b != [] {
      assert Split(JoinPath(a), '/') == a;
    } else if a != [] {
      JoinPathNotEmpty(a);
    } else if b != [] {
      JoinPathNotEmpty(b);
    }
  }

  lemma {:induction false} JoinPathNotEmpty(parts: seq<string>)
    requires AreComponents(parts) && parts != []
    ensures JoinPath(parts) != []
  {
    if |parts| <= 1 {
    } else {
      JoinPathNotEmpty(parts[..|parts| - 1]);
    }
  }

  lemma {:induction false} JoinPathSplit(parts: seq<string>)
    requires AreComponents(parts)
    ensures parts != [] ==> Split(JoinPath(parts), '/') == parts
  {
    hide Split;
    if |parts| == 0 {
    } else if |parts| == 1 {
      SplitWhole(parts[0], '/');
    } else {
      var init := parts[..|parts| - 1];
      JoinPathSplit(init);
      SplitAppend(JoinPath(init), '/', parts[|parts| - 1]);
      assert JoinPath(parts) == JoinPath(init) + ['/'] + parts[|parts| - 1];
      assert init + [parts[|parts| - 1]] == parts;
    }
  }

  /** Every backslash becomes a slash. */
  function ForwardSlashes(s: string): (t: string)
    ensures |t| == |s| && forall k | 0 <= k < |s| :: t[k] == if s[k] == '\\' then '/' else s[k]
  {
    if s == [] then [] else [if s[0] == '\\' then '/' else s[0]] + ForwardSlashes(s[1..])
  }

  /** A path below a root, as text with forward slashes. */
  function LogicalPath(path: seq<string>): string {
    ForwardSlashes(JoinPath(path))
  }

  lemma LogicalPathOfComponents(path: seq<string>)
    requires AreComponents(path)
    ensures LogicalPath(path) == JoinPath(path)
  {
    NoBackslash(path);
  }

  lemma {:induction false} NoBackslash(path: seq<string>)
    requires AreComponents(path)
    ensures '\\' !in JoinPath(path)
  {
    if |path| <= 1 {
    } else {
      NoBackslash(path[..|path| - 1]);
    }
  }

  /** Code-point order on strings, which is the byte order Rust compares UTF-8 text by. */
  predicate TextLess(a: string, b: string) {
    b != [] && (a == [] || a[0] < b[0] || (a[0] == b[0] && TextLess(a[1..], b[1..])))
  }

  /** Either a is a proper beginning of b, or the first place where they differ decides. */
  lemma {:induction false} TextLessIs(a: string, b: string)
    ensures TextLess(a, b) <==>
            exists k | 0 <= k <= |a| && k < |b| :: a[..k] == b[..k] && (k == |a| || a[k] < b[k])
  {
    if a != [] && b != [] && a[0] == b[0] {
      var a', b' := a[1..], b[1..];
      TextLessIs(a', b');
      if TextLess(a', b') {
        var k :| 0 <= k <= |a'| && k < |b'| && a'[..k] == b'[..k] && (k == |a'| || a'[k] < b'[k]);
        assert a[..k + 1] == [a[0]] + a'[..k] && b[..k + 1] == [b[0]] + b'[..k];
      }
      forall k | 0 <= k <= |a| && k < |b| && a[..k] == b[..k] && (k == |a| || a[k] < b[k])
        ensures TextLess(a', b')
      {
        assert k > 0;
        assert a'[..k - 1] == a[..k][1..] && b'[..k - 1] == b[..k][1..];
      }
    } else if a != [] && b != [] {
      forall k | 0 <= k <= |a| && k < |b| && a[..k] == b[..k] ensures k == 0 {
      }
      assert a[..0] == b[..0];
    } else if b != [] {
      assert a[..0] == b[..0];
    }
  }

  lemma TextLessIrreflexive(a: string)
    ensures !TextLess(a, a)
  {
  }

  lemma TextLessTotal(a: string, b: string)
    ensures a == b || TextLess(a, b) || TextLess(b, a)
  {
    if a != [] && b != [] && a[0] == b[0] {
      TextLessTotal(a[1..], b[1..]);
      if a[1..] == b[1..] {
        assert a == [a[0]] + a[1..] == [b[0]] + b[1..] == b;
      }
    }
  }

  lemma {:induction false} TextLessTransitive(a: string, b: string, c: string)
    requires TextLess(a, b) && TextLess(b, c)
    ensures TextLess(a, c)
  {
    if a != [] && a[0] == b[0] == c[0] {
      TextLessTransitive(a[1..], b[1..], c[1..]);
    }
  }
}

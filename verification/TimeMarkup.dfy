/** The `<time>` element of the `datetime` template helper and its escaping, with a
    reader for both (character references as in section 13.1.4 of the WHATWG HTML
    standard). */
module TimeMarkup {
  import opened Text

  function AttrReference(c: char): string {
    match c
    case '&' => "&amp;"
    case '<' => "&lt;"
    case '>' => "&gt;"
    case '"' => "&quot;"
    case '\'' => "&#39;"
    case _ => [c]
  }

  function TextReference(c: char): string {
    match c
    case '&' => "&amp;"
    case '<' => "&lt;"
    case '>' => "&gt;"
    case _ => [c]
  }

  /** How a character is written in an attribute value or in text. */
  function Reference(attr: bool, c: char): string {
    if attr then AttrReference(c) else TextReference(c)
  }

  function Escaped(attr: bool, s: string): string {
    if s == [] then [] else Reference(attr, s[0]) + Escaped(attr, s[1..])
  }

  /** No character of the text means anything in markup. */
  predicate IsPlain(s: string) {
    forall k | 0 <= k < |s| :: s[k] != '&' && s[k] != '<' && s[k] != '>' && s[k] != '"' && s[k] != '\''
  }

  /** Plain text is written as it is. */
  lemma {:induction false} PlainStays(s: string)
    requires IsPlain(s)
    ensures Escaped(true, s) == s && Escaped(false, s) == s
  {
    if s == [] {
    } else {
      PlainStays(s[1..]);
      assert s == [s[0]] + s[1..];
    }
  }

  lemma {:induction false} EscapedAround(attr: bool, before: string, c: char, after: string)
    ensures Escaped(attr, before + [c] + after) == Escaped(attr, before) + Reference(attr, c) + Escaped(attr, after)
  {
    hide Reference;
    var s := before + [c] + after;
    if before == [] {
      assert s[1..] == after && s[0] == c;
    } else {
      assert s[1..] == before[1..] + [c] + after && s[0] == before[0];
      EscapedAround(attr, before[1..], c, after);
    }
  }

  /** What is written for the other five, wherever they stand; in text, quotes stay. */
  lemma {:induction false} MarkupIsWritten(attr: bool, before: string, after: string)
    ensures var a, b := Escaped(attr, before), Escaped(attr, after);
            && Escaped(attr, before + "&" + after) == a + "&amp;" + b
            && Escaped(attr, before + "<" + after) == a + "&lt;" + b
            && Escaped(attr, before + ">" + after) == a + "&gt;" + b
            && Escaped(attr, before + "\"" + after) == a + (if attr then "&quot;" else "\"") + b
            && Escaped(attr, before + "'" + after) == a + (if attr then "&#39;" else "'") + b
  {
    hide Escaped;
    EscapedAround(attr, before, '&', after);
    EscapedAround(attr, before, '<', after);
    EscapedAround(attr, before, '>', after);
    EscapedAround(attr, before, '"', after);
    EscapedAround(attr, before, '\'', after);
  }

  method EscapeAttr(s: string) returns (out: string)
    ensures out == Escaped(true, s)
    ensures '"' !in out && '\'' !in out && '<' !in out && '>' !in out
    ensures Unescape(out) == s
  {
    hide AttrReference, Unescape;
    out := "";
    for i := 0 to |s|
      invariant out + Escaped(true, s[i..]) == Escaped(true, s)
    {
      out := out + AttrReference(s[i]);
    }
    AttrHasNoMarkup(s);
    UnescapeWhole(true, s);
  }

  method EscapeText(s: string) returns (out: string)
    ensures out == Escaped(false, s)
    ensures '<' !in out && '>' !in out
    ensures Unescape(out) == s
  {
    hide TextReference, Unescape;
    out := "";
    for i := 0 to |s|
      invariant out + Escaped(false, s[i..]) == Escaped(false, s)
    {
      out := out + TextReference(s[i]);
    }
    TextHasNoMarkup(s);
    UnescapeWhole(false, s);
  }

  /** Replaces character references; an ampersand that starts none stands for itself. */
  function Unescape(s: string): string {
    if s == [] then []
    else if StartsWith(s, "&amp;") then "&" + Unescape(s[5..])
    else if StartsWith(s, "&lt;") then "<" + Unescape(s[4..])
    else if StartsWith(s, "&gt;") then ">" + Unescape(s[4..])
    else if StartsWith(s, "&quot;") then "\"" + Unescape(s[6..])
    else if StartsWith(s, "&#39;") then "'" + Unescape(s[5..])
    else [s[0]] + Unescape(s[1..])
  }

  lemma UnescapeAmp(rest: string)
    ensures Unescape("&amp;" + rest) == "&" + Unescape(rest)
  {
    assert ("&amp;" + rest)[..5] == "&amp;" && ("&amp;" + rest)[5..] == rest;
  }

  /** The second or third character tells the references apart. */
  lemma NotStart(s: string, prefix: string, k: nat)
    requires k < |prefix| && k < |s| && s[k] != prefix[k]
    ensures !StartsWith(s, prefix)
  {
  }

  lemma UnescapeLt(rest: string)
    ensures Unescape("&lt;" + rest) == "<" + Unescape(rest)
  {
    var s := "&lt;" + rest;
    NotStart(s, "&amp;", 1);
    assert s[..4] == "&lt;" && s[4..] == rest;
  }

  lemma UnescapeGt(rest: string)
    ensures Unescape("&gt;" + rest) == ">" + Unescape(rest)
  {
    var s := "&gt;" + rest;
    NotStart(s, "&amp;", 1);
    NotStart(s, "&lt;", 1);
    assert s[..4] == "&gt;" && s[4..] == rest;
  }

  lemma UnescapeQuot(rest: string)
    ensures Unescape("&quot;" + rest) == "\"" + Unescape(rest)
  {
    var s := "&quot;" + rest;
    NotStart(s, "&amp;", 1);
    NotStart(s, "&lt;", 1);
    NotStart(s, "&gt;", 1);
    assert s[..6] == "&quot;" && s[6..] == rest;
  }

  lemma UnescapeApos(rest: string)
    ensures Unescape("&#39;" + rest) == "'" + Unescape(rest)
  {
    var s := "&#39;" + rest;
    NotStart(s, "&amp;", 1);
    NotStart(s, "&lt;", 1);
    NotStart(s, "&gt;", 1);
    NotStart(s, "&quot;", 1);
    assert s[..5] == "&#39;" && s[5..] == rest;
  }

  lemma UnescapePlain(c: char, rest: string)
    requires c != '&'
    ensures Unescape([c] + rest) == [c] + Unescape(rest)
  {
    var s := [c] + rest;
    NotStart(s, "&amp;", 0);
    NotStart(s, "&lt;", 0);
    NotStart(s, "&gt;", 0);
    NotStart(s, "&quot;", 0);
    NotStart(s, "&#39;", 0);
    assert s[1..] == rest;
  }

  lemma OneReference(attr: bool, c: char, rest: string)
    ensures Unescape(Reference(attr, c) + rest) == [c] + Unescape(rest)
  {
    hide Unescape;
    match c
    case '&' => UnescapeAmp(rest);
    case '<' => UnescapeLt(rest);
    case '>' => UnescapeGt(rest);
    case '"' => UnescapeQuot(rest); UnescapePlain(c, rest);
    case '\'' => UnescapeApos(rest); UnescapePlain(c, rest);
    case _ => UnescapePlain(c, rest);
  }

  /** Reading back what was escaped gives the original text, and what follows is read
      on its own. */
  lemma {:induction false} UnescapeInverts(attr: bool, s: string, rest: string)
    ensures Unescape(Escaped(attr, s) + rest) == s + Unescape(rest)
  {
    hide Unescape, Reference;
    if s == [] {
      assert Escaped(attr, s) + rest == rest;
    } else {
      var tail := Escaped(attr, s[1..]) + rest;
      assert Escaped(attr, s) + rest == Reference(attr, s[0]) + tail;
      OneReference(attr, s[0], tail);
      UnescapeInverts(attr, s[1..], rest);
      assert s == [s[0]] + s[1..];
    }
  }

  lemma {:induction false} AttrHasNoMarkup(s: string)
    ensures var out := Escaped(true, s);
            '"' !in out && '\'' !in out && '<' !in out && '>' !in out
  {
    if s == [] {
    } else {
      AttrHasNoMarkup(s[1..]);
    }
  }

  lemma {:induction false} TextHasNoMarkup(s: string)
    ensures '<' !in Escaped(false, s) && '>' !in Escaped(false, s)
  {
    if s == [] {
    } else {
      TextHasNoMarkup(s[1..]);
    }
  }

  // ---- The element -----------------------------------------------------------------

  datatype Time = Time(iso: string, style: string, text: string)

  function OpenTag(): string { "<time datetime=\"" }
  function BetweenAttrs(): string { "\" data-style=\"" }
  function CloseTag(): string { "\">" }
  function EndTag(): string { "</time>" }

  function Printed(t: Time): string {
    OpenTag() + (Escaped(true, t.iso) + (BetweenAttrs() + (Escaped(true, t.style)
      + (CloseTag() + (Escaped(false, t.text) + EndTag())))))
  }

  /** The string the helper formats. */
  method RenderTime(iso: string, style: string, inner: string) returns (html: string)
    ensures html == Printed(Time(iso, style, inner))
    ensures forall rest :: ParseTime(html + rest) == Some(Parsed(Time(iso, style, inner), rest))
    ensures IsPlain(iso) && IsPlain(style) && IsPlain(inner) ==>
              html == "<time datetime=\"" + iso + "\" data-style=\"" + style + "\">" + inner + "</time>"
  {
    hide Escaped, Unescape, ParseTime;
    var a := EscapeAttr(iso);
    var b := EscapeAttr(style);
    var c := EscapeText(inner);
    html := "<time datetime=\"" + a + "\" data-style=\"" + b + "\">" + c + "</time>";
    assert html == Printed(Time(iso, style, inner));
    if IsPlain(iso) && IsPlain(style) && IsPlain(inner) {
      PlainStays(iso);
      PlainStays(style);
      PlainStays(inner);
    }
    forall rest ensures ParseTime(html + rest) == Some(Parsed(Time(iso, style, inner), rest)) {
      ParseInvertsPrint(Time(iso, style, inner), rest);
    }
  }

  datatype Parsed = Parsed(time: Time, rest: string)

  /** The text before the first `c`. */
  function Before(s: string, c: char): (r: string)
    ensures |r| <= |s| && s[..|r|] == r && c !in r
    ensures |r| < |s| ==> s[|r|] == c
  {
    if s == [] || s[0] == c then [] else [s[0]] + Before(s[1..], c)
  }

  /** Drops `prefix`, which must be there. */
  function Skip(s: string, prefix: string): Option<string> {
    if StartsWith(s, prefix) then Some(s[|prefix|..]) else None
  }

  /** Reads one element off the front of some markup: attributes end at the next quote,
      the content at the next `<`. */
  function ParseTime(html: string): Option<Parsed> {
    var s1 := Skip(html, OpenTag());
    if s1.None? then None else
    var iso := Before(s1.value, '"');
    var s2 := Skip(s1.value[|iso|..], BetweenAttrs());
    if s2.None? then None else
    var style := Before(s2.value, '"');
    var s3 := Skip(s2.value[|style|..], CloseTag());
    if s3.None? then None else
    var text := Before(s3.value, '<');
    var s4 := Skip(s3.value[|text|..], EndTag());
    if s4.None? then None else
    Some(Parsed(Time(Unescape(iso), Unescape(style), Unescape(text)), s4.value))
  }

  lemma {:induction false} BeforeIs(s: string, c: char, tail: string)
    requires c !in s && tail != [] && tail[0] == c
    ensures Before(s + tail, c) == s && (s + tail)[|s|..] == tail
  {
    if s == [] {
      assert s + tail == tail;
    } else {
      assert (s + tail)[1..] == s[1..] + tail;
      BeforeIs(s[1..], c, tail);
    }
  }

  lemma SkipIs(prefix: string, tail: string)
    ensures Skip(prefix + tail, prefix) == Some(tail)
  {
    assert (prefix + tail)[..|prefix|] == prefix;
  }

  lemma UnescapeWhole(attr: bool, s: string)
    ensures Unescape(Escaped(attr, s)) == s
  {
    UnescapeInverts(attr, s, "");
    assert Escaped(attr, s) + "" == Escaped(attr, s);
    assert s + Unescape("") == s;
  }

  lemma Regroup(o: string, a: string, m: string, b: string, n: string, c: string, e: string, rest: string)
    ensures o + (a + (m + (b + (n + (c + e))))) + rest == o + (a + (m + (b + (n + (c + (e + rest))))))
  {
    assert c + e + rest == c + (e + rest);
    assert n + (c + e) + rest == n + (c + (e + rest));
    assert b + (n + (c + e)) + rest == b + (n + (c + (e + rest)));
    assert m + (b + (n + (c + e))) + rest == m + (b + (n + (c + (e + rest))));
  }

  lemma TagStarts()
    ensures BetweenAttrs() != [] && BetweenAttrs()[0] == '"'
    ensures CloseTag() != [] && CloseTag()[0] == '"'
    ensures EndTag() != [] && EndTag()[0] == '<'
  {
  }

  /** Print and parse: whatever the three strings are and whatever markup follows, the
      printed element is read back as exactly those strings and leaves exactly that
      markup. */
  lemma {:induction false} ParseInvertsPrint(t: Time, rest: string)
    ensures ParseTime(Printed(t) + rest) == Some(Parsed(t, rest))
  {
    hide Before, Unescape, Escaped, Skip, OpenTag, BetweenAttrs, CloseTag, EndTag;
    TagStarts();
    var a, b, c := Escaped(true, t.iso), Escaped(true, t.style), Escaped(false, t.text);
    AttrHasNoMarkup(t.iso);
    AttrHasNoMarkup(t.style);
    TextHasNoMarkup(t.text);
    var t4 := EndTag() + rest;
    var t3 := CloseTag() + (c + t4);
    var t2 := BetweenAttrs() + (b + t3);
    assert Printed(t) + rest == OpenTag() + (a + t2) by {
      Regroup(OpenTag(), a, BetweenAttrs(), b, CloseTag(), c, EndTag(), rest);
    }
    SkipIs(OpenTag(), a + t2);
    BeforeIs(a, '"', t2);
    SkipIs(BetweenAttrs(), b + t3);
    BeforeIs(b, '"', t3);
    SkipIs(CloseTag(), c + t4);
    BeforeIs(c, '<', t4);
    SkipIs(EndTag(), rest);
    UnescapeWhole(true, t.iso);
    UnescapeWhole(true, t.style);
    UnescapeWhole(false, t.text);
  }

  /** Distinct contents never print alike. */
  lemma {:induction false} PrintIsInjective(t: Time, u: Time)
    ensures Printed(t) == Printed(u) <==> t == u
  {
    ParseInvertsPrint(t, "");
    ParseInvertsPrint(u, "");
  }
}

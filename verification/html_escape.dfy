/**
  Character escaping for HTML text (`MarkdownConverter.escapeHtml`) and for XML text in the
  vector cover (`WeChatPublisher.escapeXml`), with the decoders that undo them.
 */
module HtmlEscape {
  import opened Text

  function HtmlEntity(c: char): string {
    match c
    case '&' => "&amp;"
    case '<' => "&lt;"
    case '>' => "&gt;"
    case '"' => "&quot;"
    case '\'' => "&#039;"
    case _ => [c]
  }

  predicate IsHtmlSpecial(c: char) {
    c == '&' || c == '<' || c == '>' || c == '"' || c == '\''
  }

  /** `text.replace(/[&<>"']/g, m => map[m])`: one pass, each special character replaced by its entity. */
  function EscapeHtml(s: string): (r: string)
    ensures forall i :: 0 <= i < |r| ==> r[i] != '<' && r[i] != '>' && r[i] != '"' && r[i] != '\''
    ensures (forall i :: 0 <= i < |s| ==> !IsHtmlSpecial(s[i])) ==> r == s
    ensures |r| >= |s|
    decreases |s|
  {
    if s == [] then []
    else HtmlEntity(s[0]) + EscapeHtml(s[1..])
  }

  lemma EscapeHtmlAppend(a: string, b: string)
    ensures EscapeHtml(a + b) == EscapeHtml(a) + EscapeHtml(b)
    decreases |a|
  {
    if a != [] {
      assert (a + b)[0] == a[0];
      assert (a + b)[1..] == a[1..] + b;
      EscapeHtmlAppend(a[1..], b);
      assert EscapeHtml(a + b) == HtmlEntity(a[0]) + EscapeHtml(a[1..] + b);
    } else {
      assert a + b == b;
    }
  }

  /** Decodes the five entities `EscapeHtml` produces; everything else is copied. */
  function UnescapeHtml(s: string): string
    decreases |s|
  {
    if s == [] then []
    else if s[0] != '&' then [s[0]] + UnescapeHtml(s[1..])
    else if StartsWith(s, "&amp;") then "&" + UnescapeHtml(s[5..])
    else if StartsWith(s, "&lt;") then "<" + UnescapeHtml(s[4..])
    else if StartsWith(s, "&gt;") then ">" + UnescapeHtml(s[4..])
    else if StartsWith(s, "&quot;") then "\"" + UnescapeHtml(s[6..])
    else if StartsWith(s, "&#039;") then "'" + UnescapeHtml(s[6..])
    else [s[0]] + UnescapeHtml(s[1..])
  }

  lemma UnescapeHtmlStep(c: char, rest: string)
    ensures UnescapeHtml(HtmlEntity(c) + rest) == [c] + UnescapeHtml(rest)
  {
    var t := HtmlEntity(c) + rest;
    if c == '&' {
      assert StartsWith(t, "&amp;") && t[5..] == rest;
    } else if c == '<' {
      assert t[1] == 'l' && (|t| < 5 || t[..5][1] == t[1]);
      assert StartsWith(t, "&lt;") && t[4..] == rest;
    } else if c == '>' {
      assert t[1] == 'g' && (|t| < 5 || t[..5][1] == t[1]) && (|t| < 4 || t[..4][1] == t[1]);
      assert StartsWith(t, "&gt;") && t[4..] == rest;
    } else if c == '"' {
      assert t[1] == 'q' && (|t| < 5 || t[..5][1] == t[1]) && (|t| < 4 || t[..4][1] == t[1]);
      assert StartsWith(t, "&quot;") && t[6..] == rest;
    } else if c == '\'' {
      assert t[1] == '#' && (|t| < 5 || t[..5][1] == t[1]) && (|t| < 4 || t[..4][1] == t[1]) && (|t| < 6 || t[..6][1] == t[1]);
      assert StartsWith(t, "&#039;") && t[6..] == rest;
    } else {
      assert t[0] == c && t[1..] == rest;
    }
  }

  /** Escaping loses nothing: decoding the escaped text gives back the original. */
  lemma {:induction false} UnescapeEscapeHtml(s: string)
    ensures UnescapeHtml(EscapeHtml(s)) == s
    decreases |s|
  {
    if s != [] {
      UnescapeEscapeHtml(s[1..]);
      UnescapeHtmlStep(s[0], EscapeHtml(s[1..]));
      assert s == [s[0]] + s[1..];
    }
  }

  // ---------------------------------------------------------------------------
  // escapeXml: five sequential global replacements, ampersand first

  /** `s.replace(/c/g, rep)` for a single character `c`. */
  function ReplaceChar(s: string, c: char, rep: string): (r: string)
    ensures c !in rep ==> c !in r
    decreases |s|
  {
    if s == [] then []
    else (if s[0] == c then rep else [s[0]]) + ReplaceChar(s[1..], c, rep)
  }

  lemma ReplaceCharAppend(a: string, b: string, c: char, rep: string)
    ensures ReplaceChar(a + b, c, rep) == ReplaceChar(a, c, rep) + ReplaceChar(b, c, rep)
    decreases |a|
  {
    if a != [] {
      assert (a + b)[0] == a[0];
      assert (a + b)[1..] == a[1..] + b;
      ReplaceCharAppend(a[1..], b, c, rep);
      assert ReplaceChar(a + b, c, rep) == (if a[0] == c then rep else [a[0]]) + ReplaceChar(a[1..] + b, c, rep);
    } else {
      assert a + b == b;
    }
  }

  lemma ReplaceCharAbsent(s: string, c: char, rep: string)
    requires c !in s
    ensures ReplaceChar(s, c, rep) == s
    decreases |s|
  {
    if s != [] {
      ReplaceCharAbsent(s[1..], c, rep);
      assert s == [s[0]] + s[1..];
    }
  }

  /** `WeChatPublisher.escapeXml` exactly as written: `&`, then `<`, `>`, `"`, `'`. */
  function EscapeXml(s: string): string {
    var a := ReplaceChar(s, '&', "&amp;");
    var b := ReplaceChar(a, '<', "&lt;");
    var c := ReplaceChar(b, '>', "&gt;");
    var d := ReplaceChar(c, '"', "&quot;");
    ReplaceChar(d, '\'', "&apos;")
  }

  /** The characters escaped after `&`, in the order `escapeXml` replaces them. */
  function XmlSpecialAfterAmp(k: nat): char
    requires k < 4
  {
    ['<', '>', '"', '\''][k]
  }

  /** Applies the passes for `XmlSpecialAfterAmp(from)`, ..., `XmlSpecialAfterAmp(3)` in order. */
  function XmlPassesFrom(s: string, from: nat): string
    requires from <= 4
    decreases 4 - from
  {
    if from == 4 then s
    else
      var d := XmlSpecialAfterAmp(from);
      XmlPassesFrom(ReplaceChar(s, d, XmlEntity(d)), from + 1)
  }

  lemma EscapeXmlAsPasses(s: string)
    ensures EscapeXml(s) == XmlPassesFrom(ReplaceChar(s, '&', "&amp;"), 0)
  {
    var a := ReplaceChar(s, '&', "&amp;");
    var b := ReplaceChar(a, '<', "&lt;");
    var c := ReplaceChar(b, '>', "&gt;");
    var d := ReplaceChar(c, '"', "&quot;");
    assert XmlSpecialAfterAmp(0) == '<' && XmlEntity('<') == "&lt;";
    assert XmlSpecialAfterAmp(1) == '>' && XmlEntity('>') == "&gt;";
    assert XmlSpecialAfterAmp(2) == '"' && XmlEntity('"') == "&quot;";
    assert XmlSpecialAfterAmp(3) == '\'' && XmlEntity('\'') == "&apos;";
    assert XmlPassesFrom(d, 3) == ReplaceChar(d, '\'', "&apos;");
    assert XmlPassesFrom(c, 2) == XmlPassesFrom(d, 3);
    assert XmlPassesFrom(b, 1) == XmlPassesFrom(c, 2);
    assert XmlPassesFrom(a, 0) == XmlPassesFrom(b, 1);
  }

  function XmlEntity(c: char): string {
    match c
    case '&' => "&amp;"
    case '<' => "&lt;"
    case '>' => "&gt;"
    case '"' => "&quot;"
    case '\'' => "&apos;"
    case _ => [c]
  }

  /** Reference: each character escaped once, independently of its neighbours. */
  function EscapeXmlOnce(s: string): (r: string)
    ensures forall i :: 0 <= i < |r| ==> r[i] != '<' && r[i] != '>' && r[i] != '"' && r[i] != '\''
    decreases |s|
  {
    if s == [] then [] else XmlEntity(s[0]) + EscapeXmlOnce(s[1..])
  }

  lemma EscapeXmlAppend(a: string, b: string)
    ensures EscapeXml(a + b) == EscapeXml(a) + EscapeXml(b)
  {
    var a1, b1 := ReplaceChar(a, '&', "&amp;"), ReplaceChar(b, '&', "&amp;");
    ReplaceCharAppend(a, b, '&', "&amp;");
    var a2, b2 := ReplaceChar(a1, '<', "&lt;"), ReplaceChar(b1, '<', "&lt;");
    ReplaceCharAppend(a1, b1, '<', "&lt;");
    var a3, b3 := ReplaceChar(a2, '>', "&gt;"), ReplaceChar(b2, '>', "&gt;");
    ReplaceCharAppend(a2, b2, '>', "&gt;");
    var a4, b4 := ReplaceChar(a3, '"', "&quot;"), ReplaceChar(b3, '"', "&quot;");
    ReplaceCharAppend(a3, b3, '"', "&quot;");
    ReplaceCharAppend(a4, b4, '\'', "&apos;");
  }

  lemma ReplaceCharSingle(x: char, c: char, rep: string)
    ensures ReplaceChar([x], c, rep) == if x == c then rep else [x]
  {
    assert [x][1..] == [];
  }

  /** The four passes after the first leave an entity of another character untouched. */
  lemma LaterPassesKeep(e: string, from: nat)
    requires from <= 4
    requires forall k :: from <= k < 4 ==> XmlSpecialAfterAmp(k) !in e
    ensures XmlPassesFrom(e, from) == e
    decreases 4 - from
  {
    if from < 4 {
      ReplaceCharAbsent(e, XmlSpecialAfterAmp(from), XmlEntity(XmlSpecialAfterAmp(from)));
      LaterPassesKeep(e, from + 1);
    }
  }

  lemma EscapeXmlChar(c: char)
    ensures EscapeXml([c]) == XmlEntity(c)
  {
    EscapeXmlAsPasses([c]);
    ReplaceCharSingle(c, '&', "&amp;");
    if c == '&' {
      AmpEntityKept();
    } else {
      PassesOnChar(c, 0);
    }
  }

  lemma AmpEntityKept()
    ensures XmlPassesFrom("&amp;", 0) == "&amp;"
  {
    LaterPassesKeep("&amp;", 0);
  }

  lemma PassesOnChar(c: char, from: nat)
    requires from <= 4 && c != '&'
    requires forall k :: 0 <= k < from ==> c != XmlSpecialAfterAmp(k)
    ensures XmlPassesFrom([c], from) == XmlEntity(c)
    decreases 4 - from
  {
    if from < 4 {
      var d := XmlSpecialAfterAmp(from);
      ReplaceCharSingle(c, d, XmlEntity(d));
      if c == d {
        LaterPassesKeep(XmlEntity(c), from + 1);
      } else {
        PassesOnChar(c, from + 1);
      }
    } else {
      assert c != XmlSpecialAfterAmp(0) && c != XmlSpecialAfterAmp(1);
      assert c != XmlSpecialAfterAmp(2) && c != XmlSpecialAfterAmp(3);
    }
  }

  /**
    Because `&` is replaced first, no entity produced by a later pass is escaped again:
    the five sequential passes equal escaping every character exactly once.
   */
  lemma {:induction false} EscapeXmlIsSinglePass(s: string)
    ensures EscapeXml(s) == EscapeXmlOnce(s)
    decreases |s|
  {
    if s != [] {
      assert s == [s[0]] + s[1..];
      EscapeXmlAppend([s[0]], s[1..]);
      EscapeXmlChar(s[0]);
      EscapeXmlIsSinglePass(s[1..]);
    }
  }

  /** Decodes the five XML entities; everything else is copied. */
  function UnescapeXml(s: string): string
    decreases |s|
  {
    if s == [] then []
    else if s[0] != '&' then [s[0]] + UnescapeXml(s[1..])
    else if StartsWith(s, "&amp;") then "&" + UnescapeXml(s[5..])
    else if StartsWith(s, "&lt;") then "<" + UnescapeXml(s[4..])
    else if StartsWith(s, "&gt;") then ">" + UnescapeXml(s[4..])
    else if StartsWith(s, "&quot;") then "\"" + UnescapeXml(s[6..])
    else if StartsWith(s, "&apos;") then "'" + UnescapeXml(s[6..])
    else [s[0]] + UnescapeXml(s[1..])
  }

  lemma UnescapeXmlStep(c: char, rest: string)
    ensures UnescapeXml(XmlEntity(c) + rest) == [c] + UnescapeXml(rest)
  {
    var t := XmlEntity(c) + rest;
    if c == '&' {
      assert StartsWith(t, "&amp;") && t[5..] == rest;
    } else if c == '<' {
      assert t[1] == 'l' && (|t| < 5 || t[..5][1] == t[1]);
      assert StartsWith(t, "&lt;") && t[4..] == rest;
    } else if c == '>' {
      assert t[1] == 'g' && (|t| < 5 || t[..5][1] == t[1]) && (|t| < 4 || t[..4][1] == t[1]);
      assert StartsWith(t, "&gt;") && t[4..] == rest;
    } else if c == '"' {
      assert t[1] == 'q' && (|t| < 5 || t[..5][1] == t[1]) && (|t| < 4 || t[..4][1] == t[1]);
      assert StartsWith(t, "&quot;") && t[6..] == rest;
    } else if c == '\'' {
      assert t[2] == 'p' && (|t| < 5 || t[..5][2] == t[2]) && (|t| < 4 || t[..4][1] == t[1]) && (|t| < 6 || t[..6][1] == t[1]);
      assert StartsWith(t, "&apos;") && t[6..] == rest;
    } else {
      assert t[0] == c && t[1..] == rest;
    }
  }

  lemma {:induction false} UnescapeEscapeXmlOnce(s: string)
    ensures UnescapeXml(EscapeXmlOnce(s)) == s
    decreases |s|
  {
    if s != [] {
      UnescapeEscapeXmlOnce(s[1..]);
      UnescapeXmlStep(s[0], EscapeXmlOnce(s[1..]));
      assert s == [s[0]] + s[1..];
    }
  }

  /** `escapeXml` leaves no raw markup character and nothing is escaped twice. */
  lemma EscapeXmlProperties(s: string)
    ensures var r := EscapeXml(s);
      && (forall i :: 0 <= i < |r| ==> r[i] != '<' && r[i] != '>' && r[i] != '"' && r[i] != '\'')
      && UnescapeXml(r) == s
  {
    EscapeXmlIsSinglePass(s);
    UnescapeEscapeXmlOnce(s);
  }
}

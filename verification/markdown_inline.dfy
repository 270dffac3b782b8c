/**
  The rewriting stages of `MarkdownConverter` that run before tables: code, headings,
  text formatting, lists, blockquotes and links. Each stage is one or more global
  replacements (`Rewrite.ReplaceAll`) whose regular expression is hand-coded as a matcher.
 */
module MdInline {
  import opened Wrappers
  import opened Text
  import opened Rewrite
  import opened HtmlEscape

  // ---------------------------------------------------------------------------
  // Stage 1: fenced code blocks and inline code

  const PreStyle := "background: #f8f9fa; padding: 16px; border-radius: 8px; overflow-x: auto; font-family: 'Monaco', 'Consolas', 'Courier New', monospace; font-size: 14px; line-height: 1.4; border: 1px solid #e9ecef; margin: 16px 0;"
  const InlineCodeOpen := "<code style=\"background: #f1f3f4; color: #e91e63; padding: 2px 6px; border-radius: 4px; font-family: 'Monaco', 'Consolas', 'Courier New', monospace; font-size: 0.9em;\">"

  /** The `data-language` value: the fence's tag, or "text" when there is none. */
  function Language(tag: string): (r: string)
    ensures tag != "" ==> r == tag
    ensures tag == "" ==> r == "text"
  {
    if tag == "" then "text" else tag
  }

  function PreBlock(language: string, body: string): string {
    "<pre data-language=\"" + language + "\" style=\"" + PreStyle + "\"><code style=\"color: #333; background: none; padding: 0;\">" + body + "</code></pre>"
  }

  /** The body of a code block: the code trimmed, then HTML-escaped. */
  function CodeBody(code: string): (r: string)
    ensures forall k :: 0 <= k < |r| ==> !IsHtmlSpecial(r[k]) || r[k] == '&'
    ensures UnescapeHtml(r) == Trim(code)
  {
    UnescapeEscapeHtml(Trim(code));
    EscapeHtml(Trim(code))
  }

  /** ```` /```(\w+)?\n([\s\S]*?)```/ ```` at `i`. */
  function FenceAt(s: string, i: nat): (h: Option<Hit>)
    ensures h.Some? ==> i < h.value.end <= |s|
  {
    FenceWith(FenceHtml, s, i)
  }

  /** The replacement for a fenced block with language tag `tag` and content `code`. */
  function FenceHtml(tag: string, code: string): string {
    PreBlock(Language(tag), CodeBody(code))
  }

  /**
    Where the fence expression matches at `i`: the end `w` of the language tag (a newline
    follows it) and the start `k` of the closing fence.
   */
  function FenceSpan(s: string, i: nat): (r: Option<(nat, nat)>)
    ensures r.Some? ==> i + 3 <= r.value.0 < r.value.1 && r.value.1 + 3 <= |s|
  {
    if !OccursAt(s, "```", i) then None
    else
      var w := WordEnd(s, i + 3);
      if w == |s| || s[w] != '\n' then None
      else
        match FindFrom(s, "```", w + 1)
        case None => None
        case Some(k) => Some((w, k))
  }

  /** The fence expression at `i`, the tag and the code rendered by `render`. */
  function FenceWith(render: (string, string) -> string, s: string, i: nat): (h: Option<Hit>)
    ensures h.Some? ==> i < h.value.end <= |s|
  {
    match FenceSpan(s, i)
    case None => None
    case Some((w, k)) => Some(Hit(k + 3, render(s[i + 3..w], s[w + 1..k])))
  }

  /** `` /`([^`]+)`/ `` at `i`. */
  function InlineCodeAt(s: string, i: nat): (h: Option<Hit>)
    ensures h.Some? ==> i < h.value.end <= |s|
  {
    if !(i < |s| && s[i] == '`') then None
    else
      match FindChar(s, '`', i + 1)
      case None => None
      case Some(j) => if j == i + 1 then None else Some(Hit(j + 1, InlineCodeOpen + s[i + 1..j] + "</code>"))
  }

  function ConvertCodeBlocks(s: string): string {
    ReplaceAll(ReplaceAll(s, FenceAt), InlineCodeAt)
  }

  /**
    A fence opened with a word-character tag (possibly empty) and closed by the first
    following fence becomes one `<pre>` whose `data-language` is the tag or "text" and whose
    body is the trimmed code, HTML-escaped; scanning resumes after the closing fence.
   */
  lemma FencedBlock(s: string, i: nat, tag: string, code: string)
    requires OccursAt(s, "```", i) && OccursAt(s, tag, i + 3) && OccursAt(s, "\n", i + 3 + |tag|)
    requires OccursAt(s, code, i + 4 + |tag|) && OccursAt(s, "```", i + 4 + |tag| + |code|)
    requires forall k :: 0 <= k < |tag| ==> IsWordChar(tag[k])
    requires forall k :: 0 <= k <= |code| ==> !OccursAt(code, "```", k)
    requires code == [] || code[|code| - 1] != '`'
    ensures FenceAt(s, i) == Some(Hit(i + |tag| + |code| + 7, FenceHtml(tag, code)))
  {
    FencedBlockWith(FenceHtml, s, i, tag, code);
  }

  lemma FencedBlockWith(render: (string, string) -> string, s: string, i: nat, tag: string, code: string)
    requires OccursAt(s, "```", i) && OccursAt(s, tag, i + 3) && OccursAt(s, "\n", i + 3 + |tag|)
    requires OccursAt(s, code, i + 4 + |tag|) && OccursAt(s, "```", i + 4 + |tag| + |code|)
    requires forall k :: 0 <= k < |tag| ==> IsWordChar(tag[k])
    requires forall k :: 0 <= k <= |code| ==> !OccursAt(code, "```", k)
    requires code == [] || code[|code| - 1] != '`'
    ensures FenceWith(render, s, i) == Some(Hit(i + |tag| + |code| + 7, render(tag, code)))
  {
    var w := i + 3 + |tag|;
    var c0 := w + 1;
    var close := c0 + |code|;
    assert s[w] == s[w..w + 1][0];
    SliceElems(s, i + 3, tag);
    NoFenceInside(s, c0, code);
    FenceSpanAt(s, i, w, close);
    assert s[i + 3..w] == tag && s[c0..close] == code;
  }

  /** The fence expression spans `[i, close + 3)` exactly when its parts are where they should be. */
  lemma FenceSpanAt(s: string, i: nat, w: nat, close: nat)
    requires OccursAt(s, "```", i) && i + 3 <= w < close
    requires OccursAt(s, "```", close)
    requires forall k :: i + 3 <= k < w ==> IsWordChar(s[k])
    requires s[w] == '\n'
    requires forall k :: w + 1 <= k < close ==> !OccursAt(s, "```", k)
    ensures FenceSpan(s, i) == Some((w, close))
  {
    assert WordEnd(s, i + 3) == w;
    assert FindFrom(s, "```", w + 1) == Some(close);
  }

  lemma NoFenceInside(s: string, c0: nat, code: string)
    requires forall k :: 0 <= k <= |code| ==> !OccursAt(code, "```", k)
    requires code == [] || code[|code| - 1] != '`'
    requires OccursAt(s, code, c0)
    ensures forall k :: c0 <= k < c0 + |code| ==> !OccursAt(s, "```", k)
  {
    var close := c0 + |code|;
    assert s[c0..close] == code;
    forall k | c0 <= k < close
      ensures !OccursAt(s, "```", k)
    {
      if k + 3 <= close {
        assert s[k..k + 3] == s[c0..close][k - c0..k - c0 + 3] == code[k - c0..k - c0 + 3];
        assert !OccursAt(code, "```", k - c0);
      } else if k + 3 <= |s| {
        var j := close - 1 - k;
        assert s[k..k + 3][j] == s[close - 1] == s[c0..close][|code| - 1] != '`';
        assert "```"[j] == '`';
      }
    }
  }

  // ---------------------------------------------------------------------------
  // Stage 2: headings

  const H1Open := "<h1 style=\"color: #2c3e50; font-size: 28px; font-weight: bold; margin: 24px 0 16px 0; line-height: 1.3; border-bottom: 3px solid #3498db; padding-bottom: 8px;\">"
  const H2Open := "<h2 style=\"color: #3498db; font-size: 24px; font-weight: bold; margin: 20px 0 12px 0; line-height: 1.3;\">🔹 "
  const H3Open := "<h3 style=\"color: #27ae60; font-size: 20px; font-weight: bold; margin: 18px 0 10px 0; line-height: 1.3;\">▶ "
  const H4Open := "<h4 style=\"color: #8e44ad; font-size: 18px; font-weight: bold; margin: 16px 0 8px 0; line-height: 1.3;\">• "

  function Hashes(n: nat): (r: string)
    ensures |r| == n && forall k :: 0 <= k < n ==> r[k] == '#'
  {
    seq(n, _ => '#')
  }

  function HeadingHtml(level: nat, text: string): string {
    if level == 1 then H1Open + text + "</h1>"
    else if level == 2 then H2Open + text + "</h2>"
    else if level == 3 then H3Open + text + "</h3>"
    else H4Open + text + "</h4>"
  }

  /** `/^#{level} (.+)$/gm` at `i`. */
  function HeadingAt(level: nat, s: string, i: nat): (h: Option<Hit>)
    ensures h.Some? ==> i < h.value.end <= |s|
  {
    if !(AtLineStart(s, i) && OccursAt(s, Hashes(level) + " ", i)) then None
    else
      var e := LineEnd(s, i + level + 1);
      if e == i + level + 1 then None else Some(Hit(e, HeadingHtml(level, s[i + level + 1..e])))
  }

  function ConvertHeadings(s: string): string {
    var h1 := ReplaceAll(s, (t: string, i: nat) => HeadingAt(1, t, i));
    var h2 := ReplaceAll(h1, (t: string, i: nat) => HeadingAt(2, t, i));
    var h3 := ReplaceAll(h2, (t: string, i: nat) => HeadingAt(3, t, i));
    ReplaceAll(h3, (t: string, i: nat) => HeadingAt(4, t, i))
  }

  /**
    A line of `n` hashes, a space and some text is a heading of exactly level `n`:
    the level-`n` expression turns the whole line into the level-`n` element and the
    expressions of the other levels do not match it.
   */
  lemma HeadingLevel(s: string, i: nat, n: nat, text: string)
    requires 1 <= n <= 4
    requires AtLineStart(s, i)
    requires i + n + 1 + |text| <= |s| && s[i..i + n + 1 + |text|] == Hashes(n) + " " + text
    requires text != [] && forall k :: 0 <= k < |text| ==> !IsLineTerminator(text[k])
    requires i + n + 1 + |text| == |s| || IsLineTerminator(s[i + n + 1 + |text|])
    ensures HeadingAt(n, s, i) == Some(Hit(i + n + 1 + |text|, HeadingHtml(n, text)))
    ensures forall m :: 1 <= m <= 4 && m != n ==> HeadingAt(m, s, i) == None
  {
    var e := i + n + 1 + |text|;
    assert OccursAt(s, Hashes(n) + " ", i) by {
      assert s[i..i + n + 1] == (Hashes(n) + " " + text)[..n + 1];
    }
    assert forall k :: i + n + 1 <= k < e ==> s[k] == text[k - (i + n + 1)];
    assert LineEnd(s, i + n + 1) == e;
    assert s[i + n + 1..e] == text;
    forall m | 1 <= m <= 4 && m != n
      ensures HeadingAt(m, s, i) == None
    {
      var p := if m < n then m else n;
      assert s[i + p] == s[i..i + n + 1 + |text|][p] == (Hashes(n) + " " + text)[p];
      assert (Hashes(m) + " ")[p] != (Hashes(n) + " " + text)[p];
      assert i + m + 1 <= |s| ==> s[i..i + m + 1][p] == s[i + p];
    }
  }

  // ---------------------------------------------------------------------------
  // Stage 3: bold, italic, strikethrough

  const StrongOpen := "<strong style=\"color: #e74c3c; font-weight: bold;\">"
  const EmOpen := "<em style=\"color: #9b59b6; font-style: italic;\">"
  const DelOpen := "<del style=\"color: #95a5a6; text-decoration: line-through;\">"

  function Strong(x: string): string {
    StrongOpen + x + "</strong>"
  }

  function Em(x: string): string {
    EmOpen + x + "</em>"
  }

  function Del(x: string): string {
    DelOpen + x + "</del>"
  }

  /** `/d(.*?)d/` at `i`: the delimiter, the shortest run of non-line-terminators, the delimiter. */
  function DelimitedAt(d: string, wrap: string -> string, s: string, i: nat): (h: Option<Hit>)
    ensures h.Some? ==> i + |d| <= h.value.end <= |s|
  {
    if !OccursAt(s, d, i) then None
    else
      match LazyUntil(s, i + |d|, d)
      case None => None
      case Some(k) => Some(Hit(k + |d|, wrap(s[i + |d|..k])))
  }

  function ConvertTextFormatting(s: string): string {
    var bold := ReplaceAll(s, (t: string, i: nat) => DelimitedAt("**", Strong, t, i));
    var italic := ReplaceAll(bold, (t: string, i: nat) => DelimitedAt("*", Em, t, i));
    ReplaceAll(italic, (t: string, i: nat) => DelimitedAt("~~", Del, t, i))
  }

  /**
    Text between a delimiter and the first later occurrence of it on the same line is
    wrapped: `**x**` becomes `Strong(x)` when `x` holds no line break and no `**` starts
    inside it.
   */
  lemma DelimitedSpan(d: string, wrap: string -> string, s: string, i: nat, x: string)
    requires |d| > 0
    requires OccursAt(s, d, i) && OccursAt(s, x, i + |d|) && OccursAt(s, d, i + |d| + |x|)
    requires forall k :: 0 <= k < |x| ==> !IsLineTerminator(x[k])
    requires forall k :: i + |d| <= k < i + |d| + |x| ==> !OccursAt(s, d, k)
    ensures DelimitedAt(d, wrap, s, i) == Some(Hit(i + |d| + |x| + |d|, wrap(x)))
  {
    var a := i + |d|;
    assert LazyUntil(s, a, d) == Some(a + |x|) by {
      SliceElems(s, a, x);
      LazyUntilFinds(s, a, a + |x|, d);
    }
    assert s[a..a + |x|] == x;
  }

  lemma LazyUntilFinds(s: string, a: nat, b: nat, d: string)
    requires a <= b <= |s|
    requires OccursAt(s, d, b)
    requires forall k :: a <= k < b ==> !OccursAt(s, d, k) && !IsLineTerminator(s[k])
    ensures LazyUntil(s, a, d) == Some(b)
    decreases b - a
  {
    if a < b {
      LazyUntilFinds(s, a + 1, b, d);
    }
  }

  // ---------------------------------------------------------------------------
  // Stage 4: lists

  const LiAttrs := " style=\"margin: 8px 0; line-height: 1.6;\""
  const UlOpen := "<ul style=\"margin: 16px 0; padding-left: 24px; list-style-type: disc;\">"

  function Ul(items: string): string {
    UlOpen + items + "</ul>"
  }

  function Li(text: string): string {
    "<li" + LiAttrs + ">" + text + "</li>"
  }

  /** `\s+(.+)$` (or `\s*(.+)$` when `least` is 0) from `start`, replaced by `wrap(text)`. */
  function LineTailAt(s: string, start: nat, least: nat, wrap: string -> string): (h: Option<Hit>)
    requires start <= |s|
    ensures h.Some? ==> start + least < h.value.end <= |s|
  {
    match GreedySpacesThen(s, start, least, NotLineTerminator)
    case None => None
    case Some(q) =>
      var e := LineEnd(s, q);
      Some(Hit(e, wrap(s[q..e])))
  }

  /** `/^\d+\.\s+(.+)$/gm` at `i`, the captured text rendered by `wrap`. */
  function OrderedItemWith(wrap: string -> string, s: string, i: nat): (h: Option<Hit>)
    ensures h.Some? ==> i < h.value.end <= |s|
  {
    if !(i < |s| && AtLineStart(s, i)) then None
    else
      var d := DigitsEnd(s, i);
      if d == i || d == |s| || s[d] != '.' then None
      else LineTailAt(s, d + 1, 1, wrap)
  }

  function OrderedItemAt(s: string, i: nat): (h: Option<Hit>)
    ensures h.Some? ==> i < h.value.end <= |s|
  {
    OrderedItemWith(Li, s, i)
  }

  /** `/^[-*+]\s+(.+)$/gm` at `i`, the captured text rendered by `wrap`. */
  function BulletItemWith(wrap: string -> string, s: string, i: nat): (h: Option<Hit>)
    ensures h.Some? ==> i < h.value.end <= |s|
  {
    if !(i < |s| && AtLineStart(s, i) && (s[i] == '-' || s[i] == '*' || s[i] == '+')) then None
    else LineTailAt(s, i + 1, 1, wrap)
  }

  function BulletItemAt(s: string, i: nat): (h: Option<Hit>)
    ensures h.Some? ==> i < h.value.end <= |s|
  {
    BulletItemWith(Li, s, i)
  }

  /** `<li[^>]*>.*?<\/li>` (dotAll) at `i`: the index just past the element. */
  function ItemEnd(s: string, i: nat): (r: Option<nat>)
    ensures r.Some? ==> i < r.value <= |s|
  {
    if !OccursAt(s, "<li", i) then None
    else
      match FindChar(s, '>', i + 3)
      case None => None
      case Some(g) =>
        match FindFrom(s, "</li>", g + 1)
        case None => None
        case Some(k) => Some(k + 5)
  }

  /**
    `(\s*<li[^>]*>.*?<\/li>)*` from `e`, for an element matcher `item`: extends the run while
    another element follows. The guard on `e2` always holds for `ItemEnd`.
   */
  function RunEndBy(item: (string, nat) -> Option<nat>, s: string, e: nat): (r: nat)
    requires e <= |s|
    ensures e <= r <= |s|
    decreases |s| - e
  {
    var w := SkipSpaces(s, e);
    match item(s, w)
    case Some(e2) => if e < e2 <= |s| then RunEndBy(item, s, e2) else e
    case None => e
  }

  function RunEnd(s: string, e: nat): (r: nat)
    requires e <= |s|
    ensures e <= r <= |s|
  {
    RunEndBy(ItemEnd, s, e)
  }

  /** The run of elements (as recognised by `item`) starting at `i`, wrapped in one `<ul>`. */
  function ListRunBy(item: (string, nat) -> Option<nat>, s: string, i: nat): (h: Option<Hit>)
    ensures h.Some? ==> i < h.value.end <= |s|
  {
    match item(s, i)
    case None => None
    case Some(e) =>
      if i < e <= |s| then
        var r := RunEndBy(item, s, e);
        Some(Hit(r, Ul(s[i..r])))
      else None
  }

  /** `/(<li[^>]*>.*?<\/li>(\s*<li[^>]*>.*?<\/li>)*)/gs` at `i`, as one `<ul>`. */
  function ListRunAt(s: string, i: nat): (h: Option<Hit>)
    ensures h.Some? ==> i < h.value.end <= |s|
  {
    ListRunBy(ItemEnd, s, i)
  }

  function ConvertLists(s: string): string {
    var ordered := ReplaceAll(s, OrderedItemAt);
    var bullets := ReplaceAll(ordered, BulletItemAt);
    ReplaceAll(bullets, ListRunAt)
  }

  /** A line "<digits>. <text>" becomes one list item holding the text. */
  lemma OrderedItemLine(s: string, i: nat, digits: string, text: string)
    requires AtLineStart(s, i)
    requires |digits| > 0 && forall k :: 0 <= k < |digits| ==> IsDigit(digits[k])
    requires text != [] && !IsSpace(text[0]) && forall k :: 0 <= k < |text| ==> !IsLineTerminator(text[k])
    requires OccursAt(s, digits, i) && OccursAt(s, ". ", i + |digits|) && OccursAt(s, text, i + |digits| + 2)
    requires i + |digits| + 2 + |text| == |s| || IsLineTerminator(s[i + |digits| + 2 + |text|])
    ensures OrderedItemAt(s, i) == Some(Hit(i + |digits| + 2 + |text|, Li(text)))
  {
    OrderedItemLineWith(Li, s, i, digits, text);
  }

  lemma OrderedItemLineWith(wrap: string -> string, s: string, i: nat, digits: string, text: string)
    requires AtLineStart(s, i)
    requires |digits| > 0 && forall k :: 0 <= k < |digits| ==> IsDigit(digits[k])
    requires text != [] && !IsSpace(text[0]) && forall k :: 0 <= k < |text| ==> !IsLineTerminator(text[k])
    requires OccursAt(s, digits, i) && OccursAt(s, ". ", i + |digits|) && OccursAt(s, text, i + |digits| + 2)
    requires i + |digits| + 2 + |text| == |s| || IsLineTerminator(s[i + |digits| + 2 + |text|])
    ensures OrderedItemWith(wrap, s, i) == Some(Hit(i + |digits| + 2 + |text|, wrap(text)))
  {
    var d := i + |digits|;
    DotThenLine(s, d, text, wrap);
    DigitRun(s, i, digits);
    OrderedItemFrom(wrap, s, i, d, Hit(d + 2 + |text|, wrap(text)));
  }

  lemma DigitRun(s: string, i: nat, digits: string)
    requires forall k :: 0 <= k < |digits| ==> IsDigit(digits[k])
    requires OccursAt(s, digits, i) && i + |digits| < |s| && s[i + |digits|] == '.'
    ensures DigitsEnd(s, i) == i + |digits|
  {
    SliceElems(s, i, digits);
  }

  /** `. ` at `d`, then the rest of the line. */
  lemma DotThenLine(s: string, d: nat, text: string, wrap: string -> string)
    requires text != [] && !IsSpace(text[0]) && forall k :: 0 <= k < |text| ==> !IsLineTerminator(text[k])
    requires OccursAt(s, ". ", d) && OccursAt(s, text, d + 2)
    requires d + 2 + |text| == |s| || IsLineTerminator(s[d + 2 + |text|])
    ensures s[d] == '.' && LineTailAt(s, d + 1, 1, wrap) == Some(Hit(d + 2 + |text|, wrap(text)))
  {
    assert s[d] == s[d..d + 2][0] && s[d + 1] == s[d..d + 2][1];
    BlankThenText(s, d + 1, text, wrap);
  }

  /** One blank at `p`, then the rest of the line: the text is what gets wrapped. */
  lemma BlankThenText(s: string, p: nat, text: string, wrap: string -> string)
    requires text != [] && !IsSpace(text[0]) && forall k :: 0 <= k < |text| ==> !IsLineTerminator(text[k])
    requires p < |s| && s[p] == ' ' && OccursAt(s, text, p + 1)
    requires p + 1 + |text| == |s| || IsLineTerminator(s[p + 1 + |text|])
    ensures LineTailAt(s, p, 1, wrap) == Some(Hit(p + 1 + |text|, wrap(text)))
  {
    LineTail(s, p, 1, 1, text, wrap);
  }

  lemma OrderedItemFrom(wrap: string -> string, s: string, i: nat, d: nat, h: Hit)
    requires i < d < |s| && AtLineStart(s, i) && DigitsEnd(s, i) == d && s[d] == '.'
    requires LineTailAt(s, d + 1, 1, wrap) == Some(h)
    ensures OrderedItemWith(wrap, s, i) == Some(h)
  {
  }

  /** A line "- <text>" (or with `*` or `+`) becomes one list item holding the text. */
  lemma BulletItemLine(s: string, i: nat, bullet: char, text: string)
    requires AtLineStart(s, i)
    requires bullet == '-' || bullet == '*' || bullet == '+'
    requires text != [] && !IsSpace(text[0]) && forall k :: 0 <= k < |text| ==> !IsLineTerminator(text[k])
    requires OccursAt(s, [bullet, ' '], i) && OccursAt(s, text, i + 2)
    requires i + 2 + |text| == |s| || IsLineTerminator(s[i + 2 + |text|])
    ensures BulletItemAt(s, i) == Some(Hit(i + 2 + |text|, Li(text)))
  {
    BulletItemLineWith(Li, s, i, bullet, text);
  }

  lemma BulletItemLineWith(wrap: string -> string, s: string, i: nat, bullet: char, text: string)
    requires AtLineStart(s, i)
    requires bullet == '-' || bullet == '*' || bullet == '+'
    requires text != [] && !IsSpace(text[0]) && forall k :: 0 <= k < |text| ==> !IsLineTerminator(text[k])
    requires OccursAt(s, [bullet, ' '], i) && OccursAt(s, text, i + 2)
    requires i + 2 + |text| == |s| || IsLineTerminator(s[i + 2 + |text|])
    ensures BulletItemWith(wrap, s, i) == Some(Hit(i + 2 + |text|, wrap(text)))
  {
    assert s[i] == bullet by {
      assert s[i] == s[i..i + 2][0];
    }
    assert s[i + 1] == s[i..i + 2][1] == ' ';
    BlankThenText(s, i + 1, text, wrap);
  }

  /** Blanks (at least `least`, no line break) then a line's text: the text is what gets wrapped. */
  lemma LineTail(s: string, start: nat, least: nat, b: nat, text: string, wrap: string -> string)
    requires text != [] && !IsSpace(text[0]) && forall k :: 0 <= k < |text| ==> !IsLineTerminator(text[k])
    requires LineTailShape(s, start, least, b, text)
    ensures LineTailAt(s, start, least, wrap) == Some(Hit(start + b + |text|, wrap(text)))
  {
    var q := start + b;
    assert SkipSpaces(s, start) == q && LineEnd(s, q) == q + |text| by {
      SliceElems(s, q, text);
    }
    GreedySpacesNonSpace(s, start, least, NotLineTerminator);
  }

  /** From `start`: `b` blanks (at least `least`), then `text`, then the end of the line. */
  ghost predicate LineTailShape(s: string, start: nat, least: nat, b: nat, text: string) {
    least <= b && OccursAt(s, text, start + b)
    && (forall k :: start <= k < start + b ==> IsSpace(s[k]) && !IsLineTerminator(s[k]))
    && (start + b + |text| == |s| || IsLineTerminator(s[start + b + |text|]))
  }

  // --- grouping adjacent items

  /** A list item whose text cannot end it early: no `</li>` inside. */
  predicate PlainItemText(x: string) {
    forall k :: 0 <= k <= |x| ==> !OccursAt(x, "</li>", k)
  }

  /** Further items after the first: `gaps[0] + Li(xs[0]) + gaps[1] + Li(xs[1]) + ...`. */
  function ItemTail(xs: seq<string>, gaps: seq<string>): string
    requires |gaps| == |xs|
  {
    if xs == [] then [] else gaps[0] + Li(xs[0]) + ItemTail(xs[1..], gaps[1..])
  }

  lemma ItemEndOfLi(s: string, i: nat, x: string)
    requires PlainItemText(x)
    requires OccursAt(s, Li(x), i)
    ensures ItemEnd(s, i) == Some(i + |Li(x)|)
  {
    var n := |LiAttrs|;
    SliceSplit(s, i, "<li" + LiAttrs + ">" + x, "</li>");
    SliceSplit(s, i, "<li" + LiAttrs + ">", x);
    SliceSplit(s, i, "<li" + LiAttrs, ">");
    SliceSplit(s, i, "<li", LiAttrs);
    LiAttrsNoTagEnd();
    ItemEndOf(s, i, LiAttrs, x);
  }

  lemma LiFirst(x: string)
    ensures Li(x)[0] == '<'
  {
  }

  lemma LiAttrsNoTagEnd()
    ensures '>' !in LiAttrs
  {
  }

  /** An element `<li` + attributes + `>` + text + `</li>` ends just after its own `</li>`. */
  lemma ItemEndOf(s: string, i: nat, attrs: string, x: string)
    requires '>' !in attrs && PlainItemText(x)
    requires OccursAt(s, "<li", i) && OccursAt(s, attrs, i + 3) && OccursAt(s, ">", i + 3 + |attrs|)
    requires OccursAt(s, x, i + 4 + |attrs|) && OccursAt(s, "</li>", i + 4 + |attrs| + |x|)
    ensures ItemEnd(s, i) == Some(i + 9 + |attrs| + |x|)
  {
    TagEndAt(s, i + 3, attrs);
    ItemCloseAfter(s, i, i + 3 + |attrs|, x);
  }

  /** Once the opening tag ends at `g`, the item ends just after the `</li>` that follows its text. */
  lemma ItemCloseAfter(s: string, i: nat, g: nat, x: string)
    requires OccursAt(s, "<li", i) && FindChar(s, '>', i + 3) == Some(g)
    requires PlainItemText(x) && OccursAt(s, x, g + 1) && OccursAt(s, "</li>", g + 1 + |x|)
    ensures ItemEnd(s, i) == Some(g + 6 + |x|)
  {
    NoCloseInside(s, g + 1, x);
    ItemEndAt(s, i, g, g + 1 + |x|);
  }

  /** Attributes without `>`, then `>`: the first `>` is the one after the attributes. */
  lemma TagEndAt(s: string, a: nat, attrs: string)
    requires '>' !in attrs && OccursAt(s, attrs, a) && OccursAt(s, ">", a + |attrs|)
    ensures FindChar(s, '>', a) == Some(a + |attrs|)
  {
    var g := a + |attrs|;
    SliceElems(s, a, attrs);
    assert s[g] == s[g..g + 1][0];
  }

  lemma ItemEndAt(s: string, i: nat, g: nat, k: nat)
    requires OccursAt(s, "<li", i) && FindChar(s, '>', i + 3) == Some(g) && FindFrom(s, "</li>", g + 1) == Some(k)
    ensures ItemEnd(s, i) == Some(k + 5)
  {
  }

  /** The first `</li>` after an item's text is the one that closes it. */
  lemma NoCloseInside(s: string, a: nat, x: string)
    requires PlainItemText(x)
    requires OccursAt(s, x, a) && OccursAt(s, "</li>", a + |x|)
    ensures FindFrom(s, "</li>", a) == Some(a + |x|)
  {
    var c := a + |x|;
    SliceElems(s, a, x);
    assert s[c] == s[c..c + 5][0] == '<';
    forall k | a <= k < c
      ensures !OccursAt(s, "</li>", k)
    {
      if k + 5 <= c {
        assert s[k..k + 5] == x[k - a..k - a + 5];
        assert !OccursAt(x, "</li>", k - a);
      } else if k + 5 <= |s| {
        assert s[k..k + 5][c - k] == s[c] == '<';
        assert "</li>"[c - k] != '<';
      }
    }
  }

  /** `item` recognises every well-formed list element of `s`. */
  ghost predicate FindsItems(item: (string, nat) -> Option<nat>, s: string) {
    forall j: nat, x :: PlainItemText(x) && OccursAt(s, Li(x), j) ==> item(s, j) == Some(j + |Li(x)|)
  }

  lemma ItemEndFindsItems(s: string)
    ensures FindsItems(ItemEnd, s)
  {
    forall j: nat, x | PlainItemText(x) && OccursAt(s, Li(x), j)
      ensures ItemEnd(s, j) == Some(j + |Li(x)|)
    {
      ItemEndOfLi(s, j, x);
    }
  }

  /** Whitespace then one more item: the run goes on past that item. */
  lemma RunEndStep(item: (string, nat) -> Option<nat>, s: string, e: nat, g: string, x: string, e2: nat)
    requires FindsItems(item, s)
    requires AllSpace(g) && PlainItemText(x)
    requires OccursAt(s, g, e) && OccursAt(s, Li(x), e + |g|) && e2 == e + |g| + |Li(x)|
    ensures RunEndBy(item, s, e) == RunEndBy(item, s, e2)
  {
    var j := e + |g|;
    assert SkipSpaces(s, e) == j by {
      SliceElems(s, e, g);
      LiFirst(x);
      assert s[j] == s[j..j + |Li(x)|][0];
    }
    assert item(s, j) == Some(e2);
    RunEndByStep(item, s, e, j, e2);
  }

  lemma RunEndByStep(item: (string, nat) -> Option<nat>, s: string, e: nat, j: nat, e2: nat)
    requires e < e2 <= |s| && SkipSpaces(s, e) == j && item(s, j) == Some(e2)
    ensures RunEndBy(item, s, e) == RunEndBy(item, s, e2)
  {
  }

  /** No further item after whitespace: the run ends here. */
  lemma RunEndHalts(item: (string, nat) -> Option<nat>, s: string, e: nat)
    requires e <= |s| && item(s, SkipSpaces(s, e)) == None
    ensures RunEndBy(item, s, e) == e
  {
  }

  /** From `e` to `stop`, each item `xs[k]` preceded by the whitespace `gaps[k]`, one after the other. */
  ghost predicate ItemsAt(s: string, e: nat, xs: seq<string>, gaps: seq<string>, stop: nat)
    decreases |xs|
  {
    |gaps| == |xs| &&
    if xs == [] then e == stop <= |s|
    else
      AllSpace(gaps[0]) && PlainItemText(xs[0])
      && OccursAt(s, gaps[0], e) && OccursAt(s, Li(xs[0]), e + |gaps[0]|)
      && ItemsAt(s, e + |gaps[0]| + |Li(xs[0])|, xs[1..], gaps[1..], stop)
  }

  /** The rendered tail, laid out in `s`, is a sequence of items in the sense of `ItemsAt`. */
  lemma {:induction false} ItemTailItems(s: string, e: nat, xs: seq<string>, gaps: seq<string>)
    requires |gaps| == |xs|
    requires forall k :: 0 <= k < |xs| ==> PlainItemText(xs[k])
    requires forall k :: 0 <= k < |gaps| ==> AllSpace(gaps[k])
    requires OccursAt(s, ItemTail(xs, gaps), e)
    ensures ItemsAt(s, e, xs, gaps, e + |ItemTail(xs, gaps)|)
    decreases |xs|
  {
    if xs != [] {
      var g := gaps[0];
      var rest := ItemTail(xs[1..], gaps[1..]);
      var e2 := e + |g| + |Li(xs[0])|;
      assert ItemTail(xs, gaps) == g + Li(xs[0]) + rest;
      OccursParts(s, e, g, Li(xs[0]), rest);
      assert forall k :: 0 <= k < |xs[1..]| ==> PlainItemText(xs[1..][k]) by {
        forall k | 0 <= k < |xs[1..]| ensures PlainItemText(xs[1..][k]) {
          assert xs[1..][k] == xs[k + 1];
        }
      }
      assert forall k :: 0 <= k < |gaps[1..]| ==> AllSpace(gaps[1..][k]) by {
        forall k | 0 <= k < |gaps[1..]| ensures AllSpace(gaps[1..][k]) {
          assert gaps[1..][k] == gaps[k + 1];
        }
      }
      ItemTailItems(s, e2, xs[1..], gaps[1..]);
      assert e2 + |rest| == e + |ItemTail(xs, gaps)|;
    }
  }

  /** Conversely, a sequence of items in the sense of `ItemsAt` is the rendered tail, laid out in `s`. */
  lemma {:induction false} ItemsAtTail(s: string, e: nat, xs: seq<string>, gaps: seq<string>, stop: nat)
    requires ItemsAt(s, e, xs, gaps, stop)
    ensures |gaps| == |xs| && stop == e + |ItemTail(xs, gaps)| && OccursAt(s, ItemTail(xs, gaps), e)
    decreases |xs|
  {
    if xs != [] {
      var g := gaps[0];
      ItemsAtTail(s, e + |g| + |Li(xs[0])|, xs[1..], gaps[1..], stop);
      var rest := ItemTail(xs[1..], gaps[1..]);
      assert ItemTail(xs, gaps) == g + Li(xs[0]) + rest;
      SliceJoin(s, e, g, Li(xs[0]));
      SliceJoin(s, e, g + Li(xs[0]), rest);
    }
  }

  /** ... and each of its items and gaps is of the required form. */
  lemma {:induction false} ItemsAtParts(s: string, e: nat, xs: seq<string>, gaps: seq<string>, stop: nat)
    requires ItemsAt(s, e, xs, gaps, stop)
    ensures |gaps| == |xs|
    ensures forall k :: 0 <= k < |xs| ==> PlainItemText(xs[k]) && AllSpace(gaps[k])
    decreases |xs|
  {
    if xs != [] {
      ItemsAtParts(s, e + |gaps[0]| + |Li(xs[0])|, xs[1..], gaps[1..], stop);
      forall k | 0 < k < |xs|
        ensures PlainItemText(xs[k]) && AllSpace(gaps[k])
      {
        assert xs[k] == xs[1..][k - 1] && gaps[k] == gaps[1..][k - 1];
      }
    }
  }

  /** After an item, further items separated by whitespace extend the same run up to `stop`. */
  lemma {:induction false} RunEndOverTail(item: (string, nat) -> Option<nat>, s: string, e: nat, xs: seq<string>, gaps: seq<string>, stop: nat)
    requires FindsItems(item, s)
    requires ItemsAt(s, e, xs, gaps, stop) && stop <= |s|
    requires item(s, SkipSpaces(s, stop)) == None
    ensures e <= |s| && RunEndBy(item, s, e) == stop
    decreases |xs|
  {
    if xs == [] {
      RunEndHalts(item, s, e);
    } else {
      var e2 := e + |gaps[0]| + |Li(xs[0])|;
      RunEndStep(item, s, e, gaps[0], xs[0], e2);
      RunEndOverTail(item, s, e2, xs[1..], gaps[1..], stop);
    }
  }

  /**
    Adjacent list items separated only by whitespace, and not followed (after whitespace)
    by another item, form one run: the whole run is wrapped in a single `<ul>`.
   */
  lemma ListRunWrapped(s: string, i: nat, x: string, xs: seq<string>, gaps: seq<string>, r: nat)
    requires PlainItemText(x) && OccursAt(s, Li(x), i)
    requires ItemsAt(s, i + |Li(x)|, xs, gaps, r) && i + |Li(x)| <= r <= |s|
    requires !OccursAt(s, "<li", SkipSpaces(s, r))
    ensures ListRunAt(s, i) == Some(Hit(r, Ul(s[i..r])))
  {
    assert ItemEnd(s, SkipSpaces(s, r)) == None;
    ItemEndFindsItems(s);
    ListRunWrappedBy(ItemEnd, s, i, x, xs, gaps, r);
  }

  lemma ListRunWrappedBy(item: (string, nat) -> Option<nat>, s: string, i: nat, x: string, xs: seq<string>, gaps: seq<string>, r: nat)
    requires FindsItems(item, s)
    requires PlainItemText(x) && OccursAt(s, Li(x), i)
    requires ItemsAt(s, i + |Li(x)|, xs, gaps, r) && i + |Li(x)| <= r <= |s|
    requires item(s, SkipSpaces(s, r)) == None
    ensures ListRunBy(item, s, i) == Some(Hit(r, Ul(s[i..r])))
  {
    var e := i + |Li(x)|;
    LiFirst(x);
    assert item(s, i) == Some(e) && e <= |s|;
    RunEndOverTail(item, s, e, xs, gaps, r);
    ListRunByOf(item, s, i, e, r);
  }

  lemma ListRunByOf(item: (string, nat) -> Option<nat>, s: string, i: nat, e: nat, r: nat)
    requires item(s, i) == Some(e) && i < e <= |s| && RunEndBy(item, s, e) == r
    ensures ListRunBy(item, s, i) == Some(Hit(r, Ul(s[i..r])))
  {
  }

  // ---------------------------------------------------------------------------
  // Stage 5: blockquotes

  const QuoteOpen := "<blockquote style=\"border-left: 4px solid #3498db; padding: 16px 20px; margin: 16px 0; background: #f8fafb; font-style: italic; color: #555; border-radius: 0 8px 8px 0;\">"

  function Quote(text: string): string {
    QuoteOpen + text + "</blockquote>"
  }

  /** `/^>\s*(.+)$/gm` at `i`. */
  function QuoteAt(s: string, i: nat): (h: Option<Hit>)
    ensures h.Some? ==> i < h.value.end <= |s|
  {
    if !(i < |s| && AtLineStart(s, i) && s[i] == '>') then None
    else LineTailAt(s, i + 1, 0, Quote)
  }

  function ConvertBlockquotes(s: string): string {
    ReplaceAll(s, QuoteAt)
  }

  /** A line ">" + optional blanks + text becomes one blockquote holding the text. */
  lemma QuoteLine(s: string, i: nat, blanks: string, text: string)
    requires AtLineStart(s, i)
    requires forall k :: 0 <= k < |blanks| ==> IsSpace(blanks[k]) && !IsLineTerminator(blanks[k])
    requires text != [] && !IsSpace(text[0]) && forall k :: 0 <= k < |text| ==> !IsLineTerminator(text[k])
    requires OccursAt(s, ">", i) && OccursAt(s, blanks, i + 1) && OccursAt(s, text, i + 1 + |blanks|)
    requires i + 1 + |blanks| + |text| == |s| || IsLineTerminator(s[i + 1 + |blanks| + |text|])
    ensures QuoteAt(s, i) == Some(Hit(i + 1 + |blanks| + |text|, Quote(text)))
  {
    assert s[i] == '>' by {
      assert s[i] == s[i..i + 1][0];
    }
    assert LineTailAt(s, i + 1, 0, Quote) == Some(Hit(i + 1 + |blanks| + |text|, Quote(text))) by {
      SliceElems(s, i + 1, blanks);
      LineTail(s, i + 1, 0, |blanks|, text, Quote);
    }
  }

  // ---------------------------------------------------------------------------
  // Stage 6: links

  const AnchorStyle := "color: #3498db; text-decoration: none; border-bottom: 1px dotted #3498db;"

  function Anchor(href: string, text: string): string {
    "<a href=\"" + href + "\" style=\"" + AnchorStyle + "\" target=\"_blank\">" + text + "</a>"
  }

  predicate IsScriptUrl(u: string) {
    StartsWith(AsciiLower(u), "javascript:")
  }

  /** The link target: trimmed, and `#` in place of any `javascript:` URL, whatever its case. */
  function SafeUrl(url: string): (r: string)
    ensures IsScriptUrl(Trim(url)) ==> r == "#"
    ensures !IsScriptUrl(Trim(url)) ==> r == Trim(url)
    ensures !IsScriptUrl(r)
  {
    var u := Trim(url);
    if IsScriptUrl(u) then "#" else u
  }

  /** A link's rendering: the anchor around the text, pointing at the sanitised URL. */
  function LinkHtml(text: string, url: string): string {
    Anchor(SafeUrl(url), text)
  }

  /**
    Where `/\[([^\]]+)\]\(([^)]+)\)/` matches at `i`: the index `j` of the `]` that closes the
    text and the index `k` of the `)` that closes the URL.
   */
  function LinkSpan(s: string, i: nat): (r: Option<(nat, nat)>)
    ensures r.Some? ==> i + 1 < r.value.0 && r.value.0 + 2 < r.value.1 < |s|
    ensures r.Some? ==> s[i] == '[' && s[r.value.0] == ']' && s[r.value.0 + 1] == '(' && s[r.value.1] == ')'
    ensures r.Some? ==> forall m :: i + 1 <= m < r.value.0 ==> s[m] != ']'
    ensures r.Some? ==> forall m :: r.value.0 + 2 <= m < r.value.1 ==> s[m] != ')'
  {
    if !(i < |s| && s[i] == '[') then None
    else
      match FindChar(s, ']', i + 1)
      case None => None
      case Some(j) =>
        if j == i + 1 || j + 1 == |s| || s[j + 1] != '(' then None
        else
          match FindChar(s, ')', j + 2)
          case None => None
          case Some(k) => if k == j + 2 then None else Some((j, k))
  }

  /** The link expression at `i`, the text and the URL rendered by `render`. */
  function LinkWith(render: (string, string) -> string, s: string, i: nat): (h: Option<Hit>)
    ensures h.Some? ==> i < h.value.end <= |s|
  {
    match LinkSpan(s, i)
    case None => None
    case Some((j, k)) => Some(Hit(k + 1, render(s[i + 1..j], s[j + 2..k])))
  }

  function LinkAt(s: string, i: nat): (h: Option<Hit>)
    ensures h.Some? ==> i < h.value.end <= |s|
  {
    LinkWith(LinkHtml, s, i)
  }

  function ConvertLinks(s: string): string {
    ReplaceAll(s, LinkAt)
  }

  /** `[text](url)`, with no `]` in the text and no `)` in the URL, becomes an anchor carrying the text and the sanitised URL. */
  lemma LinkConverted(s: string, i: nat, text: string, url: string)
    requires text != [] && ']' !in text
    requires url != [] && ')' !in url
    requires OccursAt(s, "[", i) && OccursAt(s, text, i + 1) && OccursAt(s, "](", i + 1 + |text|)
    requires OccursAt(s, url, i + 3 + |text|) && OccursAt(s, ")", i + 3 + |text| + |url|)
    ensures LinkAt(s, i) == Some(Hit(i + |text| + |url| + 4, LinkHtml(text, url)))
  {
    LinkConvertedWith(LinkHtml, s, i, text, url);
  }

  lemma LinkConvertedWith(render: (string, string) -> string, s: string, i: nat, text: string, url: string)
    requires text != [] && ']' !in text
    requires url != [] && ')' !in url
    requires OccursAt(s, "[", i) && OccursAt(s, text, i + 1) && OccursAt(s, "](", i + 1 + |text|)
    requires OccursAt(s, url, i + 3 + |text|) && OccursAt(s, ")", i + 3 + |text| + |url|)
    ensures LinkWith(render, s, i) == Some(Hit(i + |text| + |url| + 4, render(text, url)))
  {
    var j := i + 1 + |text|;
    var k := j + 2 + |url|;
    assert s[i] == s[i..i + 1][0];
    assert s[k] == s[k..k + 1][0];
    assert s[j] == s[j..j + 2][0] && s[j + 1] == s[j..j + 2][1];
    assert forall m :: i + 1 <= m < j ==> s[m] != ']' by {
      SliceElems(s, i + 1, text);
    }
    assert forall m :: j + 2 <= m < k ==> s[m] != ')' by {
      SliceElems(s, j + 2, url);
    }
    LinkSpanAt(s, i, j, k);
  }

  /** Conversely, brackets where `LinkSpan` requires them make the expression span `[i, k + 1)`. */
  lemma LinkSpanAt(s: string, i: nat, j: nat, k: nat)
    requires i + 1 < j && j + 2 < k < |s|
    requires s[i] == '[' && s[j] == ']' && s[j + 1] == '(' && s[k] == ')'
    requires forall m :: i + 1 <= m < j ==> s[m] != ']'
    requires forall m :: j + 2 <= m < k ==> s[m] != ')'
    ensures LinkSpan(s, i) == Some((j, k))
  {
    assert FindChar(s, ']', i + 1) == Some(j);
    assert FindChar(s, ')', j + 2) == Some(k);
  }
}

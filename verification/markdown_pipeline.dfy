/**
  Stages 8 to 10 of the converter and the converter itself: paragraphs, clean-up, the
  style sheet, and `convertToWeChatHTML`, which runs every stage in order.
 */
module MdPipeline {
  import opened Wrappers
  import opened Text
  import opened Rewrite
  import opened MdInline
  import opened MdTables

  // ---------------------------------------------------------------------------
  // Paragraphs: `/\n\s*\n/g`

  const POpen := "<p style=\"margin: 16px 0; line-height: 1.8; text-align: justify; color: #333;\">"

  /** What replaces a blank line: close the paragraph and open the next. */
  const ParaBreak := "</p>" + POpen

  predicate IsNewline(c: char) {
    c == '\n'
  }

  /**
    Where `\n\s*\n` matches at `i`: a newline, then the whitespace run after it taken whole
    and given back until a newline follows, so the match ends after the LAST newline of
    that run.
   */
  function ParaBreakEnd(s: string, i: nat): (e: Option<nat>)
    ensures e.Some? ==> i + 2 <= e.value <= |s|
    ensures e.Some? ==> s[i] == '\n' && s[e.value - 1] == '\n'
    ensures e.Some? ==> forall k :: i < k < e.value ==> IsSpace(s[k])
    ensures e.Some? ==> forall k :: e.value <= k < SkipSpaces(s, e.value) ==> s[k] != '\n'
  {
    if i < |s| && s[i] == '\n' then
      match GreedySpacesThen(s, i + 1, 0, IsNewline)
      case None => None
      case Some(r) =>
        assert forall k :: r < k < SkipSpaces(s, r + 1) ==> s[k] != '\n' by {
          SkipSpacesFrom(s, i + 1, r + 1);
        }
        Some(r + 1)
    else None
  }

  function ParaBreakAt(s: string, i: nat): (h: Option<Hit>)
    ensures h.Some? ==> i < h.value.end <= |s|
  {
    match ParaBreakEnd(s, i)
    case None => None
    case Some(e) => Some(Hit(e, ParaBreak))
  }

  /** `convertParagraphs` */
  function ConvertParagraphs(s: string): string {
    POpen + ReplaceAll(s, ParaBreakAt) + "</p>"
  }

  /** Skipping whitespace from inside a whitespace run ends where skipping from its start does. */
  lemma SkipSpacesFrom(s: string, a: nat, b: nat)
    requires a <= |s| && a <= b <= SkipSpaces(s, a)
    ensures SkipSpaces(s, b) == SkipSpaces(s, a)
  {
  }

  /** Every newline is followed by a line holding something other than whitespace. */
  predicate NoBlankLine(s: string) {
    forall i :: 0 <= i < |s| && s[i] == '\n' ==> forall k :: i < k < SkipSpaces(s, i + 1) ==> s[k] != '\n'
  }

  /** Text without a blank line is one paragraph, unchanged. */
  lemma OneParagraph(s: string)
    requires NoBlankLine(s)
    ensures ConvertParagraphs(s) == POpen + s + "</p>"
  {
    forall j | 0 <= j < |s|
      ensures ParaBreakEnd(s, j).None?
    {
    }
    NoMatchCopies(s, 0, ParaBreakAt);
  }

  /**
    A newline, a whitespace-only gap ending in a newline, and no further newline before the
    next non-whitespace character: the whole stretch becomes one paragraph break.
   */
  lemma BlankLineBreaks(s: string, i: nat, gap: string)
    requires OccursAt(s, "\n", i) && OccursAt(s, gap + "\n", i + 1) && AllSpace(gap)
    requires forall k :: i + |gap| + 2 <= k < SkipSpaces(s, i + |gap| + 2) ==> s[k] != '\n'
    ensures ParaBreakAt(s, i) == Some(Hit(i + |gap| + 2, ParaBreak))
  {
    var r := i + 1 + |gap|;
    assert i < r < |s| && s[i] == '\n' && s[r] == '\n' && forall k :: i < k <= r ==> IsSpace(s[k]) by {
      assert s[i] == s[i..i + 1][0];
      SliceElems(s, i + 1, gap + "\n");
    }
    BreakAt(s, i, r);
  }

  lemma BreakAt(s: string, i: nat, r: nat)
    requires i < r < |s| && s[i] == '\n' && s[r] == '\n'
    requires forall k :: i < k <= r ==> IsSpace(s[k])
    requires forall k :: r < k < SkipSpaces(s, r + 1) ==> s[k] != '\n'
    ensures ParaBreakAt(s, i) == Some(Hit(r + 1, ParaBreak))
  {
    BreakEndAt(s, i, r);
  }

  /** The index form: newlines at `i` and `r`, whitespace between, no newline in the whitespace after `r`. */
  lemma BreakEndAt(s: string, i: nat, r: nat)
    requires i < r < |s| && s[i] == '\n' && s[r] == '\n'
    requires forall k :: i < k <= r ==> IsSpace(s[k])
    requires forall k :: r < k < SkipSpaces(s, r + 1) ==> s[k] != '\n'
    ensures ParaBreakEnd(s, i) == Some(r + 1)
  {
    var q := SkipSpaces(s, r + 1);
    SkipSpacesOver(s, i + 1, r + 1);
    NoNewlineThrough(s, r, q);
    LastNewline(s, i + 1, r, q);
    BreakEndFrom(s, i, q, r);
  }

  /** The whitespace skipped after `r`, and the character that stops it, hold no newline. */
  lemma NoNewlineThrough(s: string, r: nat, q: nat)
    requires r < |s| && q == SkipSpaces(s, r + 1)
    requires forall k :: r < k < q ==> s[k] != '\n'
    ensures forall k :: r < k <= q && k < |s| ==> s[k] != '\n'
  {
    forall k | r < k <= q && k < |s|
      ensures s[k] != '\n'
    {
      if k == q {
        assert !IsSpace(s[q]);
      }
    }
  }

  /** The greedy whitespace after the newline at `i` reaches `q`, and the last newline up to `q` is at `r`. */
  lemma BreakEndFrom(s: string, i: nat, q: nat, r: nat)
    requires i < |s| && s[i] == '\n' && SkipSpaces(s, i + 1) == q
    requires LastAccepted(s, i + 1, q, IsNewline) == Some(r)
    ensures ParaBreakEnd(s, i) == Some(r + 1)
  {
    assert GreedySpacesThen(s, i + 1, 0, IsNewline) == Some(r);
  }

  /** Skipping from `a` passes over an all-whitespace stretch `[a, b)`. */
  lemma {:induction false} SkipSpacesOver(s: string, a: nat, b: nat)
    requires a <= b <= |s|
    requires forall k :: a <= k < b ==> IsSpace(s[k])
    ensures SkipSpaces(s, a) == SkipSpaces(s, b)
    decreases b - a
  {
    if a < b {
      SkipSpacesOver(s, a + 1, b);
    }
  }

  lemma LastNewline(s: string, lo: nat, r: nat, q: nat)
    requires lo <= r <= q <= |s| && r < |s| && s[r] == '\n'
    requires forall k :: r < k <= q && k < |s| ==> s[k] != '\n'
    ensures LastAccepted(s, lo, q, IsNewline) == Some(r)
    decreases q
  {
    if q > r {
      LastNewline(s, lo, r, q - 1);
    }
  }

  // ---------------------------------------------------------------------------
  // Clean-up

  /** `<p[^>]*>` at `i`: the index just past its `>`, which is the first `>` after `<p`. */
  function POpenEnd(s: string, i: nat): (r: Option<nat>)
    ensures r.Some? ==> OccursAt(s, "<p", i) && i + 3 <= r.value <= |s| && s[r.value - 1] == '>'
    ensures r.Some? ==> forall k :: i + 2 <= k < r.value - 1 ==> s[k] != '>'
  {
    if !OccursAt(s, "<p", i) then None
    else
      match FindChar(s, '>', i + 2)
      case None => None
      case Some(g) => Some(g + 1)
  }

  /** Where `<p[^>]*>\s*<\/p>` matches at `i`: the end of the match. */
  function EmptyParaEnd(s: string, i: nat): (r: Option<nat>)
    ensures r.Some? ==> POpenEnd(s, i).Some? && POpenEnd(s, i).value + 4 <= r.value <= |s|
    ensures r.Some? ==> OccursAt(s, "</p>", r.value - 4)
    ensures r.Some? ==> forall k :: POpenEnd(s, i).value <= k < r.value - 4 ==> IsSpace(s[k])
  {
    match POpenEnd(s, i)
    case None => None
    case Some(g) =>
      var w := SkipSpaces(s, g);
      if OccursAt(s, "</p>", w) then Some(w + 4) else None
  }

  /** `<p[^>]*>\s*<\/p>`, replaced by nothing. */
  function EmptyParaAt(s: string, i: nat): (h: Option<Hit>)
    ensures h.Some? ==> i < h.value.end <= |s| && h.value.out == []
  {
    match EmptyParaEnd(s, i)
    case None => None
    case Some(e) => Some(Hit(e, []))
  }

  /** `\s+`, replaced by one space. */
  function SpaceRunAt(s: string, i: nat): (h: Option<Hit>)
    ensures h.Some? ==> i < h.value.end <= |s| && h.value.out == " "
  {
    if i < |s| && IsSpace(s[i]) then Some(Hit(SkipSpaces(s, i), " ")) else None
  }

  /** The elements `cleanupHTML` lifts out of a paragraph: `h1`..`h6`, or one named element. */
  datatype Block = Heading | Named(name: string)

  /** Length of the opening `<h1`..`<h6` or `<name`. */
  function OpenLen(b: Block): nat {
    match b
    case Heading => 3
    case Named(n) => |n| + 1
  }

  /** Length of the closing `</h1>`..`</h6>` or `</name>`. */
  function CloseLen(b: Block): nat {
    match b
    case Heading => 5
    case Named(n) => |n| + 3
  }

  predicate IsHeadingDigit(c: char) {
    '1' <= c <= '6'
  }

  /** `<h[1-6]` or `<name` at `k`. */
  predicate OpensAt(b: Block, s: string, k: nat) {
    k + OpenLen(b) <= |s|
    && match b
       case Heading => OccursAt(s, "<h", k) && IsHeadingDigit(s[k + 2])
       case Named(n) => OccursAt(s, "<" + n, k)
  }

  /** `<\/h[1-6]>` or `</name>` at `k`; the digit need not match the opening one. */
  predicate ClosesAt(b: Block, s: string, k: nat) {
    k + CloseLen(b) <= |s|
    && match b
       case Heading => OccursAt(s, "</h", k) && IsHeadingDigit(s[k + 3]) && s[k + 4] == '>'
       case Named(n) => OccursAt(s, "</" + n + ">", k)
  }

  /** `</p>` at `k`. */
  predicate ParaCloseAt(s: string, k: nat) {
    OccursAt(s, "</p>", k)
  }

  /** A test for an opening tag at an index; every opening tag begins with `<`. */
  type OpenTest = f: (string, nat) -> bool | forall s: string, k: nat :: f(s, k) ==> k < |s| && s[k] == '<'
    witness (s: string, k: nat) => false

  /**
    A test for the tail `<\/TAG>\s*<\/p>` of the unwrap expression at an index: where its
    `</p>` is, if it matches there. Every closing tag begins with `<`.
   */
  type TailTest = f: (string, nat) -> Option<nat>
    | forall s: string, k: nat :: f(s, k).Some? ==> k < |s| && s[k] == '<' && k < f(s, k).value <= |s| - 4
    witness (s: string, k: nat) => None

  /** What the unwrap expression needs to know of an element: its opening tag `<TAG` and how long that is, and its tail. */
  datatype Tag = Tag(opens: OpenTest, openLen: nat, tail: TailTest)

  /** The closing tag of `b` at `k`, then `\s*`, then `</p>`: the index of that `</p>`. */
  function CloseTail(b: Block, s: string, k: nat): (r: Option<nat>)
    ensures r.Some? ==> k < |s| && s[k] == '<' && k < r.value && ParaCloseAt(s, r.value)
  {
    if ClosesAt(b, s, k) && ParaCloseAt(s, SkipSpaces(s, k + CloseLen(b))) then
      ClosesAtLt(b, s, k);
      Some(SkipSpaces(s, k + CloseLen(b)))
    else None
  }

  function TagOf(b: Block): (t: Tag)
    ensures t.openLen == OpenLen(b)
    ensures forall s: string, k: nat :: t.opens(s, k) == OpensAt(b, s, k)
    ensures forall s: string, k: nat :: t.tail(s, k) == CloseTail(b, s, k)
  {
    OpensAtLtAll(b);
    Tag((s: string, k: nat) => OpensAt(b, s, k), OpenLen(b), (s: string, k: nat) => CloseTail(b, s, k))
  }

  /**
    `.*?` followed by the tail of the expression: the first index from `k` where the tail
    matches. Without the `s` flag `.` does not cross a line terminator.
   */
  function LazyClose(t: Tag, dotAll: bool, s: string, k: nat): (r: Option<nat>)
    requires k <= |s|
    ensures r.Some? ==> k <= r.value && t.tail(s, r.value).Some?
    ensures r.Some? ==> forall j :: k <= j < r.value ==> t.tail(s, j).None?
    ensures r.Some? ==> forall j :: k <= j < r.value ==> dotAll || !IsLineTerminator(s[j])
    decreases |s| - k
  {
    if t.tail(s, k).Some? then Some(k)
    else if k < |s| && (dotAll || !IsLineTerminator(s[k])) then LazyClose(t, dotAll, s, k + 1)
    else None
  }

  /**
    `<TAG[^>]*>.*?<\/TAG>\s*<\/p>` from the opening tag at `a`: the index of the closing tag
    the lazy `.*?` stops at.
   */
  function ElementClose(t: Tag, dotAll: bool, s: string, a: nat): (r: Option<nat>)
    requires a + t.openLen <= |s|
    ensures r.Some? ==> a + t.openLen < r.value && t.tail(s, r.value).Some?
    ensures FindChar(s, '>', a + t.openLen).Some? ==> r == LazyClose(t, dotAll, s, FindChar(s, '>', a + t.openLen).value + 1)
  {
    match FindChar(s, '>', a + t.openLen)
    case None => None
    case Some(g2) => LazyClose(t, dotAll, s, g2 + 1)
  }

  /**
    Where `<p[^>]*>(\s*<TAG[^>]*>.*?<\/TAG>\s*)<\/p>` matches at `i`: the group is `[g, e)`,
    `g` just past the `<p…>` tag, and the match ends with the `</p>` at `e`.
   */
  function UnwrapSpan(t: Tag, dotAll: bool, s: string, i: nat): (r: Option<(nat, nat)>)
    ensures r.Some? ==> POpenEnd(s, i) == Some(r.value.0) && r.value.0 < r.value.1
    ensures r.Some? ==> r.value.1 + 4 <= |s|
    ensures r.Some? ==> t.opens(s, SkipSpaces(s, r.value.0))
    ensures POpenEnd(s, i).Some? ==>
              var g := POpenEnd(s, i).value;
              var a := SkipSpaces(s, g);
              a + t.openLen <= |s| && t.opens(s, a) && ElementClose(t, dotAll, s, a).Some? ==>
                r == Some((g, t.tail(s, ElementClose(t, dotAll, s, a).value).value))
  {
    match POpenEnd(s, i)
    case None => None
    case Some(g) =>
      var a := SkipSpaces(s, g);
      if !(a + t.openLen <= |s| && t.opens(s, a)) then None
      else
        match ElementClose(t, dotAll, s, a)
        case None => None
        case Some(c) => Some((g, t.tail(s, c).value))
  }

  /** The unwrap expression at `i`, replaced by its group: the paragraph tags go, the content stays. */
  function UnwrapAt(t: Tag, dotAll: bool, s: string, i: nat): (h: Option<Hit>)
    ensures h.Some? ==> i < h.value.end <= |s|
    ensures UnwrapSpan(t, dotAll, s, i).Some? ==>
              var (g, e) := UnwrapSpan(t, dotAll, s, i).value;
              h == Some(Hit(e + 4, s[g..e]))
  {
    match UnwrapSpan(t, dotAll, s, i)
    case None => None
    case Some((g, e)) => Some(Hit(e + 4, s[g..e]))
  }

  /** The unwrap expression for one kind of element, as a matcher. */
  function Unwrapper(b: Block, dotAll: bool): Matcher {
    (s: string, i: nat) => UnwrapAt(TagOf(b), dotAll, s, i)
  }

  /**
    `cleanupHTML`: drop empty paragraphs, collapse every whitespace run to one space, then
    lift headings (without the `s` flag) and lists, quotes, code blocks and tables (with it)
    out of the paragraphs that wrap them.
   */
  function CleanupHtml(s: string): string {
    var noEmpty := ReplaceAll(s, EmptyParaAt);
    var collapsed := ReplaceAll(noEmpty, SpaceRunAt);
    var h := ReplaceAll(collapsed, Unwrapper(Heading, false));
    var ul := ReplaceAll(h, Unwrapper(Named("ul"), true));
    var ol := ReplaceAll(ul, Unwrapper(Named("ol"), true));
    var quote := ReplaceAll(ol, Unwrapper(Named("blockquote"), true));
    var pre := ReplaceAll(quote, Unwrapper(Named("pre"), true));
    ReplaceAll(pre, Unwrapper(Named("table"), true))
  }

  // Clean-up, properties.

  /** `<p…>`, whitespace, `</p>` at `i` is an empty paragraph, removed whole. */
  lemma EmptyParagraph(s: string, i: nat, attrs: string, gap: string)
    requires '>' !in attrs && AllSpace(gap)
    requires OccursAt(s, "<p" + attrs + ">", i) && OccursAt(s, gap + "</p>", i + 3 + |attrs|)
    ensures EmptyParaAt(s, i) == Some(Hit(i + 7 + |attrs| + |gap|, []))
  {
    var g := i + 3 + |attrs|;
    POpenEndAt(s, i, attrs);
    SliceSplit(s, g, gap, "</p>");
    assert s[g + |gap|] == s[g + |gap|..g + |gap| + 4][0] == '<';
    GapThenTag(s, g, gap);
  }

  /** `<p` + attributes + `>` at `i`: the opening tag ends just after that `>`. */
  lemma POpenEndAt(s: string, i: nat, attrs: string)
    requires '>' !in attrs && OccursAt(s, "<p" + attrs + ">", i)
    ensures POpenEnd(s, i) == Some(i + 3 + |attrs|)
  {
    OccursParts(s, i, "<p", attrs, ">");
    TagEndAt(s, i + 2, attrs);
  }

  /** Whitespace `gap` at `g` followed by `<`: skipping whitespace from `g` stops at the `<`. */
  lemma GapThenTag(s: string, g: nat, gap: string)
    requires AllSpace(gap) && OccursAt(s, gap, g) && g + |gap| < |s| && s[g + |gap|] == '<'
    ensures SkipSpaces(s, g) == g + |gap|
  {
    forall k | g <= k < g + |gap|
      ensures IsSpace(s[k])
    {
      assert s[k] == gap[k - g];
    }
    SkipSpacesOver(s, g, g + |gap|);
  }

  /**
    A paragraph that wraps one element: `<p…>`, whitespace `gap1`, the element (opening tag
    with attributes `tattrs`, a `body` without tags, tail up to the `</p>` at `e`). The group
    `[g, e)` replaces the whole match: the paragraph tags go, the element and the whitespace
    around it stay. Without the `s` flag the body must not cross a line.
   */
  lemma UnwrapBlock(t: Tag, dotAll: bool, s: string, i: nat, pattrs: string, gap1: string, tattrs: string, body: string,
                    g: nat, a: nat, k: nat, c: nat, e: nat)
    requires '>' !in pattrs && '>' !in tattrs && '<' !in body && AllSpace(gap1)
    requires dotAll || forall j :: 0 <= j < |body| ==> !IsLineTerminator(body[j])
    requires g == i + 3 + |pattrs| && a == g + |gap1| && k == a + t.openLen + |tattrs| + 1 && c == k + |body|
    requires OccursAt(s, "<p" + pattrs + ">", i) && OccursAt(s, gap1, g)
    requires t.opens(s, a) && OccursAt(s, tattrs + ">" + body, a + t.openLen)
    requires t.tail(s, c) == Some(e)
    ensures UnwrapAt(t, dotAll, s, i) == Some(Hit(e + 4, s[g..e]))
  {
    POpenEndAt(s, i, pattrs);
    GapThenTag(s, g, gap1);
    ElementAt(t, dotAll, s, a, tattrs, body, k, c);
    UnwrapAtIs(t, dotAll, s, i, g, a, c, e);
  }

  lemma UnwrapAtIs(t: Tag, dotAll: bool, s: string, i: nat, g: nat, a: nat, c: nat, e: nat)
    requires POpenEnd(s, i) == Some(g) && SkipSpaces(s, g) == a
    requires a + t.openLen <= |s| && t.opens(s, a)
    requires ElementClose(t, dotAll, s, a) == Some(c)
    requires t.tail(s, c) == Some(e)
    ensures UnwrapAt(t, dotAll, s, i) == Some(Hit(e + 4, s[g..e]))
  {
    UnwrapSpanIs(t, dotAll, s, i, g, a, c, e);
    UnwrapAtOfSpan(t, dotAll, s, i, g, e);
  }

  lemma UnwrapSpanIs(t: Tag, dotAll: bool, s: string, i: nat, g: nat, a: nat, c: nat, e: nat)
    requires POpenEnd(s, i) == Some(g) && SkipSpaces(s, g) == a
    requires a + t.openLen <= |s| && t.opens(s, a)
    requires ElementClose(t, dotAll, s, a) == Some(c)
    requires t.tail(s, c) == Some(e)
    ensures UnwrapSpan(t, dotAll, s, i) == Some((g, e))
  {
  }

  lemma UnwrapAtOfSpan(t: Tag, dotAll: bool, s: string, i: nat, g: nat, e: nat)
    requires UnwrapSpan(t, dotAll, s, i) == Some((g, e))
    ensures UnwrapAt(t, dotAll, s, i) == Some(Hit(e + 4, s[g..e]))
  {
  }

  /** The element part of `UnwrapBlock`: from its opening tag at `a`, the lazy match stops at the tail at `c`. */
  lemma ElementAt(t: Tag, dotAll: bool, s: string, a: nat, tattrs: string, body: string, k: nat, c: nat)
    requires '>' !in tattrs && '<' !in body
    requires dotAll || forall j :: 0 <= j < |body| ==> !IsLineTerminator(body[j])
    requires k == a + t.openLen + |tattrs| + 1 && c == k + |body|
    requires OccursAt(s, tattrs + ">" + body, a + t.openLen)
    requires t.tail(s, c).Some?
    ensures ElementClose(t, dotAll, s, a) == Some(c)
  {
    TagThenBody(s, a + t.openLen, tattrs, body);
    BodyThenTail(t, dotAll, s, k, body, c);
    ElementCloseIs(t, dotAll, s, a, a + t.openLen + |tattrs|, k, c);
  }

  /** A body without tags, then the tail: the lazy match stops at the tail. */
  lemma BodyThenTail(t: Tag, dotAll: bool, s: string, k: nat, body: string, c: nat)
    requires '<' !in body && OccursAt(s, body, k) && c == k + |body|
    requires dotAll || forall j :: 0 <= j < |body| ==> !IsLineTerminator(body[j])
    requires t.tail(s, c).Some?
    ensures LazyClose(t, dotAll, s, k) == Some(c)
  {
    BodyHasNoClose(t, dotAll, s, k, body);
    LazyCloseAt(t, dotAll, s, k, c);
  }

  lemma ElementCloseIs(t: Tag, dotAll: bool, s: string, a: nat, g: nat, k: nat, c: nat)
    requires a + t.openLen <= |s| && FindChar(s, '>', a + t.openLen) == Some(g) && k == g + 1
    requires LazyClose(t, dotAll, s, k) == Some(c)
    ensures ElementClose(t, dotAll, s, a) == Some(c)
  {
  }

  /** A tag's attributes, its `>` and a body after them: the tag ends where the body begins. */
  lemma TagThenBody(s: string, x: nat, attrs: string, body: string)
    requires '>' !in attrs && OccursAt(s, attrs + ">" + body, x)
    ensures x + |attrs| < |s|
    ensures FindChar(s, '>', x) == Some(x + |attrs|) && OccursAt(s, body, x + |attrs| + 1)
  {
    OccursParts(s, x, attrs, ">", body);
    TagEndAt(s, x, attrs);
  }

  lemma OpensAtLtAll(b: Block)
    ensures forall s: string, k: nat :: OpensAt(b, s, k) ==> k < |s| && s[k] == '<'
  {
    forall s: string, k: nat | OpensAt(b, s, k)
      ensures k < |s| && s[k] == '<'
    {
      match b
      case Heading => assert s[k] == s[k..k + 2][0];
      case Named(n) => assert s[k] == s[k..k + 1 + |n|][0];
    }
  }

  lemma ClosesAtLt(b: Block, s: string, c: nat)
    requires ClosesAt(b, s, c)
    ensures c < |s| && s[c] == '<'
  {
    match b
    case Heading => assert s[c] == s[c..c + 3][0];
    case Named(n) => assert s[c] == s[c..c + 3 + |n|][0];
  }

  /** A body without `<` holds no tail, and without the `s` flag none of its characters ends a line. */
  lemma BodyHasNoClose(t: Tag, dotAll: bool, s: string, k: nat, body: string)
    requires '<' !in body && OccursAt(s, body, k)
    requires dotAll || forall j :: 0 <= j < |body| ==> !IsLineTerminator(body[j])
    ensures forall j :: k <= j < k + |body| ==> t.tail(s, j).None? && (dotAll || !IsLineTerminator(s[j]))
  {
    forall j | k <= j < k + |body|
      ensures t.tail(s, j).None? && (dotAll || !IsLineTerminator(s[j]))
    {
      assert s[j] == body[j - k];
    }
  }

  /** The closing tag at `c`, whitespace, `</p>`: the tail of the expression matches at `c`. */
  lemma CloseTailAt(b: Block, s: string, c: nat, gap2: string, e: nat)
    requires ClosesAt(b, s, c) && AllSpace(gap2) && OccursAt(s, gap2 + "</p>", c + CloseLen(b))
    requires e == c + CloseLen(b) + |gap2|
    ensures TagOf(b).tail(s, c) == Some(e)
  {
    CloseTailIs(b, s, c, gap2, e);
  }

  lemma CloseTailIs(b: Block, s: string, c: nat, gap2: string, e: nat)
    requires ClosesAt(b, s, c) && AllSpace(gap2) && OccursAt(s, gap2 + "</p>", c + CloseLen(b))
    requires e == c + CloseLen(b) + |gap2|
    ensures CloseTail(b, s, c) == Some(e)
  {
    var w := c + CloseLen(b);
    SliceSplit(s, w, gap2, "</p>");
    assert s[w + |gap2|] == s[w + |gap2|..w + |gap2| + 4][0] == '<';
    GapThenTag(s, w, gap2);
  }

  /** `LazyClose` finds the first index where the tail matches, if `.` can get there. */
  lemma {:induction false} LazyCloseAt(t: Tag, dotAll: bool, s: string, k: nat, c: nat)
    requires k <= c <= |s|
    requires forall j :: k <= j < c ==> t.tail(s, j).None? && (dotAll || !IsLineTerminator(s[j]))
    requires t.tail(s, c).Some?
    ensures LazyClose(t, dotAll, s, k) == Some(c)
    decreases c - k
  {
    if k < c {
      LazyCloseAt(t, dotAll, s, k + 1, c);
    }
  }

  /** `\s+` at `i` reaches as far as the whitespace goes. */
  lemma {:induction false} CollapseFrom(s: string, i: nat)
    requires i <= |s|
    ensures ReplaceFrom(s, i, SpaceRunAt) == CollapseSpaces(s[i..])
    decreases |s| - i
  {
    if i < |s| {
      if IsSpace(s[i]) {
        var j := SkipSpaces(s, i);
        SpaceRunStep(s, i);
        CollapseFrom(s, j);
        CollapseSpaceRun(s, i);
      } else {
        assert ReplaceFrom(s, i, SpaceRunAt) == [s[i]] + ReplaceFrom(s, i + 1, SpaceRunAt);
        CollapseFrom(s, i + 1);
        CollapseOther(s, i);
      }
    }
  }

  lemma SpaceRunStep(s: string, i: nat)
    requires i < |s| && IsSpace(s[i])
    ensures ReplaceFrom(s, i, SpaceRunAt) == " " + ReplaceFrom(s, SkipSpaces(s, i), SpaceRunAt)
  {
    assert SpaceRunAt(s, i) == Some(Hit(SkipSpaces(s, i), " "));
  }

  lemma CollapseSpaceRun(s: string, i: nat)
    requires i < |s| && IsSpace(s[i])
    ensures CollapseSpaces(s[i..]) == " " + CollapseSpaces(s[SkipSpaces(s, i)..])
  {
    var t, j := s[i..], SkipSpaces(s, i);
    assert t[0] == s[i];
    SkipSpacesShift(s, i, 0);
    assert t[j - i..] == s[j..];
  }

  lemma CollapseOther(s: string, i: nat)
    requires i < |s| && !IsSpace(s[i])
    ensures CollapseSpaces(s[i..]) == [s[i]] + CollapseSpaces(s[i + 1..])
  {
    var t := s[i..];
    assert t[0] == s[i];
    assert t[1..] == s[i + 1..];
  }

  /** `html.replace(/\s+/g, ' ')` is `CollapseSpaces`: one space for every maximal whitespace run. */
  lemma CollapseRegex(s: string)
    ensures ReplaceAll(s, SpaceRunAt) == CollapseSpaces(s)
  {
    CollapseFrom(s, 0);
    assert s[0..] == s;
  }

  /** A character that is whitespace but not the plain space: a line break, a tab, ... */
  predicate IsOtherSpace(c: char) {
    IsSpace(c) && c != ' '
  }

  /** Unwrapping only copies characters of its input. */
  lemma UnwrapKeepsOut(b: Block, dotAll: bool, s: string)
    requires forall k :: 0 <= k < |s| ==> !IsOtherSpace(s[k])
    ensures forall x :: x in ReplaceAll(s, Unwrapper(b, dotAll)) ==> !IsOtherSpace(x)
  {
    var m := Unwrapper(b, dotAll);
    forall j | 0 <= j < |s| && Advances(m(s, j), j, |s|)
      ensures forall x :: x in m(s, j).value.out ==> !IsOtherSpace(x)
    {
      assert m(s, j) == UnwrapAt(TagOf(b), dotAll, s, j);
      UnwrapOutFrom(TagOf(b), dotAll, s, j);
    }
    ReplaceKeepsOut(s, 0, m, IsOtherSpace);
  }

  /** The replacement of an unwrap is a stretch of its input. */
  lemma UnwrapOutFrom(t: Tag, dotAll: bool, s: string, i: nat)
    requires UnwrapAt(t, dotAll, s, i).Some?
    requires forall k :: 0 <= k < |s| ==> !IsOtherSpace(s[k])
    ensures forall x :: x in UnwrapAt(t, dotAll, s, i).value.out ==> !IsOtherSpace(x)
  {
    var sp := UnwrapSpan(t, dotAll, s, i).value;
    var out := s[sp.0..sp.1];
    forall x | x in out
      ensures !IsOtherSpace(x)
    {
      var k :| 0 <= k < |out| && out[k] == x;
      assert s[sp.0 + k] == x;
    }
  }

  lemma UnwrapKeepsOutMember(b: Block, dotAll: bool, s: string)
    requires forall x :: x in s ==> !IsOtherSpace(x)
    ensures forall x :: x in ReplaceAll(s, Unwrapper(b, dotAll)) ==> !IsOtherSpace(x)
  {
    UnwrapKeepsOut(b, dotAll, s);
  }

  /**
    After `cleanupHTML` the only whitespace character left is the plain space: line breaks
    (those inside `<pre>` code blocks included) do not survive it.
   */
  lemma CleanupPlainSpaces(s: string)
    ensures forall x :: x in CleanupHtml(s) && IsSpace(x) ==> x == ' '
  {
    var noEmpty := ReplaceAll(s, EmptyParaAt);
    var collapsed := ReplaceAll(noEmpty, SpaceRunAt);
    CollapseRegex(noEmpty);
    assert forall x :: x in collapsed ==> !IsOtherSpace(x);
    var h := ReplaceAll(collapsed, Unwrapper(Heading, false));
    UnwrapKeepsOutMember(Heading, false, collapsed);
    var ul := ReplaceAll(h, Unwrapper(Named("ul"), true));
    UnwrapKeepsOutMember(Named("ul"), true, h);
    var ol := ReplaceAll(ul, Unwrapper(Named("ol"), true));
    UnwrapKeepsOutMember(Named("ol"), true, ul);
    var quote := ReplaceAll(ol, Unwrapper(Named("blockquote"), true));
    UnwrapKeepsOutMember(Named("blockquote"), true, ol);
    var pre := ReplaceAll(quote, Unwrapper(Named("pre"), true));
    UnwrapKeepsOutMember(Named("pre"), true, quote);
    UnwrapKeepsOutMember(Named("table"), true, pre);
  }

  // ---------------------------------------------------------------------------
  // Style sheet and the whole converter

  /** The style sheet `addBaseStyles` puts in front of the HTML, character for character. */
  const BaseStyle :=
    "\n"
    + "<style>\n"
    + "/* 微信公众号文章样式 */\n"
    + "body {\n"
    + "  font-family: -apple-system, BlinkMacSystemFont, \"Segoe UI\", \"Roboto\", \"Helvetica Neue\", Arial, sans-serif;\n"
    + "  line-height: 1.8;\n"
    + "  color: #333;\n"
    + "  background: #fff;\n"
    + "  font-size: 16px;\n"
    + "  margin: 0;\n"
    + "  padding: 20px;\n"
    + "}\n"
    + "\n"
    + "/* 响应式图片 */\n"
    + "img {\n"
    + "  max-width: 100%;\n"
    + "  height: auto;\n"
    + "  display: block;\n"
    + "  margin: 16px auto;\n"
    + "  border-radius: 8px;\n"
    + "  box-shadow: 0 2px 8px rgba(0,0,0,0.1);\n"
    + "}\n"
    + "\n"
    + "/* 分割线 */\n"
    + "hr {\n"
    + "  border: none;\n"
    + "  height: 1px;\n"
    + "  background: linear-gradient(to right, transparent, #ddd, transparent);\n"
    + "  margin: 24px 0;\n"
    + "}\n"
    + "\n"
    + "/* 强调框 */\n"
    + ".highlight {\n"
    + "  background: #fff3cd;\n"
    + "  border: 1px solid #ffeaa7;\n"
    + "  border-radius: 8px;\n"
    + "  padding: 16px;\n"
    + "  margin: 16px 0;\n"
    + "}\n"
    + "\n"
    + "/* 小贴士 */\n"
    + ".tip {\n"
    + "  background: #d1ecf1;\n"
    + "  border-left: 4px solid #bee5eb;\n"
    + "  padding: 16px;\n"
    + "  margin: 16px 0;\n"
    + "  border-radius: 0 8px 8px 0;\n"
    + "}\n"
    + "</style>\n"

  /** `addBaseStyles`, for a given style sheet: the sheet, then the HTML unchanged. */
  function AddStyles(style: string, html: string): (r: string)
    ensures StartsWith(r, style) && r[|style|..] == html
  {
    style + html
  }

  /** Stages 1 to 9 of `convertToWeChatHTML`, in the order the converter runs them. */
  function ConvertBody(md: string): string {
    var code := ConvertCodeBlocks(md);
    var headings := ConvertHeadings(code);
    var formatted := ConvertTextFormatting(headings);
    var lists := ConvertLists(formatted);
    var quotes := ConvertBlockquotes(lists);
    var links := ConvertLinks(quotes);
    var tables := ConvertTables(links);
    var paragraphs := ConvertParagraphs(tables);
    CleanupHtml(paragraphs)
  }

  /**
    `convertToWeChatHTML` with its stages 1 to 9 given as `body` and its style sheet as
    `style`. The argument is `None` when it is not a string (`null`, `undefined`, a number,
    ...); a missing or empty document gives the empty string.
   */
  function ConvertWith(body: string -> string, style: string, markdown: Option<string>): (r: string)
    ensures markdown.None? || markdown.value == [] ==> r == []
    ensures markdown.Some? && markdown.value != [] ==> StartsWith(r, style) && r[|style|..] == body(markdown.value)
  {
    match markdown
    case None => []
    case Some(md) => if md == [] then [] else AddStyles(style, body(md))
  }

  /** `convertToWeChatHTML` */
  function ConvertToWeChatHtml(markdown: Option<string>): string {
    ConvertWith(ConvertBody, BaseStyle, markdown)
  }

  /**
    Every line break of a converted document belongs to the style sheet: what follows it
    holds no whitespace other than plain spaces.
   */
  lemma ConvertedBodyPlainSpaces(md: string)
    ensures forall x :: x in ConvertBody(md) && IsSpace(x) ==> x == ' '
  {
    var tables := ConvertTables(ConvertLinks(ConvertBlockquotes(ConvertLists(ConvertTextFormatting(ConvertHeadings(ConvertCodeBlocks(md)))))));
    CleanupPlainSpaces(ConvertParagraphs(tables));
  }
}

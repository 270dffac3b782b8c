/**
  Global regular-expression replacement, `s.replace(/re/g, f)`, as a left-to-right scanner.

  Every regular expression the converter uses is hand-coded as a `Matcher`: given the whole
  input and a start index it says whether the expression matches there, where the match
  ends and what replaces it. `ReplaceFrom` then performs JavaScript's global replacement:
  it tries each index in turn, substitutes a match and resumes after it, and copies
  unmatched characters through.
 */
module Rewrite {
  import opened Wrappers
  import opened Text

  /** A match ending just before `end`, to be replaced by `out`. */
  datatype Hit = Hit(end: nat, out: string)

  type Matcher = (string, nat) -> Option<Hit>

  /** A hit usable at index `i`: non-empty and inside the input. */
  predicate Advances(h: Option<Hit>, i: nat, n: nat) {
    h.Some? && i < h.value.end <= n
  }

  function ReplaceFrom(s: string, i: nat, m: Matcher): string
    requires i <= |s|
    decreases |s| - i
  {
    if i == |s| then []
    else
      var h := m(s, i);
      if Advances(h, i, |s|) then h.value.out + ReplaceFrom(s, h.value.end, m)
      else [s[i]] + ReplaceFrom(s, i + 1, m)
  }

  function ReplaceAll(s: string, m: Matcher): string {
    ReplaceFrom(s, 0, m)
  }

  /** Where nothing matches, the replacement copies the input. */
  lemma {:induction false} NoMatchCopies(s: string, i: nat, m: Matcher)
    requires i <= |s|
    requires forall j :: i <= j < |s| ==> !Advances(m(s, j), j, |s|)
    ensures ReplaceFrom(s, i, m) == s[i..]
    decreases |s| - i
  {
    if i < |s| {
      NoMatchCopies(s, i + 1, m);
      assert s[i..] == [s[i]] + s[i + 1..];
    }
  }

  /** A replacement whose every match is deleted only drops characters. */
  lemma {:induction false} DeletingKeepsChars(s: string, i: nat, m: Matcher)
    requires i <= |s|
    requires forall j :: i <= j < |s| && Advances(m(s, j), j, |s|) ==> m(s, j).value.out == []
    ensures forall c :: c in ReplaceFrom(s, i, m) ==> c in s[i..]
    decreases |s| - i
  {
    if i < |s| {
      var h := m(s, i);
      if Advances(h, i, |s|) {
        DeletingKeepsChars(s, h.value.end, m);
        assert forall c :: c in s[h.value.end..] ==> c in s[i..] by {
          forall c | c in s[h.value.end..] ensures c in s[i..] {
            var k :| h.value.end <= k < |s| && s[k] == c;
            assert s[i..][k - i] == c;
          }
        }
      } else {
        DeletingKeepsChars(s, i + 1, m);
        assert s[i..] == [s[i]] + s[i + 1..];
      }
    }
  }

  /**
    A replacement keeps out a class of characters when the input holds none of them and
    no replacement it makes introduces one.
   */
  lemma {:induction false} ReplaceKeepsOut(s: string, i: nat, m: Matcher, bad: char -> bool)
    requires i <= |s|
    requires forall k :: i <= k < |s| ==> !bad(s[k])
    requires forall j :: i <= j < |s| && Advances(m(s, j), j, |s|) ==> forall x :: x in m(s, j).value.out ==> !bad(x)
    ensures forall x :: x in ReplaceFrom(s, i, m) ==> !bad(x)
    decreases |s| - i
  {
    if i < |s| {
      var h := m(s, i);
      if Advances(h, i, |s|) {
        ReplaceKeepsOut(s, h.value.end, m, bad);
      } else {
        ReplaceKeepsOut(s, i + 1, m, bad);
      }
    }
  }

  // ---------------------------------------------------------------------------
  // Building blocks shared by several expressions

  /** `^` in multiline mode. */
  predicate AtLineStart(s: string, i: nat) {
    i == 0 || (i <= |s| && IsLineTerminator(s[i - 1]))
  }

  /** End of the maximal run of non-line-terminators from `i` (what `.+$` consumes). */
  function LineEnd(s: string, i: nat): (e: nat)
    requires i <= |s|
    ensures i <= e <= |s|
    ensures forall k :: i <= k < e ==> !IsLineTerminator(s[k])
    ensures e == |s| || IsLineTerminator(s[e])
    decreases |s| - i
  {
    if i == |s| || IsLineTerminator(s[i]) then i else LineEnd(s, i + 1)
  }

  /** End of the maximal run of `\w` characters from `i`. */
  function WordEnd(s: string, i: nat): (e: nat)
    requires i <= |s|
    ensures i <= e <= |s|
    ensures forall k :: i <= k < e ==> IsWordChar(s[k])
    ensures e == |s| || !IsWordChar(s[e])
    decreases |s| - i
  {
    if i == |s| || !IsWordChar(s[i]) then i else WordEnd(s, i + 1)
  }

  /** End of the maximal run of `\d` characters from `i`. */
  function DigitsEnd(s: string, i: nat): (e: nat)
    requires i <= |s|
    ensures i <= e <= |s|
    ensures forall k :: i <= k < e ==> IsDigit(s[k])
    ensures e == |s| || !IsDigit(s[e])
    decreases |s| - i
  {
    if i == |s| || !IsDigit(s[i]) then i else DigitsEnd(s, i + 1)
  }

  /** The rightmost index in `[lo, q]` holding a character accepted by `ok`. */
  function LastAccepted(s: string, lo: nat, q: nat, ok: char -> bool): (r: Option<nat>)
    requires q <= |s|
    ensures r.Some? ==> lo <= r.value <= q && r.value < |s| && ok(s[r.value])
    ensures r.Some? ==> forall k :: r.value < k <= q && k < |s| ==> !ok(s[k])
    ensures r.None? ==> forall k :: lo <= k <= q && k < |s| ==> !ok(s[k])
    decreases q
  {
    if q < lo then None
    else if q < |s| && ok(s[q]) then Some(q)
    else if q == 0 then None
    else LastAccepted(s, lo, q - 1, ok)
  }

  /**
    A greedy `\s*` (or `\s+` when `least` is 1) followed by a character accepted by `ok`:
    the whitespace run is taken whole and then given back one character at a time until
    the next character is accepted. Returns the index of that character.
   */
  function GreedySpacesThen(s: string, start: nat, least: nat, ok: char -> bool): (r: Option<nat>)
    requires start <= |s|
    ensures r.Some? ==> start + least <= r.value < |s| && ok(s[r.value])
    ensures r.Some? ==> forall k :: start <= k < r.value ==> IsSpace(s[k])
  {
    var w := SkipSpaces(s, start);
    LastAccepted(s, start + least, w, ok)
  }

  lemma GreedySpacesNonSpace(s: string, start: nat, least: nat, ok: char -> bool)
    requires start <= |s|
    requires SkipSpaces(s, start) >= start + least
    requires SkipSpaces(s, start) < |s| && ok(s[SkipSpaces(s, start)])
    ensures GreedySpacesThen(s, start, least, ok) == Some(SkipSpaces(s, start))
  {
  }

  /** `.*?` followed by `tail` (lazy, without dotAll): the first index from `k` where `tail` occurs,
      not crossing a line terminator. */
  function LazyUntil(s: string, k: nat, tail: string): (r: Option<nat>)
    requires k <= |s|
    ensures r.Some? ==> k <= r.value && OccursAt(s, tail, r.value)
    ensures r.Some? ==> forall j :: k <= j < r.value ==> !OccursAt(s, tail, j) && !IsLineTerminator(s[j])
    decreases |s| - k
  {
    if OccursAt(s, tail, k) then Some(k)
    else if k < |s| && !IsLineTerminator(s[k]) then LazyUntil(s, k + 1, tail)
    else None
  }

  predicate NotLineTerminator(c: char) {
    !IsLineTerminator(c)
  }
}

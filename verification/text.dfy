/**
  String primitives with the meaning JavaScript gives them.

  A JavaScript string is modelled as a `seq<char>`, one element per Unicode
  scalar value. JavaScript's `length` counts UTF-16 code units instead; it is
  `Utf16Length` here, and the two agree on text inside the Basic Multilingual Plane.
  `IsSpace` is the set that the regular-expression class `\s` matches and that
  `String.prototype.trim` strips (ECMAScript WhiteSpace plus LineTerminator).
 */
module Text {
  import opened Wrappers

  predicate IsLineTerminator(c: char) {
    c == '\n' || c == '\r' || c == '\U{2028}' || c == '\U{2029}'
  }

  predicate IsSpace(c: char) {
    || IsLineTerminator(c)
    || c == '\t' || c == '\U{000B}' || c == '\U{000C}' || c == ' '
    || c == '\U{00A0}' || c == '\U{1680}' || ('\U{2000}' <= c <= '\U{200A}')
    || c == '\U{202F}' || c == '\U{205F}' || c == '\U{3000}' || c == '\U{FEFF}'
  }

  /** `\d` */
  predicate IsDigit(c: char) {
    '0' <= c <= '9'
  }

  /** `\w` */
  predicate IsWordChar(c: char) {
    ('a' <= c <= 'z') || ('A' <= c <= 'Z') || IsDigit(c) || c == '_'
  }

  /** The UTF-16 code units a character takes: two outside the Basic Multilingual Plane. */
  function Utf16Units(c: char): nat {
    if c as int >= 0x1_0000 then 2 else 1
  }

  /** `s.length`: the number of UTF-16 code units. */
  function Utf16Length(s: string): (n: nat)
    ensures |s| <= n <= 2 * |s|
    decreases |s|
  {
    if s == [] then 0 else Utf16Units(s[0]) + Utf16Length(s[1..])
  }

  /** `length` counts characters exactly on text inside the Basic Multilingual Plane. */
  lemma {:induction false} Utf16LengthBmp(s: string)
    ensures Utf16Length(s) == |s| <==> forall i :: 0 <= i < |s| ==> s[i] as int < 0x1_0000
    decreases |s|
  {
    if s != [] {
      Utf16LengthBmp(s[1..]);
      assert forall i :: 1 <= i < |s| ==> s[i] == s[1..][i - 1];
    }
  }

  predicate AllSpace(s: string) {
    forall i :: 0 <= i < |s| ==> IsSpace(s[i])
  }

  /** No two adjacent characters are both whitespace. */
  predicate NoDoubleSpace(s: string) {
    forall i :: 0 <= i < |s| - 1 ==> !(IsSpace(s[i]) && IsSpace(s[i + 1]))
  }

  // ---------------------------------------------------------------------------
  // Prefixes, suffixes, substrings

  predicate StartsWith(s: string, p: string) {
    |p| <= |s| && s[..|p|] == p
  }

  predicate EndsWith(s: string, p: string) {
    |p| <= |s| && s[|s| - |p|..] == p
  }

  /** `s.includes(t)` */
  predicate Contains(s: string, t: string)
    decreases |s|
  {
    StartsWith(s, t) || (|s| > 0 && Contains(s[1..], t))
  }

  lemma ContainsAt(s: string, t: string, i: nat)
    requires i + |t| <= |s| && s[i..i + |t|] == t
    ensures Contains(s, t)
    decreases i
  {
    if i > 0 {
      assert s[1..][i - 1..i - 1 + |t|] == s[i..i + |t|];
      ContainsAt(s[1..], t, i - 1);
    }
  }

  lemma ContainsPrefixOf(s: string, t: string, n: nat)
    requires n <= |s| && Contains(s[..n], t)
    ensures Contains(s, t)
    decreases n
  {
    if StartsWith(s[..n], t) {
      assert s[..|t|] == s[..n][..|t|];
    } else {
      assert s[..n][1..] == s[1..][..n - 1];
      ContainsPrefixOf(s[1..], t, n - 1);
    }
  }

  lemma ContainsSuffixOf(s: string, t: string, k: nat)
    requires k <= |s| && Contains(s[k..], t)
    ensures Contains(s, t)
    decreases k
  {
    if k > 0 {
      assert s[1..][k - 1..] == s[k..];
      ContainsSuffixOf(s[1..], t, k - 1);
    }
  }

  /** A single-character needle is contained exactly when the character occurs. */
  lemma ContainsChar(s: string, c: char)
    ensures Contains(s, [c]) <==> c in s
    decreases |s|
  {
    if |s| > 0 {
      ContainsChar(s[1..], c);
      assert s == [s[0]] + s[1..];
    }
  }

  /** A non-empty sequence is its head followed by its tail (stated generically, where it is cheap). */
  lemma HeadTail<T>(s: seq<T>)
    requires s != []
    ensures s == [s[0]] + s[1..]
  {
  }

  // ---------------------------------------------------------------------------
  // trim

  /** Index of the first non-whitespace character at or after `i`. */
  function SkipSpaces(s: string, i: nat): (j: nat)
    requires i <= |s|
    ensures i <= j <= |s|
    ensures forall k :: i <= k < j ==> IsSpace(s[k])
    ensures j == |s| || !IsSpace(s[j])
    decreases |s| - i
  {
    if i == |s| || !IsSpace(s[i]) then i else SkipSpaces(s, i + 1)
  }

  /** Skipping whitespace in a suffix is skipping it in the whole string, shifted. */
  lemma {:induction false} SkipSpacesShift(s: string, i: nat, k: nat)
    requires i + k <= |s|
    ensures SkipSpaces(s[i..], k) == SkipSpaces(s, i + k) - i
    decreases |s| - (i + k)
  {
    if i + k < |s| {
      assert s[i..][k] == s[i + k];
      if IsSpace(s[i + k]) {
        SkipSpacesShift(s, i, k + 1);
      }
    }
  }

  /** One past the last non-whitespace character at or before `j`, never below `lo`. */
  function TrimEnd(s: string, lo: nat, j: nat): (e: nat)
    requires lo <= j <= |s|
    ensures lo <= e <= j
    ensures forall k :: e <= k < j ==> IsSpace(s[k])
    ensures e == lo || !IsSpace(s[e - 1])
    decreases j
  {
    if j == lo || !IsSpace(s[j - 1]) then j else TrimEnd(s, lo, j - 1)
  }

  /** `s.trim()` */
  function Trim(s: string): (r: string)
    ensures |r| <= |s|
    ensures r == [] || (!IsSpace(r[0]) && !IsSpace(r[|r| - 1]))
    ensures r == [] <==> AllSpace(s)
  {
    var a := SkipSpaces(s, 0);
    var b := TrimEnd(s, a, |s|);
    assert a < |s| ==> !IsSpace(s[a]);
    s[a..b]
  }

  /** `trim` removes only leading and trailing whitespace. */
  lemma TrimSlice(s: string)
    ensures exists a, b :: 0 <= a <= b <= |s| && Trim(s) == s[a..b] && AllSpace(s[..a]) && AllSpace(s[b..])
  {
    var a := SkipSpaces(s, 0);
    var b := TrimEnd(s, a, |s|);
    assert AllSpace(s[..a]) && AllSpace(s[b..]);
    assert Trim(s) == s[a..b];
  }

  lemma TrimOfTrimmed(s: string)
    requires s == [] || (!IsSpace(s[0]) && !IsSpace(s[|s| - 1]))
    ensures Trim(s) == s
  {
    if s != [] {
      assert SkipSpaces(s, 0) == 0;
      assert TrimEnd(s, 0, |s|) == |s|;
    }
  }

  /** `trim` adds no character. */
  lemma TrimChars(s: string)
    ensures forall c :: c in Trim(s) ==> c in s
  {
    var a := SkipSpaces(s, 0);
    var b := TrimEnd(s, a, |s|);
    forall c | c in Trim(s)
      ensures c in s
    {
      var k :| 0 <= k < |s[a..b]| && s[a..b][k] == c;
      assert s[a + k] == c;
    }
  }

  lemma TrimIdempotent(s: string)
    ensures Trim(Trim(s)) == Trim(s)
  {
    TrimOfTrimmed(Trim(s));
  }

  // ---------------------------------------------------------------------------
  // Character-level rewriting

  /** `s.replace(/[...]/g, '')`: drops every character of `cs`. */
  function RemoveChars(s: string, cs: set<char>): (r: string)
    ensures |r| <= |s|
    ensures forall c :: c in r <==> c in s && c !in cs
    decreases |s|
  {
    if s == [] then []
    else if s[0] in cs then RemoveChars(s[1..], cs)
    else [s[0]] + RemoveChars(s[1..], cs)
  }

  /** A string holding none of `cs` passes through unchanged. */
  lemma {:induction false} RemoveCharsAbsent(s: string, cs: set<char>)
    requires forall c :: c in s ==> c !in cs
    ensures RemoveChars(s, cs) == s
    decreases |s|
  {
    if s != [] {
      RemoveCharsAbsent(s[1..], cs);
      assert s == [s[0]] + s[1..];
    }
  }

  /** `s.replace(/\s+/g, ' ')`: every maximal run of whitespace becomes one space. */
  function CollapseSpaces(s: string): (r: string)
    ensures NoDoubleSpace(r)
    ensures forall i :: 0 <= i < |r| && IsSpace(r[i]) ==> r[i] == ' '
    ensures forall c :: c in r && c != ' ' ==> c in s
    ensures |r| <= |s|
    ensures s != [] ==> r != [] && (IsSpace(r[0]) <==> IsSpace(s[0]))
    ensures r != [] ==> (IsSpace(r[|r| - 1]) <==> IsSpace(s[|s| - 1]))
    decreases |s|
  {
    if s == [] then []
    else if IsSpace(s[0]) then
      var j := SkipSpaces(s, 0);
      var rest := CollapseSpaces(s[j..]);
      assert forall c :: c in rest && c != ' ' ==> c in s by {
        forall c | c in rest && c != ' ' ensures c in s {
          assert c in s[j..];
        }
      }
      [' '] + rest
    else
      var rest := CollapseSpaces(s[1..]);
      [s[0]] + rest
  }

  /** Text whose whitespace is already single spaces is left as it is. */
  lemma {:induction false} CollapseSpacesIdentity(s: string)
    requires NoDoubleSpace(s)
    requires forall i :: 0 <= i < |s| && IsSpace(s[i]) ==> s[i] == ' '
    ensures CollapseSpaces(s) == s
    decreases |s|
  {
    if s != [] {
      CollapseSpacesIdentity(s[1..]);
      if IsSpace(s[0]) {
        assert |s| > 1 ==> !IsSpace(s[1]);
        assert SkipSpaces(s, 0) == 1;
      }
      assert s == [s[0]] + s[1..];
    }
  }

  /** ASCII lower-casing; see README for why it agrees with `toLowerCase` where used. */
  function AsciiLower(s: string): (r: string)
    ensures |r| == |s|
    ensures forall i :: 0 <= i < |s| ==> r[i] == (if 'A' <= s[i] <= 'Z' then (s[i] as int + 32) as char else s[i])
    decreases |s|
  {
    if s == [] then []
    else
      var c := s[0];
      [if 'A' <= c <= 'Z' then (c as int + 32) as char else c] + AsciiLower(s[1..])
  }

  // ---------------------------------------------------------------------------
  // split / join

  /** `parts.join(sep)` */
  function Join(parts: seq<string>, sep: string): (r: string)
    decreases |parts|
  {
    if parts == [] then ""
    else if |parts| == 1 then parts[0]
    else parts[0] + sep + Join(parts[1..], sep)
  }

  /** `s.split(c)` for a one-character separator: never empty, pieces free of `c`. */
  function Split(s: string, c: char): (r: seq<string>)
    ensures |r| >= 1
    ensures forall i :: 0 <= i < |r| ==> c !in r[i]
    decreases |s|
  {
    if s == [] then [[]]
    else
      var t := Split(s[1..], c);
      if s[0] == c then [[]] + t
      else [[s[0]] + t[0]] + t[1..]
  }

  lemma {:induction false} JoinSplit(s: string, c: char)
    ensures Join(Split(s, c), [c]) == s
    decreases |s|
  {
    if s != [] {
      var t := Split(s[1..], c);
      JoinSplit(s[1..], c);
      if s[0] == c {
        assert Split(s, c) == [[]] + t;
        assert Join([[]] + t, [c]) == [] + [c] + Join(t, [c]);
      } else {
        assert Split(s, c) == [[s[0]] + t[0]] + t[1..];
        if |t| == 1 {
          assert Join(t, [c]) == t[0];
        } else {
          assert Join(t, [c]) == t[0] + [c] + Join(t[1..], [c]);
        }
      }
      assert s == [s[0]] + s[1..];
    }
  }

  lemma {:induction false} SplitJoin(parts: seq<string>, c: char)
    requires |parts| >= 1
    requires forall i :: 0 <= i < |parts| ==> c !in parts[i]
    ensures Split(Join(parts, [c]), c) == parts
    decreases |parts|, |parts[0]|
  {
    if |parts| == 1 {
      SplitNoSep(parts[0], c);
    } else {
      var tail := Join(parts[1..], [c]);
      if parts[0] == [] {
        assert Join(parts, [c]) == [c] + tail;
        assert (Join(parts, [c]))[1..] == tail;
        SplitJoin(parts[1..], c);
        assert parts == [[]] + parts[1..];
      } else {
        var p0 := parts[0];
        var shorter := [p0[1..]] + parts[1..];
        assert Join(shorter, [c]) == p0[1..] + [c] + tail;
        assert Join(parts, [c]) == [p0[0]] + Join(shorter, [c]);
        assert Join(parts, [c])[1..] == Join(shorter, [c]);
        assert p0[0] in p0;
        assert forall i :: 0 <= i < |shorter| ==> c !in shorter[i] by {
          forall i | 0 <= i < |shorter| ensures c !in shorter[i] {
            if i == 0 {
              assert forall x :: x in p0[1..] ==> x in p0;
            } else {
              assert shorter[i] == parts[i];
            }
          }
        }
        SplitJoin(shorter, c);
        assert p0 == [p0[0]] + p0[1..];
        assert parts == [p0] + parts[1..];
      }
    }
  }

  /** Every character of a piece comes from the input. */
  lemma {:induction false} SplitChars(s: string, c: char)
    ensures forall k, x :: 0 <= k < |Split(s, c)| && x in Split(s, c)[k] ==> x in s
    decreases |s|
  {
    if s != [] {
      SplitChars(s[1..], c);
      var t := Split(s[1..], c);
      var r := Split(s, c);
      forall k, x | 0 <= k < |r| && x in r[k]
        ensures x in s
      {
        assert s == [s[0]] + s[1..];
        if s[0] == c {
          assert r == [[]] + t;
          assert r[k] == t[k - 1];
        } else if k == 0 {
          assert r[0] == [s[0]] + t[0];
        } else {
          assert r[k] == t[k];
        }
      }
    }
  }

  lemma {:induction false} SplitNoSep(s: string, c: char)
    requires c !in s
    ensures Split(s, c) == [s]
    decreases |s|
  {
    if s != [] {
      SplitNoSep(s[1..], c);
      assert s == [s[0]] + s[1..];
    }
  }

  // ---------------------------------------------------------------------------
  // Numbers as decimal text

  function DigitChar(d: nat): (c: char)
    requires d < 10
    ensures IsDigit(c) && c as int - '0' as int == d
  {
    ('0' as int + d) as char
  }

  /** The decimal text of `n`, as a JavaScript template literal prints it. */
  function NatToString(n: nat): (r: string)
    ensures |r| >= 1
    ensures forall i :: 0 <= i < |r| ==> IsDigit(r[i])
    decreases n
  {
    if n < 10 then [DigitChar(n)] else NatToString(n / 10) + [DigitChar(n % 10)]
  }

  function IntToString(n: int): (r: string)
    ensures |r| >= 1
  {
    if n < 0 then "-" + NatToString(-n) else NatToString(n)
  }

  /** Reads a string of decimal digits back as a number. */
  function ParseNat(s: string): nat
    requires forall i :: 0 <= i < |s| ==> IsDigit(s[i])
    decreases |s|
  {
    if s == [] then 0
    else
      assert IsDigit(s[|s| - 1]);
      ParseNat(s[..|s| - 1]) * 10 + (s[|s| - 1] as int - '0' as int)
  }

  function ParseInt(s: string): int
    requires |s| >= 1
    requires s[0] == '-' || IsDigit(s[0])
    requires forall i :: 1 <= i < |s| ==> IsDigit(s[i])
  {
    if s[0] == '-' then 0 - ParseNat(s[1..]) as int else ParseNat(s)
  }

  lemma {:induction false} ParseNatToString(n: nat)
    ensures ParseNat(NatToString(n)) == n
    decreases n
  {
    if n >= 10 {
      var r := NatToString(n);
      ParseNatToString(n / 10);
      assert r[..|r| - 1] == NatToString(n / 10);
    }
  }

  lemma ParseIntToString(n: int)
    ensures var r := IntToString(n); (r[0] == '-' || IsDigit(r[0])) && (forall i :: 1 <= i < |r| ==> IsDigit(r[i])) && ParseInt(r) == n
  {
    var r := IntToString(n);
    if n < 0 {
      ParseNatToString(-n);
      assert r[1..] == NatToString(-n);
    } else {
      ParseNatToString(n);
    }
  }

  /** Distinct numbers print as distinct text. */
  lemma IntToStringInjective(a: int, b: int)
    requires IntToString(a) == IntToString(b)
    ensures a == b
  {
    ParseIntToString(a);
    ParseIntToString(b);
  }

  // ---------------------------------------------------------------------------
  // Searching

  /** `t` occurs in `s` starting at index `k`. */
  predicate OccursAt(s: string, t: string, k: nat) {
    k + |t| <= |s| && s[k..k + |t|] == t
  }

  /** `s.indexOf(t, j)`, as an option. */
  function FindFrom(s: string, t: string, j: nat): (r: Option<nat>)
    requires j <= |s|
    ensures r.Some? ==> j <= r.value && OccursAt(s, t, r.value)
    ensures r.Some? ==> forall k :: j <= k < r.value ==> !OccursAt(s, t, k)
    ensures r.None? ==> forall k :: j <= k <= |s| ==> !OccursAt(s, t, k)
    decreases |s| - j
  {
    if OccursAt(s, t, j) then Some(j)
    else if j == |s| then None
    else FindFrom(s, t, j + 1)
  }

  /** `s.indexOf(c, j)` for a single character, as an option. */
  function FindChar(s: string, c: char, j: nat): (r: Option<nat>)
    requires j <= |s|
    ensures r.Some? ==> j <= r.value < |s| && s[r.value] == c
    ensures r.Some? ==> forall k :: j <= k < r.value ==> s[k] != c
    ensures r.None? ==> forall k :: j <= k < |s| ==> s[k] != c
    decreases |s| - j
  {
    if j == |s| then None
    else if s[j] == c then Some(j)
    else FindChar(s, c, j + 1)
  }

  // ---------------------------------------------------------------------------
  // Reading a known string off a larger one

  lemma SliceElems(s: string, i: nat, t: string)
    requires i + |t| <= |s| && s[i..i + |t|] == t
    ensures forall k :: i <= k < i + |t| ==> s[k] == t[k - i]
  {
    forall k | i <= k < i + |t|
      ensures s[k] == t[k - i]
    {
      assert s[k] == s[i..i + |t|][k - i];
    }
  }

  lemma SliceSplit(s: string, i: nat, a: string, b: string)
    requires i + |a| + |b| <= |s| && s[i..i + |a| + |b|] == a + b
    ensures s[i..i + |a|] == a
    ensures s[i + |a|..i + |a| + |b|] == b
  {
    assert s[i..i + |a|] == s[i..i + |a| + |b|][..|a|];
    assert s[i + |a|..i + |a| + |b|] == s[i..i + |a| + |b|][|a|..];
  }

  /** Three pieces laid out one after another: each occurs at its own offset. */
  lemma OccursParts(s: string, i: nat, a: string, b: string, c: string)
    requires OccursAt(s, a + b + c, i)
    ensures OccursAt(s, a, i) && OccursAt(s, b, i + |a|) && OccursAt(s, c, i + |a| + |b|)
  {
    SliceSplit(s, i, a + b, c);
    SliceSplit(s, i, a, b);
  }

  lemma SliceJoin(s: string, i: nat, a: string, b: string)
    requires OccursAt(s, a, i) && OccursAt(s, b, i + |a|)
    ensures OccursAt(s, a + b, i)
  {
    assert s[i..i + |a| + |b|] == s[i..i + |a|] + s[i + |a|..i + |a| + |b|];
  }
}

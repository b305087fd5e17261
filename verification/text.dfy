/**
 The string primitives the record engine takes from JavaScript: the
 whitespace class shared by the regular-expression escape `\s` and
 `String.prototype.trim`, `trim` itself, ASCII `toLowerCase`, `includes`,
 `startsWith` and a global literal `replace`.
 */
module Text {

  /** ECMAScript WhiteSpace and LineTerminator code points. */
  predicate IsSpace(c: char) {
    || c == '\t' || c == '\n' || c == '\U{B}' || c == '\U{C}' || c == '\r'
    || c == ' ' || c == '\U{A0}' || c == '\U{1680}'
    || ('\U{2000}' <= c <= '\U{200A}')
    || c == '\U{2028}' || c == '\U{2029}' || c == '\U{202F}' || c == '\U{205F}'
    || c == '\U{3000}' || c == '\U{FEFF}'
  }

  predicate AllSpace(s: string) {
    forall i :: 0 <= i < |s| ==> IsSpace(s[i])
  }

  /** The first index from `k` on that does not hold whitespace (|s| when there is none). */
  function SkipSpace(s: string, k: nat): (n: nat)
    requires k <= |s|
    ensures k <= n <= |s|
    ensures forall i :: k <= i < n ==> IsSpace(s[i])
    ensures n == |s| || !IsSpace(s[n])
    decreases |s| - k
  {
    if k < |s| && IsSpace(s[k]) then SkipSpace(s, k + 1) else k
  }

  /** Moving down from `k`, the end of the last non-whitespace character at or above `lo` (`lo` when there is none). */
  function SkipSpaceBack(s: string, lo: nat, k: nat): (n: nat)
    requires lo <= k <= |s|
    ensures lo <= n <= k
    ensures forall i :: n <= i < k ==> IsSpace(s[i])
    ensures n == lo || !IsSpace(s[n - 1])
    decreases k
  {
    if lo < k && IsSpace(s[k - 1]) then SkipSpaceBack(s, lo, k - 1) else k
  }

  /** `r` is `s` with a whitespace prefix of length `i` and a whitespace suffix removed. */
  ghost predicate StrippedAt(s: string, r: string, i: int) {
    0 <= i && i + |r| <= |s| && r == s[i..i + |r|] && AllSpace(s[..i]) && AllSpace(s[i + |r|..])
  }

  /** `String.prototype.trim`: the infix left after removing whitespace at both ends. */
  function Trim(s: string): (r: string)
    ensures exists i :: StrippedAt(s, r, i)
    ensures r == [] || (!IsSpace(r[0]) && !IsSpace(r[|r| - 1]))
    ensures r == [] <==> AllSpace(s)
  {
    var i := SkipSpace(s, 0);
    var j := SkipSpaceBack(s, i, |s|);
    TrimParts(s, i, j);
    s[i..j]
  }

  lemma TrimParts(s: string, i: nat, j: nat)
    requires i <= j <= |s|
    requires forall k :: 0 <= k < i ==> IsSpace(s[k])
    requires forall k :: j <= k < |s| ==> IsSpace(s[k])
    requires i == |s| || !IsSpace(s[i])
    ensures StrippedAt(s, s[i..j], i)
    ensures s[i..j] == [] <==> AllSpace(s)
  {
    assert forall k :: 0 <= k < i ==> s[..i][k] == s[k];
    assert forall k :: 0 <= k < |s| - j ==> s[j..][k] == s[j + k];
    if i < j {
      assert s[i..j][0] == s[i];
    }
  }

  /** ASCII case mapping; other characters are left as they are. */
  function LowerChar(c: char): (d: char)
    ensures !('A' <= d <= 'Z')
    ensures 'A' <= c <= 'Z' ==> d as int == c as int + 32
    ensures !('A' <= c <= 'Z') ==> d == c
  {
    if 'A' <= c <= 'Z' then (c as int + 32) as char else c
  }

  /** `toLowerCase`, restricted to the ASCII letters. */
  function Lower(s: string): (r: string)
    ensures |r| == |s|
    ensures forall i :: 0 <= i < |r| ==> r[i] == LowerChar(s[i])
  {
    seq(|s|, i requires 0 <= i < |s| => LowerChar(s[i]))
  }

  lemma LowerIdempotent(s: string)
    ensures Lower(Lower(s)) == Lower(s)
  {
  }

  /** `needle` occurs as a contiguous block of `hay` (declarative). */
  ghost predicate Contains(hay: string, needle: string) {
    exists i :: OccursAt(hay, needle, i)
  }

  ghost predicate OccursAt(hay: string, needle: string, i: int) {
    0 <= i && i + |needle| <= |hay| && hay[i..i + |needle|] == needle
  }

  /** `String.prototype.includes`, as a left-to-right scan. */
  predicate Includes(hay: string, needle: string)
    decreases |hay|
  {
    needle <= hay || (|hay| > 0 && Includes(hay[1..], needle))
  }

  lemma {:induction false} IncludesIsContains(hay: string, needle: string)
    ensures Includes(hay, needle) <==> Contains(hay, needle)
    decreases |hay|
  {
    if needle <= hay {
      assert OccursAt(hay, needle, 0);
    } else if |hay| == 0 {
    } else {
      IncludesIsContains(hay[1..], needle);
      if Contains(hay[1..], needle) {
        var i :| OccursAt(hay[1..], needle, i);
        assert hay[1..][i..i + |needle|] == hay[i + 1..i + 1 + |needle|];
        assert OccursAt(hay, needle, i + 1);
      }
      if Contains(hay, needle) {
        var i :| OccursAt(hay, needle, i);
        if i == 0 {
          assert false;
        } else {
          assert hay[1..][i - 1..i - 1 + |needle|] == hay[i..i + |needle|];
          assert OccursAt(hay[1..], needle, i - 1);
        }
      }
    }
  }

  /**
   `text.replace(new RegExp(pattern, 'g'), value)` for a pattern with no
   regular-expression meta-character and a value with no `$`: every
   non-overlapping occurrence, scanned left to right, is replaced once.
   */
  function ReplaceAll(text: string, pattern: string, value: string): string
    requires |pattern| > 0
    decreases |text|
  {
    if |text| < |pattern| then text
    else if pattern <= text then value + ReplaceAll(text[|pattern|..], pattern, value)
    else [text[0]] + ReplaceAll(text[1..], pattern, value)
  }

  /** Number of non-overlapping occurrences the left-to-right scan finds. */
  function Occurrences(text: string, pattern: string): nat
    requires |pattern| > 0
    decreases |text|
  {
    if |text| < |pattern| then 0
    else if pattern <= text then 1 + Occurrences(text[|pattern|..], pattern)
    else Occurrences(text[1..], pattern)
  }

  /** Each replaced occurrence changes the length by |value| - |pattern|. */
  lemma {:induction false} ReplaceAllLength(text: string, pattern: string, value: string)
    requires |pattern| > 0
    ensures |ReplaceAll(text, pattern, value)| == |text| + Occurrences(text, pattern) * (|value| - |pattern|)
    decreases |text|
  {
    var d := |value| - |pattern|;
    if |text| < |pattern| {
    } else if pattern <= text {
      var rest := text[|pattern|..];
      ReplaceAllLength(rest, pattern, value);
      var o := Occurrences(rest, pattern);
      assert Occurrences(text, pattern) == 1 + o;
      assert |ReplaceAll(text, pattern, value)| == |value| + |ReplaceAll(rest, pattern, value)|;
      MulSucc(o, d);
    } else {
      ReplaceAllLength(text[1..], pattern, value);
      assert Occurrences(text, pattern) == Occurrences(text[1..], pattern);
      assert |ReplaceAll(text, pattern, value)| == 1 + |ReplaceAll(text[1..], pattern, value)|;
    }
  }

  lemma MulSucc(o: int, d: int)
    ensures (1 + o) * d == d + o * d
  {
  }

  /** A text without an occurrence of the pattern is left unchanged. */
  lemma {:induction false} ReplaceAllAbsent(text: string, pattern: string, value: string)
    requires |pattern| > 0 && !Contains(text, pattern)
    ensures ReplaceAll(text, pattern, value) == text
    decreases |text|
  {
    if |text| >= |pattern| {
      assert !(pattern <= text) by {
        if pattern <= text {
          PrefixOccurs(text, pattern);
          assert false;
        }
      }
      assert !Contains(text[1..], pattern) by {
        if Contains(text[1..], pattern) {
          var i :| OccursAt(text[1..], pattern, i);
          assert text[1..][i..i + |pattern|] == text[i + 1..i + 1 + |pattern|];
          assert OccursAt(text, pattern, i + 1);
        }
      }
      ReplaceAllAbsent(text[1..], pattern, value);
    }
  }

  lemma PrefixOccurs(text: string, pattern: string)
    requires pattern <= text
    ensures OccursAt(text, pattern, 0)
  {
  }

  /** Replacing a pattern by itself is the identity. */
  lemma {:induction false} ReplaceAllSelf(text: string, pattern: string)
    requires |pattern| > 0
    ensures ReplaceAll(text, pattern, pattern) == text
    decreases |text|
  {
    if |text| < |pattern| {
    } else if pattern <= text {
      ReplaceAllSelf(text[|pattern|..], pattern);
      assert text == pattern + text[|pattern|..];
    } else {
      ReplaceAllSelf(text[1..], pattern);
      assert text == [text[0]] + text[1..];
    }
  }
}

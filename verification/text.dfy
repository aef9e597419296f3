/**
 * The JavaScript string operations the routes rely on: `trim`, the `\s`
 * character class, `toLowerCase` on ASCII letters, `includes`/regex
 * substring search and `split(/\s+/)`.
 */
module Text {

  /** Inclusive code-point ranges of the characters `String.prototype.trim` strips and the
      regex class `\s` matches: ECMAScript WhiteSpace (tab, VT, FF, space, NBSP, BOM and the
      space separators of category Zs) and LineTerminator (LF, CR, LS, PS). */
  const SpaceRanges: seq<(int, int)> := [
    (0x09, 0x0D), (0x20, 0x20), (0xA0, 0xA0), (0x1680, 0x1680), (0x2000, 0x200A),
    (0x2028, 0x2029), (0x202F, 0x202F), (0x205F, 0x205F), (0x3000, 0x3000), (0xFEFF, 0xFEFF)]

  /** `n` lies in one of the inclusive `ranges`. */
  predicate InRanges(n: int, ranges: seq<(int, int)>)
  {
    ranges != [] && (ranges[0].0 <= n <= ranges[0].1 || InRanges(n, ranges[1..]))
  }

  predicate IsSpace(c: char)
  {
    InRanges(c as int, SpaceRanges)
  }

  predicate AllSpace(s: string)
  {
    forall i :: 0 <= i < |s| ==> IsSpace(s[i])
  }

  predicate NoSpace(s: string)
  {
    forall i :: 0 <= i < |s| ==> !IsSpace(s[i])
  }

  predicate IsDigit(c: char)
  {
    '0' <= c <= '9'
  }

  // ---------------------------------------------------------------- trim

  /** Length of the longest prefix of `s` made only of whitespace. */
  function LeadingSpace(s: string): (n: nat)
    ensures n <= |s|
    ensures forall i :: 0 <= i < n ==> IsSpace(s[i])
    ensures n < |s| ==> !IsSpace(s[n])
  {
    if s == [] || !IsSpace(s[0]) then 0 else 1 + LeadingSpace(s[1..])
  }

  /** Length of the longest suffix of `s` made only of whitespace. */
  function TrailingSpace(s: string): (n: nat)
    ensures n <= |s|
    ensures forall i :: |s| - n <= i < |s| ==> IsSpace(s[i])
    ensures n < |s| ==> !IsSpace(s[|s| - n - 1])
  {
    if s == [] || !IsSpace(s[|s| - 1]) then 0 else 1 + TrailingSpace(s[..|s| - 1])
  }

  /** JavaScript's `s.trim()`: `s` without its leading and its trailing whitespace. */
  function Trim(s: string): (r: string)
    ensures |r| <= |s|
    ensures r != [] ==> !IsSpace(r[0]) && !IsSpace(r[|r| - 1])
  {
    var t := s[LeadingSpace(s)..];
    t[..|t| - TrailingSpace(t)]
  }

  /** The trim is what lies between the whitespace prefix of `s`, of length `a`, and a
      whitespace suffix. */
  lemma TrimIsSlice(s: string)
    ensures var a, r := LeadingSpace(s), Trim(s);
      && a + |r| <= |s|
      && (forall i :: 0 <= i < |r| ==> r[i] == s[a + i])
      && (forall i :: 0 <= i < a ==> IsSpace(s[i]))
      && (forall i :: a + |r| <= i < |s| ==> IsSpace(s[i]))
  {
    var a := LeadingSpace(s);
    var t := s[a..];
    var n := TrailingSpace(t);
    var r := Trim(s);
    assert r == t[..|t| - n];
    forall i | a + |r| <= i < |s| ensures IsSpace(s[i]) {
      assert t[i - a] == s[i];
    }
  }

  /** A string is blank (`!s.trim()`) exactly when all its characters are whitespace. */
  lemma TrimEmptyIff(s: string)
    ensures Trim(s) == [] <==> AllSpace(s)
  {
    TrimIsSlice(s);
    if Trim(s) != [] {
      assert s[LeadingSpace(s) + 0] == Trim(s)[0];
    }
  }

  /** A string that neither starts nor ends with whitespace is its own trim. */
  lemma TrimOfTrimmed(s: string)
    requires s != [] ==> !IsSpace(s[0]) && !IsSpace(s[|s| - 1])
    ensures Trim(s) == s
  {
    assert LeadingSpace(s) == 0;
    assert s[0..] == s;
    assert TrailingSpace(s) == 0;
  }

  /** Trimming a trimmed string changes nothing. */
  lemma TrimIdempotent(s: string)
    ensures Trim(Trim(s)) == Trim(s)
  {
    TrimOfTrimmed(Trim(s));
  }

  // ------------------------------------------------------------ lower case

  /** `toLowerCase` on one character, for the ASCII letters. */
  function LowerChar(c: char): (d: char)
  {
    if 'A' <= c <= 'Z' then (c as int + 32) as char else c
  }

  /** `s.toLowerCase()`, character by character (ASCII letters only). */
  function Lower(s: string): (r: string)
    ensures |r| == |s|
    ensures forall i :: 0 <= i < |s| ==> r[i] == LowerChar(s[i])
  {
    if s == [] then [] else [LowerChar(s[0])] + Lower(s[1..])
  }

  /** Lower-casing twice is lower-casing once. */
  lemma LowerIdempotent(s: string)
    ensures Lower(Lower(s)) == Lower(s)
  {
  }

  /** Lower-casing distributes over concatenation. */
  lemma LowerAppend(s: string, t: string)
    ensures Lower(s + t) == Lower(s) + Lower(t)
  {
  }

  // ------------------------------------------------------ substring search

  /** `p` occurs in `s` starting at index `i`. */
  predicate OccursAt(s: string, p: string, i: nat)
  {
    i + |p| <= |s| && forall k :: 0 <= k < |p| ==> s[i + k] == p[k]
  }

  /** `s.includes(p)`; also what a regex made of the literal `p` tests. */
  predicate Contains(s: string, p: string)
  {
    exists i: nat | i <= |s| :: OccursAt(s, p, i)
  }

  /** An occurrence in `s` is still an occurrence in any extension `s + t`. */
  lemma ContainsAppend(s: string, t: string, p: string)
    requires Contains(s, p)
    ensures Contains(s + t, p)
  {
    var i: nat :| i <= |s| && OccursAt(s, p, i);
    assert OccursAt(s + t, p, i);
  }

  /** A lower-case pattern found in `s` is found at the same place in `Lower(s)`. */
  lemma ContainsLower(s: string, p: string)
    requires Lower(p) == p
    requires Contains(s, p)
    ensures Contains(Lower(s), p)
  {
    var i: nat :| i <= |s| && OccursAt(s, p, i);
    forall k | 0 <= k < |p| ensures Lower(s)[i + k] == p[k] {
      assert Lower(p)[k] == LowerChar(p[k]);
    }
    assert OccursAt(Lower(s), p, i);
  }

  // ------------------------------------------------------ split on \s+

  /** Length of the longest prefix of `s` free of whitespace. */
  function SpanNonSpace(s: string): (n: nat)
    ensures n <= |s| && NoSpace(s[..n])
    ensures n < |s| ==> IsSpace(s[n])
  {
    if s == [] || IsSpace(s[0]) then 0 else 1 + SpanNonSpace(s[1..])
  }

  /** `s.split(/\s+/)`: the pieces between maximal runs of whitespace. A leading
      or trailing run yields an empty first or last piece, and `""` splits to `[""]`. */
  function Split(s: string): (words: seq<string>)
    ensures |words| >= 1
    ensures forall w :: w in words ==> NoSpace(w)
    decreases |s|
  {
    var n := SpanNonSpace(s);
    if n == |s| then
      [s]
    else
      var rest := s[n..];
      var k := LeadingSpace(rest);
      assert k >= 1 by { assert rest[0] == s[n]; }
      [s[..n]] + Split(rest[k..])
  }

  /** An occurrence of a whitespace-free pattern cannot straddle a run of whitespace. */
  lemma OccurrenceAvoidsSpace(s: string, p: string, i: nat, q: nat)
    requires NoSpace(p) && OccursAt(s, p, i)
    requires i <= q < i + |p| && q < |s|
    ensures !IsSpace(s[q])
  {
    assert s[i + (q - i)] == p[q - i];
  }

  /** An occurrence inside the slice `s[lo..hi]` is an occurrence in `s`, shifted by `lo`. */
  lemma OccursInSlice(s: string, lo: nat, hi: nat, p: string, i: nat)
    requires lo <= hi <= |s|
    ensures OccursAt(s[lo..hi], p, i) <==> i + |p| <= hi - lo && OccursAt(s, p, lo + i)
  {
    if i + |p| <= hi - lo {
      var u := s[lo..hi];
      forall j | i <= j < i + |p| ensures u[j] == s[lo + j] {}
    }
  }

  /** Cutting `s` into `head`, a non-empty run of whitespace and `tail`: a
      non-empty whitespace-free pattern occurs in `s` exactly when it occurs in `head` or in `tail`. */
  lemma ContainsAroundSpace(head: string, gap: string, tail: string, p: string)
    requires p != [] && NoSpace(p) && gap != [] && AllSpace(gap)
    ensures Contains(head + gap + tail, p) <==> Contains(head, p) || Contains(tail, p)
  {
    var s := head + gap + tail;
    var n, m := |head|, |head| + |gap|;
    assert s[..n] == s[0..n] == head && s[m..] == s[m..|s|] == tail;
    if Contains(s, p) {
      var i: nat :| i <= |s| && OccursAt(s, p, i);
      if i + |p| <= n {
        OccursInSlice(s, 0, n, p, i);
      } else if i >= m {
        OccursInSlice(s, m, |s|, p, i - m);
      } else {
        var q := if i < n then n else i;
        assert IsSpace(s[q]) by { assert s[q] == gap[q - n]; }
        OccurrenceAvoidsSpace(s, p, i, q);
        assert false;
      }
    }
    if Contains(head, p) {
      var i: nat :| i <= |head| && OccursAt(head, p, i);
      OccursInSlice(s, 0, n, p, i);
    }
    if Contains(tail, p) {
      var i: nat :| i <= |tail| && OccursAt(tail, p, i);
      OccursInSlice(s, m, |s|, p, i);
    }
  }

  /** One step of `Split`: a whitespace-free head, a run of whitespace, and the rest,
      whose pieces follow the head. */
  lemma SplitStep(s: string) returns (head: string, gap: string, tail: string)
    requires SpanNonSpace(s) < |s|
    ensures s == head + gap + tail && |tail| < |s|
    ensures gap != [] && AllSpace(gap)
    ensures Split(s) == [head] + Split(tail)
  {
    var n := SpanNonSpace(s);
    var rest := s[n..];
    var k := LeadingSpace(rest);
    assert k >= 1 by { assert rest[0] == s[n]; }
    head, gap, tail := s[..n], rest[..k], rest[k..];
    assert s == head + gap + tail;
  }

  /** For a non-empty, whitespace-free pattern, "some piece of `Split(s)` contains it" is
      the same as "`s` contains it". */
  lemma {:induction false} SplitContains(s: string, p: string)
    requires p != [] && NoSpace(p)
    ensures (exists w :: w in Split(s) && Contains(w, p)) <==> Contains(s, p)
    decreases |s|
  {
    if SpanNonSpace(s) == |s| {
      assert Split(s) == [s];
    } else {
      var head, gap, tail := SplitStep(s);
      SplitContains(tail, p);
      ContainsAroundSpace(head, gap, tail, p);
      if Contains(tail, p) {
        var w :| w in Split(tail) && Contains(w, p);
        assert w in Split(s);
      }
      if exists w :: w in Split(s) && Contains(w, p) {
        var w :| w in Split(s) && Contains(w, p);
        assert w == head || w in Split(tail);
      }
    }
  }
}

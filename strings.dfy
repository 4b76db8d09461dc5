/**
 * The JavaScript string operations the Markdown formatter is built from,
 * each given an explicit recursive definition:
 *   - `s.replace(/pat/g, rep)` for a literal pattern (ReplaceAll),
 *   - `s.split(m)[0]` (PrefixBefore),
 *   - `s.trim()` (Trim),
 *   - `parts.join(sep)` (Join).
 */
module Strings {

  /** `m` occurs in `s` starting at index `i`. */
  predicate OccursAt(s: string, m: string, i: nat)
  {
    i + |m| <= |s| && s[i..i + |m|] == m
  }

  predicate Contains(s: string, m: string)
  {
    exists i: nat | i <= |s| :: OccursAt(s, m, i)
  }

  /** An occurrence in the tail of `s` is an occurrence in `s`, one place later. */
  lemma OccursInTail(s: string, m: string, i: nat)
    requires |s| > 0 && OccursAt(s[1..], m, i)
    ensures OccursAt(s, m, i + 1)
  {
    assert s[i + 1..i + 1 + |m|] == s[1..][i..i + |m|];
  }

  /** An occurrence in `s` past index 0 is an occurrence in its tail. */
  lemma OccursInSeq(s: string, m: string, i: nat)
    requires i > 0 && OccursAt(s, m, i)
    ensures OccursAt(s[1..], m, i - 1)
  {
    assert s[1..][i - 1..i - 1 + |m|] == s[i..i + |m|];
  }

  // ---------------------------------------------------------------------
  // Global replacement of a literal pattern
  // ---------------------------------------------------------------------

  /**
   * The number of occurrences a left-to-right, non-overlapping scan finds:
   * after a match the scan resumes just past it.
   */
  function Matches(s: string, pat: string): nat
    requires pat != []
    decreases |s|
  {
    if |s| < |pat| then 0
    else if s[..|pat|] == pat then 1 + Matches(s[|pat|..], pat)
    else Matches(s[1..], pat)
  }

  /**
   * `s.replace(/pat/g, rep)` for a literal pattern and a replacement without
   * `$`: scanning left to right, every non-overlapping occurrence of `pat`
   * is replaced by `rep` as written.  JavaScript would expand `$` patterns
   * such as `$&` in `rep`; the only replacement used here is a newline.
   */
  function ReplaceAll(s: string, pat: string, rep: string): string
    requires pat != []
    decreases |s|
  {
    if |s| < |pat| then s
    else if s[..|pat|] == pat then rep + ReplaceAll(s[|pat|..], pat, rep)
    else [s[0]] + ReplaceAll(s[1..], pat, rep)
  }

  /** The scan finds no match exactly when the pattern does not occur, and then nothing is replaced. */
  lemma {:induction false} ReplaceAllWithoutPattern(s: string, pat: string, rep: string)
    requires pat != []
    ensures Matches(s, pat) == 0 <==> !Contains(s, pat)
    ensures !Contains(s, pat) ==> ReplaceAll(s, pat, rep) == s
    decreases |s|
  {
    if |s| < |pat| {
      forall i: nat | i <= |s| ensures !OccursAt(s, pat, i) { }
    } else if s[..|pat|] == pat {
      assert OccursAt(s, pat, 0);
    } else {
      ReplaceAllWithoutPattern(s[1..], pat, rep);
      ContainsIffInTail(s, pat);
    }
  }

  /** Where `m` does not occur at index 0, it occurs in `s` exactly when it occurs in the tail. */
  lemma ContainsIffInTail(s: string, m: string)
    requires |s| > 0 && !OccursAt(s, m, 0)
    ensures Contains(s, m) <==> Contains(s[1..], m)
  {
    if Contains(s[1..], m) {
      var i: nat :| i <= |s[1..]| && OccursAt(s[1..], m, i);
      OccursInTail(s, m, i);
    }
    if Contains(s, m) {
      var i: nat :| i <= |s| && OccursAt(s, m, i);
      OccursInSeq(s, m, i);
    }
  }

  // ---------------------------------------------------------------------
  // Collapsing doubled newlines
  // ---------------------------------------------------------------------

  /** `s.replace(/\n\n/g, '\n')`. */
  function CollapseNewlines(s: string): string
  {
    ReplaceAll(s, "\n\n", "\n")
  }

  /** A run of `k` newlines. */
  function Newlines(k: nat): (r: string)
    ensures |r| == k
    ensures forall i :: 0 <= i < k ==> r[i] == '\n'
  {
    if k == 0 then "" else "\n" + Newlines(k - 1)
  }

  /** Each replacement shortens the text by exactly one character. */
  lemma {:induction false} CollapseLength(s: string)
    ensures |CollapseNewlines(s)| + Matches(s, "\n\n") == |s|
    decreases |s|
  {
    if |s| < 2 {
    } else if s[..2] == "\n\n" {
      CollapseLength(s[2..]);
    } else {
      CollapseLength(s[1..]);
    }
  }

  /** A doubled newline at the front becomes one newline. */
  lemma CollapseDoubledHead(rest: string)
    ensures CollapseNewlines("\n\n" + rest) == "\n" + CollapseNewlines(rest)
  {
    var s := "\n\n" + rest;
    assert s[..2] == "\n\n" && s[2..] == rest;
  }

  /** A single newline followed by text that does not start with one is copied. */
  lemma CollapseSingleHead(rest: string)
    requires rest == [] || rest[0] != '\n'
    ensures CollapseNewlines(Newlines(1) + rest) == Newlines(1) + CollapseNewlines(rest)
  {
    var s := Newlines(1) + rest;
    assert Newlines(1) == "\n";
    if |s| >= 2 {
      assert s[..2][1] == rest[0];
    }
    assert s[1..] == rest;
  }

  /**
   * A maximal run of k newlines becomes a run of ceil(k/2) newlines, and
   * the text after the run is collapsed independently of it.
   */
  lemma {:induction false} CollapseRun(k: nat, rest: string)
    requires rest == [] || rest[0] != '\n'
    ensures CollapseNewlines(Newlines(k) + rest) == Newlines((k + 1) / 2) + CollapseNewlines(rest)
    decreases k
  {
    if k == 0 {
      assert Newlines(k) + rest == rest;
    } else if k == 1 {
      CollapseSingleHead(rest);
    } else {
      CollapseRun(k - 2, rest);
      CollapseRunTwoMore(k - 2, rest);
    }
  }

  /** Two more newlines in front of a run collapse to one more newline. */
  lemma CollapseRunTwoMore(k: nat, rest: string)
    requires CollapseNewlines(Newlines(k) + rest) == Newlines((k + 1) / 2) + CollapseNewlines(rest)
    ensures CollapseNewlines(Newlines(k + 2) + rest) == Newlines((k + 3) / 2) + CollapseNewlines(rest)
  {
    var s' := Newlines(k) + rest;
    assert Newlines(k + 2) + rest == "\n\n" + s';
    CollapseDoubledHead(s');
    assert Newlines((k + 3) / 2) == "\n" + Newlines((k + 1) / 2);
    assert "\n" + (Newlines((k + 1) / 2) + CollapseNewlines(rest))
        == ("\n" + Newlines((k + 1) / 2)) + CollapseNewlines(rest);
  }

  /** A character other than a newline is copied, and collapsing goes on after it. */
  lemma CollapseCons(c: char, rest: string)
    requires c != '\n'
    ensures CollapseNewlines([c] + rest) == [c] + CollapseNewlines(rest)
  {
    var s := [c] + rest;
    assert |s| < 2 || s[..2][0] != '\n';
    assert s[1..] == rest;
  }

  /** A newline-free prefix is copied unchanged, and collapsing goes on after it. */
  lemma {:induction false} CollapseAfterPrefix(p: string, rest: string)
    requires forall i :: 0 <= i < |p| ==> p[i] != '\n'
    ensures CollapseNewlines(p + rest) == p + CollapseNewlines(rest)
    decreases |p|
  {
    if p == [] {
      assert p + rest == rest;
    } else {
      CollapseAfterPrefix(p[1..], rest);
      assert p + rest == [p[0]] + (p[1..] + rest);
      CollapseCons(p[0], p[1..] + rest);
      assert p + CollapseNewlines(rest) == [p[0]] + (p[1..] + CollapseNewlines(rest));
    }
  }

  /** Text without newlines is left unchanged. */
  lemma CollapseNoNewlines(s: string)
    requires forall i :: 0 <= i < |s| ==> s[i] != '\n'
    ensures CollapseNewlines(s) == s
  {
    ReplaceAllWithoutPattern(s, "\n\n", "\n");
    forall i: nat | i <= |s|
      ensures !OccursAt(s, "\n\n", i)
    {
      if i + 2 <= |s| {
        assert s[i..i + 2][0] == s[i];
      }
    }
  }

  /** Three newlines become two, not one: one pass does not remove all doubled newlines. */
  lemma ThreeNewlinesBecomeTwo()
    ensures CollapseNewlines("\n\n\n") == "\n\n"
  {
    CollapseRun(3, "");
    assert Newlines(3) + "" == "\n\n\n";
    assert Newlines(2) == "\n\n";
  }

  /** The characters other than newlines, in order. */
  function NonNewlines(s: string): (r: string)
    ensures |r| <= |s|
    ensures forall i :: 0 <= i < |r| ==> r[i] != '\n'
  {
    if s == [] then ""
    else if s[0] == '\n' then NonNewlines(s[1..])
    else [s[0]] + NonNewlines(s[1..])
  }

  lemma {:induction false} NonNewlinesAppend(a: string, b: string)
    ensures NonNewlines(a + b) == NonNewlines(a) + NonNewlines(b)
    decreases |a|
  {
    if a == [] {
      assert a + b == b;
    } else {
      assert (a + b)[1..] == a[1..] + b;
      NonNewlinesAppend(a[1..], b);
    }
  }

  /** Collapsing removes newlines only: every other character survives, in order. */
  lemma {:induction false} CollapseKeepsText(s: string)
    ensures NonNewlines(CollapseNewlines(s)) == NonNewlines(s)
    decreases |s|
  {
    if |s| < 2 {
    } else if s[..2] == "\n\n" {
      assert s == "\n\n" + s[2..];
      CollapseKeepsText(s[2..]);
      NonNewlinesAppend("\n", CollapseNewlines(s[2..]));
      NonNewlinesAppend("\n\n", s[2..]);
    } else {
      assert s == [s[0]] + s[1..];
      CollapseKeepsText(s[1..]);
      NonNewlinesAppend([s[0]], CollapseNewlines(s[1..]));
      NonNewlinesAppend([s[0]], s[1..]);
    }
  }

  // ---------------------------------------------------------------------
  // The text before the first occurrence of a marker
  // ---------------------------------------------------------------------

  /**
   * `s.split(m)[0]`: the longest prefix of `s` before the first occurrence
   * of `m`, or all of `s` when `m` does not occur.
   */
  function PrefixBefore(s: string, m: string): (r: string)
    requires m != []
    ensures r <= s
    ensures forall i: nat :: i < |r| ==> !OccursAt(s, m, i)
    ensures r == s <==> !Contains(s, m)
    ensures r != s ==> OccursAt(s, m, |r|)
    decreases |s|
  {
    if |s| < |m| then
      s
    else if s[..|m|] == m then
      assert OccursAt(s, m, 0);
      []
    else
      var tail := PrefixBefore(s[1..], m);
      PrefixBeforeStep(s, m, tail);
      [s[0]] + tail
  }

  /** One step of PrefixBefore: no match at index 0, so the result is the first character and the tail's result. */
  lemma PrefixBeforeStep(s: string, m: string, tail: string)
    requires m != [] && |s| > 0 && !OccursAt(s, m, 0)
    requires tail <= s[1..]
    requires forall i: nat :: i < |tail| ==> !OccursAt(s[1..], m, i)
    requires tail == s[1..] <==> !Contains(s[1..], m)
    requires tail != s[1..] ==> OccursAt(s[1..], m, |tail|)
    ensures [s[0]] + tail <= s
    ensures forall i: nat :: i < |tail| + 1 ==> !OccursAt(s, m, i)
    ensures [s[0]] + tail == s <==> !Contains(s, m)
    ensures [s[0]] + tail != s ==> OccursAt(s, m, |tail| + 1)
  {
    assert s == [s[0]] + s[1..];
    forall i: nat | 0 < i < |tail| + 1
      ensures !OccursAt(s, m, i)
    {
      if OccursAt(s, m, i) {
        OccursInSeq(s, m, i);
      }
    }
    if tail != s[1..] {
      OccursInTail(s, m, |tail|);
    }
    ContainsIffInTail(s, m);
  }

  /** A text that starts before the first marker does not contain the marker. */
  lemma PrefixBeforeHasNoMarker(s: string, m: string)
    requires m != []
    ensures !Contains(PrefixBefore(s, m), m)
  {
    var r := PrefixBefore(s, m);
    forall i: nat | i <= |r|
      ensures !OccursAt(r, m, i)
    {
      if i + |m| <= |r| {
        assert !OccursAt(s, m, i);
        assert r[i..i + |m|] == s[i..i + |m|];
      }
    }
  }

  /** Only the first marker matters: whatever follows it does not change the result. */
  lemma PrefixBeforeIgnoresRest(s: string, m: string, t: string)
    requires m != [] && Contains(s, m)
    ensures PrefixBefore(s + t, m) == PrefixBefore(s, m)
  {
    var p := PrefixBefore(s, m);
    assert OccursAt(s, m, |p|);
    assert (s + t)[|p|..|p| + |m|] == s[|p|..|p| + |m|];
    forall i: nat | i < |p|
      ensures !OccursAt(s + t, m, i)
    {
      assert !OccursAt(s, m, i);
      assert (s + t)[i..i + |m|] == s[i..i + |m|];
    }
    assert p <= s + t;
    PrefixBeforeUnique(s + t, m, p);
  }

  /**
   * PrefixBefore is determined by its specification: a prefix that no
   * occurrence starts inside, and that ends at an occurrence or at the end
   * of the text, is the one it returns.
   */
  lemma PrefixBeforeUnique(s: string, m: string, p: string)
    requires m != [] && p <= s
    requires forall i: nat :: i < |p| ==> !OccursAt(s, m, i)
    requires p == s || OccursAt(s, m, |p|)
    ensures PrefixBefore(s, m) == p
  {
    var q := PrefixBefore(s, m);
    assert q == s[..|q|] && p == s[..|p|];
  }

  // ---------------------------------------------------------------------
  // Trimming whitespace
  // ---------------------------------------------------------------------

  /**
   * The characters `String.prototype.trim` removes: ECMAScript WhiteSpace
   * (tab, vertical tab, form feed, space, no-break space, the byte order
   * mark and the Unicode space separators) and LineTerminator (line feed,
   * carriage return, line and paragraph separators).
   */
  predicate IsWhitespace(c: char)
  {
    || c == '\t' || c == '\n' || c == '\U{000B}' || c == '\U{000C}' || c == '\r'
    || c == ' ' || c == '\U{00A0}' || c == '\U{1680}'
    || ('\U{2000}' <= c <= '\U{200A}')
    || c == '\U{2028}' || c == '\U{2029}' || c == '\U{202F}' || c == '\U{205F}'
    || c == '\U{3000}' || c == '\U{FEFF}'
  }

  predicate AllWhitespace(s: string)
  {
    forall i :: 0 <= i < |s| ==> IsWhitespace(s[i])
  }

  /** Neither the first nor the last character is whitespace. */
  predicate Trimmed(s: string)
  {
    s == [] || (!IsWhitespace(s[0]) && !IsWhitespace(s[|s| - 1]))
  }

  /** Drops the leading whitespace. */
  function TrimStart(s: string): string
    decreases |s|
  {
    if s != [] && IsWhitespace(s[0]) then TrimStart(s[1..]) else s
  }

  /** Drops the trailing whitespace. */
  function TrimEnd(s: string): string
    decreases |s|
  {
    if s != [] && IsWhitespace(s[|s| - 1]) then TrimEnd(s[..|s| - 1]) else s
  }

  /** TrimStart removes a whitespace prefix and stops at the first non-space. */
  lemma {:induction false} TrimStartDrops(s: string) returns (i: nat)
    ensures i <= |s| && TrimStart(s) == s[i..]
    ensures AllWhitespace(s[..i])
    ensures i < |s| ==> !IsWhitespace(s[i])
    decreases |s|
  {
    if s != [] && IsWhitespace(s[0]) {
      var k := TrimStartDrops(s[1..]);
      i := k + 1;
      assert s[1..][k..] == s[i..];
      forall t | 0 <= t < i
        ensures IsWhitespace(s[..i][t])
      {
        if t > 0 {
          assert s[..i][t] == s[1..][..k][t - 1];
        }
      }
    } else {
      i := 0;
    }
  }

  /** TrimEnd removes a whitespace suffix and stops at the last non-space. */
  lemma {:induction false} TrimEndDrops(s: string) returns (j: nat)
    ensures j <= |s| && TrimEnd(s) == s[..j]
    ensures AllWhitespace(s[j..])
    ensures 0 < j ==> !IsWhitespace(s[j - 1])
    decreases |s|
  {
    if s != [] && IsWhitespace(s[|s| - 1]) {
      var s' := s[..|s| - 1];
      j := TrimEndDrops(s');
      assert s'[..j] == s[..j];
      forall t | 0 <= t < |s| - j
        ensures IsWhitespace(s[j..][t])
      {
        if t < |s'| - j {
          assert s[j..][t] == s'[j..][t];
        }
      }
    } else {
      j := |s|;
    }
  }

  /** `s.trim()`. */
  function Trim(s: string): (r: string)
    ensures Trimmed(r)
  {
    TrimmedResult(s);
    TrimEnd(TrimStart(s))
  }

  /** Trim yields a slice of the text with only whitespace outside it. */
  lemma TrimIsSlice(s: string) returns (i: nat, j: nat)
    ensures i <= j <= |s| && Trim(s) == s[i..j]
    ensures AllWhitespace(s[..i]) && AllWhitespace(s[j..])
  {
    i := TrimStartDrops(s);
    var t := s[i..];
    var b := TrimEndDrops(t);
    j := i + b;
    assert t[..b] == s[i..j];
    assert t[b..] == s[j..];
  }

  lemma TrimmedResult(s: string)
    ensures Trimmed(TrimEnd(TrimStart(s)))
  {
    var i := TrimStartDrops(s);
    var t := s[i..];
    var b := TrimEndDrops(t);
    if b > 0 {
      assert t[..b][0] == s[i];
      assert t[..b][b - 1] == t[b - 1];
    }
  }

  /** A whitespace-only text trims to nothing at the start. */
  lemma {:induction false} TrimStartAllWhitespace(s: string)
    requires AllWhitespace(s)
    ensures TrimStart(s) == []
    decreases |s|
  {
    if s != [] {
      TrimStartAllWhitespace(s[1..]);
    }
  }

  /** Leading whitespace followed by a non-space: TrimStart stops at the non-space. */
  lemma {:induction false} TrimStartAt(s: string, i: nat)
    requires i < |s| && AllWhitespace(s[..i]) && !IsWhitespace(s[i])
    ensures TrimStart(s) == s[i..]
    decreases i
  {
    if i > 0 {
      assert s[1..][..i - 1] == s[1..i];
      TrimStartAt(s[1..], i - 1);
    }
  }

  /** Trailing whitespace after a non-space: TrimEnd stops at the non-space. */
  lemma {:induction false} TrimEndAt(s: string, j: nat)
    requires 0 < j <= |s| && AllWhitespace(s[j..]) && !IsWhitespace(s[j - 1])
    ensures TrimEnd(s) == s[..j]
    decreases |s| - j
  {
    if j < |s| {
      var s' := s[..|s| - 1];
      assert s'[j..] == s[j..|s| - 1];
      TrimEndAt(s', j);
      assert s'[..j] == s[..j];
    }
  }

  /**
   * The trim of a text is determined by the specification alone: a
   * trimmed slice with only whitespace around it is the result of Trim.
   */
  lemma TrimUnique(s: string, i: nat, j: nat)
    requires i <= j <= |s| && AllWhitespace(s[..i]) && AllWhitespace(s[j..])
    requires Trimmed(s[i..j])
    ensures Trim(s) == s[i..j]
  {
    if i == j {
      EmptyCoreIsAllWhitespace(s, i);
      TrimStartAllWhitespace(s);
    } else {
      assert s[i..j][0] == s[i];
      TrimStartAt(s, i);
      var t := s[i..];
      assert t[j - i..] == s[j..];
      assert t[j - i - 1] == s[i..j][j - i - 1];
      TrimEndAt(t, j - i);
      assert t[..j - i] == s[i..j];
    }
  }

  lemma EmptyCoreIsAllWhitespace(s: string, i: nat)
    requires i <= |s| && AllWhitespace(s[..i]) && AllWhitespace(s[i..])
    ensures AllWhitespace(s)
  {
    forall k | 0 <= k < |s| ensures IsWhitespace(s[k]) {
      if k < i {
        assert s[..i][k] == s[k];
      } else {
        assert s[i..][k - i] == s[k];
      }
    }
  }

  /** Trimming a trimmed text leaves it unchanged, so trimming is idempotent. */
  lemma TrimIdempotent(s: string)
    ensures Trimmed(s) ==> Trim(s) == s
    ensures Trim(Trim(s)) == Trim(s)
  {
    if Trimmed(s) {
      assert s[..0] == [] && s[|s|..] == [] && s[0..|s|] == s;
      TrimUnique(s, 0, |s|);
    }
    var r := Trim(s);
    assert r[..0] == [] && r[|r|..] == [] && r[0..|r|] == r;
    TrimUnique(r, 0, |r|);
  }

  /** A slice of a text that lacks the marker also lacks it. */
  lemma SliceKeepsAbsence(s: string, i: nat, j: nat, m: string)
    requires i <= j <= |s| && !Contains(s, m)
    ensures !Contains(s[i..j], m)
  {
    var u := s[i..j];
    forall k: nat | k <= |u|
      ensures !OccursAt(u, m, k)
    {
      if k + |m| <= |u| {
        var inner, outer := u[k..k + |m|], s[i + k..i + k + |m|];
        assert forall t :: 0 <= t < |m| ==> inner[t] == outer[t];
        assert inner == outer;
        assert !OccursAt(s, m, i + k);
      }
    }
  }

  /** Trimming cannot introduce a marker. */
  lemma TrimKeepsAbsence(s: string, m: string)
    requires !Contains(s, m)
    ensures !Contains(Trim(s), m)
  {
    var i, j := TrimIsSlice(s);
    SliceKeepsAbsence(s, i, j, m);
  }

  // ---------------------------------------------------------------------
  // Joining with a separator
  // ---------------------------------------------------------------------

  /** `parts.join(sep)`. */
  function Join(parts: seq<string>, sep: string): string
  {
    if parts == [] then ""
    else if |parts| == 1 then parts[0]
    else parts[0] + sep + Join(parts[1..], sep)
  }

  /** Where part `i` starts in the joined text: every earlier part and its separator precede it. */
  function Offset(parts: seq<string>, sep: string, i: nat): nat
    requires i <= |parts|
  {
    if i == 0 then 0 else Offset(parts, sep, i - 1) + |parts[i - 1]| + |sep|
  }

  lemma {:induction false} OffsetOfTail(parts: seq<string>, sep: string, i: nat)
    requires 0 < i <= |parts|
    ensures Offset(parts, sep, i) == |parts[0]| + |sep| + Offset(parts[1..], sep, i - 1)
    decreases i
  {
    if i > 1 {
      OffsetOfTail(parts, sep, i - 1);
    }
  }

  /** A slice of the second half of a concatenation. */
  lemma SliceOfAppend(a: string, b: string, x: nat, y: nat)
    requires x <= y <= |b|
    ensures (a + b)[|a| + x..|a| + y] == b[x..y]
  {
    var u, v := (a + b)[|a| + x..|a| + y], b[x..y];
    assert forall t :: 0 <= t < |v| ==> u[t] == v[t];
  }

  lemma {:induction false} JoinLength(parts: seq<string>, sep: string)
    requires parts != []
    ensures |Join(parts, sep)| == Offset(parts, sep, |parts|) - |sep|
    decreases |parts|
  {
    if |parts| > 1 {
      JoinLength(parts[1..], sep);
      OffsetOfTail(parts, sep, |parts|);
    }
  }

  lemma {:induction false} JoinPartAt(parts: seq<string>, sep: string, i: nat)
    requires i < |parts|
    ensures Offset(parts, sep, i) + |parts[i]| <= |Join(parts, sep)|
    ensures Join(parts, sep)[Offset(parts, sep, i)..Offset(parts, sep, i) + |parts[i]|] == parts[i]
    decreases i
  {
    var j := Join(parts, sep);
    if i == 0 {
      assert j[..|parts[0]|] == parts[0];
    } else {
      var tail := parts[1..];
      var head := parts[0] + sep;
      var o := Offset(tail, sep, i - 1);
      assert j == head + Join(tail, sep);
      JoinPartAt(tail, sep, i - 1);
      OffsetOfTail(parts, sep, i);
      SliceOfAppend(head, Join(tail, sep), o, o + |parts[i]|);
    }
  }

  lemma {:induction false} JoinSepAt(parts: seq<string>, sep: string, i: nat)
    requires i + 1 < |parts|
    ensures Offset(parts, sep, i) + |parts[i]| <= Offset(parts, sep, i + 1) <= |Join(parts, sep)|
    ensures Join(parts, sep)[Offset(parts, sep, i) + |parts[i]|..Offset(parts, sep, i + 1)] == sep
    decreases i
  {
    JoinPartAt(parts, sep, i + 1);
    if i == 0 {
      JoinFirstSep(parts, sep);
    } else {
      var tail := parts[1..];
      var head := parts[0] + sep;
      assert Join(parts, sep) == head + Join(tail, sep);
      assert tail[i - 1] == parts[i];
      JoinSepAt(tail, sep, i - 1);
      OffsetOfTail(parts, sep, i);
      OffsetOfTail(parts, sep, i + 1);
      var o := Offset(tail, sep, i - 1);
      SliceOfAppend(head, Join(tail, sep), o + |parts[i]|, Offset(tail, sep, i));
    }
  }

  lemma JoinFirstSep(parts: seq<string>, sep: string)
    requires 1 < |parts|
    ensures |parts[0]| + |sep| <= |Join(parts, sep)|
    ensures Join(parts, sep)[|parts[0]|..|parts[0]| + |sep|] == sep
  {
    var j := Join(parts, sep);
    var rest := Join(parts[1..], sep);
    assert j == parts[0] + sep + rest;
    var u := j[|parts[0]|..|parts[0]| + |sep|];
    assert forall t :: 0 <= t < |sep| ==> u[t] == sep[t];
  }

  /** Part `i` of `parts` sits at Offset(i) in the text `j`. */
  ghost predicate PartAt(j: string, parts: seq<string>, sep: string, i: nat)
    requires i < |parts|
  {
    Offset(parts, sep, i) + |parts[i]| <= |j| &&
    j[Offset(parts, sep, i)..Offset(parts, sep, i) + |parts[i]|] == parts[i]
  }

  /** The separator fills the gap in `j` between part `i` and part `i + 1`. */
  ghost predicate SepAfter(j: string, parts: seq<string>, sep: string, i: nat)
    requires i + 1 < |parts|
  {
    Offset(parts, sep, i) + |parts[i]| <= Offset(parts, sep, i + 1) <= |j| &&
    j[Offset(parts, sep, i) + |parts[i]|..Offset(parts, sep, i + 1)] == sep
  }

  /**
   * The joined text is the parts in order with one separator between
   * neighbours and none at either end: part `i` sits at Offset(i), a
   * separator follows every part but the last, and nothing else is there.
   */
  lemma JoinLayout(parts: seq<string>, sep: string)
    ensures parts == [] ==> Join(parts, sep) == ""
    ensures parts != [] ==> |Join(parts, sep)| == Offset(parts, sep, |parts|) - |sep|
    ensures forall i: nat | i < |parts| :: PartAt(Join(parts, sep), parts, sep, i)
    ensures forall i: nat | i + 1 < |parts| :: SepAfter(Join(parts, sep), parts, sep, i)
  {
    if parts != [] {
      JoinLength(parts, sep);
    }
    forall i: nat | i < |parts|
      ensures PartAt(Join(parts, sep), parts, sep, i)
    {
      JoinPartAt(parts, sep, i);
    }
    forall i: nat | i + 1 < |parts|
      ensures SepAfter(Join(parts, sep), parts, sep, i)
    {
      JoinSepAt(parts, sep, i);
    }
  }

  /** Appending a part appends a separator and the part. */
  lemma {:induction false} JoinSnoc(parts: seq<string>, p: string, sep: string)
    requires parts != []
    ensures Join(parts + [p], sep) == Join(parts, sep) + sep + p
    decreases |parts|
  {
    if |parts| == 1 {
      assert parts + [p] == [parts[0], p];
    } else {
      assert (parts + [p])[1..] == parts[1..] + [p];
      JoinSnoc(parts[1..], p, sep);
    }
  }
}

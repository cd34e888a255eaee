/**
 * The handful of Go standard-library string operations the bot relies on
 * (`strings.ReplaceAll`, `strings.Index`, `strings.Split`, `strings.TrimSpace`
 * and the decimal formatting `fmt` uses for an `int`), stated over
 * `seq<char>`. A `char` stands for one rune of a valid UTF-8 Go string.
 */
module GoStrings {

  /** `sub` occurs in `s` starting at offset `i`. */
  predicate OccursAt(s: string, sub: string, i: int) {
    0 <= i && i + |sub| <= |s| && s[i..i + |sub|] == sub
  }

  /** `strings.Contains(s, sub)`. */
  predicate Contains(s: string, sub: string) {
    exists i | 0 <= i <= |s| - |sub| :: OccursAt(s, sub, i)
  }

  predicate HasPrefix(s: string, p: string) {
    |p| <= |s| && s[..|p|] == p
  }

  /** A string starts with every string it is built from on the left. */
  lemma PrefixOfConcat(p: string, q: string)
    ensures HasPrefix(p + q, p)
  {
    assert (p + q)[..|p|] == p;
  }

  /** Reading a prefix of the suffix at `i` is reading an occurrence at `i`. */
  lemma PrefixAtOffset(s: string, sub: string, i: nat)
    requires i <= |s|
    ensures HasPrefix(s[i..], sub) <==> OccursAt(s, sub, i)
  {
    if i + |sub| <= |s| {
      assert s[i..][..|sub|] == s[i..i + |sub|];
    }
  }

  /** The leftmost occurrence of `sub` in `s` at or after `i`, or -1. */
  function IndexFrom(s: string, sub: string, i: nat): (r: int)
    ensures r == -1 || (i <= r && OccursAt(s, sub, r))
    ensures r >= 0 ==> forall j :: i <= j < r ==> !OccursAt(s, sub, j)
    ensures r == -1 ==> forall j :: i <= j ==> !OccursAt(s, sub, j)
    decreases |s| - i
  {
    if i + |sub| > |s| then -1
    else if OccursAt(s, sub, i) then i
    else IndexFrom(s, sub, i + 1)
  }

  /** `strings.Index`: the leftmost occurrence of `sub` in `s`, or -1. */
  function Index(s: string, sub: string): (r: int)
    ensures r == -1 || OccursAt(s, sub, r)
    ensures r >= 0 ==> forall j :: 0 <= j < r ==> !OccursAt(s, sub, j)
    ensures r == -1 <==> !Contains(s, sub)
  {
    IndexFrom(s, sub, 0)
  }

  // ---------------------------------------------------------------------
  // strings.ReplaceAll
  // ---------------------------------------------------------------------

  /**
   * `strings.ReplaceAll(s, needle, repl)`. A non-empty `needle` is searched for left
   * to right and each occurrence found is replaced, the search resuming after
   * it, so occurrences never overlap. An empty `needle` matches before every rune
   * and once more at the end.
   */
  function ReplaceAll(s: string, needle: string, repl: string): string
    decreases |s|
  {
    if |needle| == 0 then
      if |s| == 0 then repl else repl + [s[0]] + ReplaceAll(s[1..], needle, repl)
    else if HasPrefix(s, needle) then
      repl + ReplaceAll(s[|needle|..], needle, repl)
    else if |s| == 0 then
      []
    else
      [s[0]] + ReplaceAll(s[1..], needle, repl)
  }

  /** Replacing a string by itself changes nothing. */
  lemma {:induction false} ReplaceAllSelf(s: string, needle: string)
    ensures ReplaceAll(s, needle, needle) == s
    decreases |s|
  {
    if |needle| == 0 {
      if |s| > 0 {
        ReplaceAllSelf(s[1..], needle);
        assert s == [s[0]] + s[1..];
      }
    } else if HasPrefix(s, needle) {
      ReplaceAllSelf(s[|needle|..], needle);
      assert s == s[..|needle|] + s[|needle|..];
    } else if |s| > 0 {
      ReplaceAllSelf(s[1..], needle);
      assert s == [s[0]] + s[1..];
    }
  }

  /** One rune that does not start an occurrence of `needle` is copied. */
  lemma ReplaceAllSkip(t: string, needle: string, repl: string)
    requires |needle| > 0 && |t| > 0 && !HasPrefix(t, needle)
    ensures ReplaceAll(t, needle, repl) == [t[0]] + ReplaceAll(t[1..], needle, repl)
  {
  }

  /** A slice is its first element followed by the rest. */
  lemma SliceCons(s: string, i: nat, k: nat)
    requires i < k <= |s|
    ensures s[i..k] == [s[i]] + s[i + 1..k]
  {
  }

  /** Re-associates `[x] + (y + r)` once both halves are named. */
  lemma ConsJoin(a: string, b: string, x: char, y: string, z: string, r: string)
    requires a == [x] + b && b == y + r && z == [x] + y
    ensures a == z + r
  {
  }

  /** Where no occurrence starts at `i`, `ReplaceAll` of the suffix at `i` copies `s[i]`. */
  lemma ReplaceAllStepAt(s: string, needle: string, repl: string, i: nat)
    requires |needle| > 0 && i < |s| && !OccursAt(s, needle, i)
    ensures ReplaceAll(s[i..], needle, repl) == [s[i]] + ReplaceAll(s[i + 1..], needle, repl)
  {
    PrefixAtOffset(s, needle, i);
    ReplaceAllSkip(s[i..], needle, repl);
    assert s[i..][1..] == s[i + 1..];
  }

  /**
   * A stretch `s[i..k]` in which no occurrence of a non-empty `needle` starts
   * is copied unchanged.
   */
  lemma {:induction false} ReplaceAllCopiesStretch(s: string, needle: string, repl: string, i: nat, k: nat)
    requires |needle| > 0
    requires i <= k <= |s|
    requires forall j :: i <= j < k ==> !OccursAt(s, needle, j)
    ensures ReplaceAll(s[i..], needle, repl) == s[i..k] + ReplaceAll(s[k..], needle, repl)
    decreases k - i
  {
    if i < k {
      var rest := ReplaceAll(s[k..], needle, repl);
      ReplaceAllCopiesStretch(s, needle, repl, i + 1, k);
      ReplaceAllStepAt(s, needle, repl, i);
      SliceCons(s, i, k);
      ConsJoin(ReplaceAll(s[i..], needle, repl), ReplaceAll(s[i + 1..], needle, repl), s[i], s[i + 1..k], s[i..k], rest);
    } else {
      assert s[i..k] == [];
    }
  }

  /**
   * The left-to-right, non-overlapping reading of `ReplaceAll` for a
   * non-empty `needle`: the text before the leftmost occurrence is kept, that
   * occurrence becomes `repl`, and replacement resumes right after it.
   */
  lemma ReplaceAllLeftmost(s: string, needle: string, repl: string)
    requires |needle| > 0
    ensures var i := Index(s, needle);
      if i < 0 then ReplaceAll(s, needle, repl) == s
      else ReplaceAll(s, needle, repl) == s[..i] + repl + ReplaceAll(s[i + |needle|..], needle, repl)
  {
    var i := Index(s, needle);
    if i < 0 {
      ReplaceAllAbsent(s, needle, repl);
    } else {
      var rest := ReplaceAll(s[i + |needle|..], needle, repl);
      assert ReplaceAll(s[i..], needle, repl) == repl + rest by {
        PrefixAtOffset(s, needle, i);
        assert s[i..][|needle|..] == s[i + |needle|..];
      }
      assert ReplaceAll(s, needle, repl) == s[..i] + ReplaceAll(s[i..], needle, repl) by {
        ReplaceAllCopiesStretch(s, needle, repl, 0, i);
        assert s[0..] == s;
        assert s[0..i] == s[..i];
      }
    }
  }

  /** Text in which `needle` does not occur comes back unchanged. */
  lemma ReplaceAllAbsent(s: string, needle: string, repl: string)
    requires !Contains(s, needle)
    ensures ReplaceAll(s, needle, repl) == s
  {
    assert |needle| > 0 by {
      if |needle| == 0 {
        assert OccursAt(s, needle, 0);
      }
    }
    ReplaceAllCopiesStretch(s, needle, repl, 0, |s|);
    assert s[0..] == s;
    assert s[|s|..] == [];
    assert !HasPrefix([], needle);
  }

  /** Where the `k`-th copy of a replacement of length `n` starts. */
  function Slot(k: nat, n: nat): nat {
    k * (n + 1)
  }

  lemma SlotStep(k: nat, n: nat)
    requires k > 0
    ensures Slot(k, n) == Slot(k - 1, n) + n + 1
  {
  }

  /** One step of `ReplaceAll` with an empty `needle`. */
  lemma ReplaceAllEmptyStep(s: string, repl: string)
    requires |s| > 0
    ensures ReplaceAll(s, [], repl) == (repl + [s[0]]) + ReplaceAll(s[1..], [], repl)
  {
  }

  /**
   * With an empty `needle`, `repl` is written before every rune of `s` and once
   * more at the end: `|s| + 1` copies of `repl`, with the runes of `s` in
   * between in their original order (the `k`-th copy starts at
   * `Slot(k, |repl|) == k * (|repl| + 1)`).
   */
  lemma {:induction false} ReplaceAllEmptyNeedle(s: string, repl: string)
    ensures var r := ReplaceAll(s, [], repl);
      && |r| == Slot(|s|, |repl|) + |repl|
      && (forall k :: 0 <= k <= |s| ==> Slot(k, |repl|) + |repl| <= |r| && r[Slot(k, |repl|)..Slot(k, |repl|) + |repl|] == repl)
      && (forall k :: 0 <= k < |s| ==> Slot(k, |repl|) + |repl| < |r| && r[Slot(k, |repl|) + |repl|] == s[k])
    decreases |s|
  {
    var n := |repl|;
    var r := ReplaceAll(s, [], repl);
    if |s| > 0 {
      var r' := ReplaceAll(s[1..], [], repl);
      ReplaceAllEmptyNeedle(s[1..], repl);
      ReplaceAllEmptyStep(s, repl);
      var head := repl + [s[0]];
      assert r == head + r';
      SlotStep(|s|, n);
      EmptyNeedleCopies(s, repl, head, r, r');
      EmptyNeedleRunes(s, repl, head, r, r');
    } else {
      assert r == repl;
    }
  }

  lemma ShiftSlice(head: string, tail: string, a: nat, n: nat)
    requires |head| == n + 1 && a + n <= |tail|
    ensures (head + tail)[a + n + 1..a + n + 1 + n] == tail[a..a + n]
  {
  }

  /** The copies of `repl` in the tail move up by one slot. */
  lemma EmptyNeedleCopies(s: string, repl: string, head: string, r: string, r': string)
    requires |s| > 0
    requires head == repl + [s[0]] && r == head + r'
    requires |r'| == Slot(|s| - 1, |repl|) + |repl|
    requires forall k :: 0 <= k <= |s| - 1 ==> Slot(k, |repl|) + |repl| <= |r'| && r'[Slot(k, |repl|)..Slot(k, |repl|) + |repl|] == repl
    ensures forall k :: 0 <= k <= |s| ==> Slot(k, |repl|) + |repl| <= |r| && r[Slot(k, |repl|)..Slot(k, |repl|) + |repl|] == repl
  {
    var n := |repl|;
    forall k | 0 <= k <= |s|
      ensures Slot(k, n) + n <= |r| && r[Slot(k, n)..Slot(k, n) + n] == repl
    {
      if k > 0 {
        var a := Slot(k - 1, n);
        SlotStep(k, n);
        ShiftSlice(head, r', a, n);
      } else {
        assert r[..n] == repl;
      }
    }
  }

  /** The runes of the tail move up by one slot. */
  lemma EmptyNeedleRunes(s: string, repl: string, head: string, r: string, r': string)
    requires |s| > 0
    requires head == repl + [s[0]] && r == head + r'
    requires forall k :: 0 <= k < |s| - 1 ==> Slot(k, |repl|) + |repl| < |r'| && r'[Slot(k, |repl|) + |repl|] == s[1..][k]
    ensures forall k :: 0 <= k < |s| ==> Slot(k, |repl|) + |repl| < |r| && r[Slot(k, |repl|) + |repl|] == s[k]
  {
    var n := |repl|;
    forall k | 0 <= k < |s|
      ensures Slot(k, n) + n < |r| && r[Slot(k, n) + n] == s[k]
    {
      if k > 0 {
        var a := Slot(k - 1, n);
        SlotStep(k, n);
        assert r'[a + n] == s[k];
        assert r[a + n + 1 + n] == r'[a + n];
      }
    }
  }

  /** Occurrences are consumed left to right: "aaa" holds only one "aa". */
  lemma ReplaceAllNonOverlapping(repl: string)
    ensures ReplaceAll("aaa", "aa", repl) == repl + "a"
  {
    assert HasPrefix("aaa", "aa");
    assert "aaa"[2..] == "a";
    assert !HasPrefix("a", "aa");
    assert "a"[1..] == "";
  }

  // ---------------------------------------------------------------------
  // strings.Split and its inverse
  // ---------------------------------------------------------------------

  /** `strings.Join(parts, string([sep]))`. */
  function Join(parts: seq<string>, sep: char): string
    requires |parts| >= 1
  {
    if |parts| == 1 then parts[0] else parts[0] + [sep] + Join(parts[1..], sep)
  }

  /**
   * `strings.Split(s, string([sep]))`: the pieces between separators, so
   * there is always at least one piece, and a separator at the very end
   * yields an empty last piece.
   */
  function Split(s: string, sep: char): (parts: seq<string>)
    ensures |parts| >= 1
    ensures forall i :: 0 <= i < |parts| ==> sep !in parts[i]
    ensures Join(parts, sep) == s
    decreases |s|
  {
    if |s| == 0 then
      [[]]
    else
      var rest := Split(s[1..], sep);
      if s[0] == sep then
        assert Join([[]] + rest, sep) == [] + [sep] + Join(rest, sep);
        [[]] + rest
      else
        var parts := [[s[0]] + rest[0]] + rest[1..];
        assert Join(parts, sep) == [s[0]] + Join(rest, sep) by {
          if |rest| > 1 {
            assert parts[1..] == rest[1..];
          }
        }
        parts
  }

  /** Splitting undoes joining when no piece contains the separator. */
  lemma {:induction false} SplitJoin(parts: seq<string>, sep: char)
    requires |parts| >= 1
    requires forall i :: 0 <= i < |parts| ==> sep !in parts[i]
    ensures Split(Join(parts, sep), sep) == parts
    decreases |parts|, |parts[0]|
  {
    var p := parts[0];
    if |p| == 0 {
      if |parts| > 1 {
        var j := Join(parts[1..], sep);
        assert Join(parts, sep) == [sep] + j;
        assert ([sep] + j)[1..] == j;
        SplitJoin(parts[1..], sep);
        assert parts == [[]] + parts[1..];
      }
    } else {
      var tail := [p[1..]] + parts[1..];
      assert tail[1..] == parts[1..];
      assert Join(parts, sep) == [p[0]] + Join(tail, sep);
      assert ([p[0]] + Join(tail, sep))[1..] == Join(tail, sep);
      assert sep !in tail[0];
      SplitJoin(tail, sep);
      assert p == [p[0]] + p[1..];
      assert parts == [[p[0]] + tail[0]] + tail[1..];
    }
  }

  /** A separator at the very end leaves an empty last piece. */
  lemma {:induction false} SplitTrailingSeparator(s: string, sep: char)
    requires |s| > 0 && s[|s| - 1] == sep
    ensures var parts := Split(s, sep); |parts| >= 2 && parts[|parts| - 1] == []
    decreases |s|
  {
    if |s| > 1 {
      var rest := Split(s[1..], sep);
      SplitTrailingSeparator(s[1..], sep);
    }
  }

  // ---------------------------------------------------------------------
  // strings.TrimSpace
  // ---------------------------------------------------------------------

  /** `unicode.IsSpace`: the runes Go treats as white space. */
  predicate IsSpace(c: char) {
    || c == ' ' || c == '\t' || c == '\n' || c == '\r'
    || c == '\U{000B}' || c == '\U{000C}' || c == '\U{0085}' || c == '\U{00A0}'
    || c == '\U{1680}' || ('\U{2000}' <= c <= '\U{200A}')
    || c == '\U{2028}' || c == '\U{2029}' || c == '\U{202F}' || c == '\U{205F}'
    || c == '\U{3000}'
  }

  /** Index of the first non-space rune at or after `i`, or `|s|`. */
  function TrimStart(s: string, i: nat): (k: nat)
    requires i <= |s|
    ensures i <= k <= |s|
    ensures forall j :: i <= j < k ==> IsSpace(s[j])
    ensures k < |s| ==> !IsSpace(s[k])
    decreases |s| - i
  {
    if i == |s| || !IsSpace(s[i]) then i else TrimStart(s, i + 1)
  }

  /** One past the last non-space rune at or before `e`, but not below `lo`. */
  function TrimEnd(s: string, lo: nat, e: nat): (k: nat)
    requires lo <= e <= |s|
    ensures lo <= k <= e
    ensures forall j :: k <= j < e ==> IsSpace(s[j])
    ensures k > lo ==> !IsSpace(s[k - 1])
    decreases e
  {
    if e == lo || !IsSpace(s[e - 1]) then e else TrimEnd(s, lo, e - 1)
  }

  /** `r` is `s` with only white space removed before offset `i` and after `r`. */
  ghost predicate TrimmedAt(s: string, r: string, i: int) {
    && 0 <= i <= |s| - |r|
    && s[i..i + |r|] == r
    && (forall j :: 0 <= j < i ==> IsSpace(s[j]))
    && (forall j :: i + |r| <= j < |s| ==> IsSpace(s[j]))
  }

  /** `strings.TrimSpace`. */
  function TrimSpace(s: string): (r: string)
    ensures |r| <= |s|
    ensures |r| > 0 ==> !IsSpace(r[0]) && !IsSpace(r[|r| - 1])
    ensures exists i :: TrimmedAt(s, r, i)
  {
    var i := TrimStart(s, 0);
    var e := TrimEnd(s, i, |s|);
    assert TrimmedAt(s, s[i..e], i);
    s[i..e]
  }

  /** Text that neither starts nor ends with white space is left alone. */
  lemma TrimSpaceOfTrimmed(s: string)
    requires |s| == 0 || (!IsSpace(s[0]) && !IsSpace(s[|s| - 1]))
    ensures TrimSpace(s) == s
  {
    assert TrimStart(s, 0) == 0;
    assert TrimEnd(s, 0, |s|) == |s|;
    assert s[0..|s|] == s;
  }

  /** Trimming only removes: every rune of the result is a rune of the input. */
  lemma TrimSpaceKeepsRunes(s: string, c: char)
    requires c in TrimSpace(s)
    ensures c in s
  {
    var r := TrimSpace(s);
    var i :| TrimmedAt(s, r, i);
    var k :| 0 <= k < |r| && r[k] == c;
    assert s[i..i + |r|][k] == s[i + k];
  }

  /** Trimming twice is trimming once. */
  lemma TrimSpaceIdempotent(s: string)
    ensures TrimSpace(TrimSpace(s)) == TrimSpace(s)
  {
    TrimSpaceOfTrimmed(TrimSpace(s));
  }

  // ---------------------------------------------------------------------
  // Decimal formatting of a count (`%v` of an int)
  // ---------------------------------------------------------------------

  predicate IsDigit(c: char) {
    '0' <= c <= '9'
  }

  function DigitValue(c: char): nat
    requires IsDigit(c)
  {
    (c - '0') as nat
  }

  /** The value of a string of decimal digits. */
  function DecimalValue(s: string): nat
    requires forall i :: 0 <= i < |s| ==> IsDigit(s[i])
  {
    if |s| == 0 then 0 else DecimalValue(s[..|s| - 1]) * 10 + DigitValue(s[|s| - 1])
  }

  /** The decimal notation of `n`: digits only, no leading zero. */
  function Itoa(n: nat): (r: string)
    ensures |r| >= 1
    ensures forall i :: 0 <= i < |r| ==> IsDigit(r[i])
    ensures r[0] == '0' ==> n == 0 && r == "0"
    ensures DecimalValue(r) == n
  {
    var d := ['0' + (n % 10) as char];
    assert DigitValue(d[0]) == n % 10;
    if n < 10 then
      assert DecimalValue(d) == DecimalValue(d[..0]) * 10 + n % 10;
      d
    else
      var hi := Itoa(n / 10);
      var r := hi + d;
      assert r[..|r| - 1] == hi;
      r
  }
}

/**
 * The closed set of link fixers and what each does to a link.
 *
 * Go's `regexp` package is not modelled: a `RegexEngine` value stands for it,
 * telling whether a pattern compiles and what `ReplaceAllString` yields.
 */
module Fixers {
  import opened GoStrings
  import opened Results

  /** `regexp.Compile(p) == nil error` and `re.ReplaceAllString(link, repl)`. */
  datatype RegexEngine = RegexEngine(
    compiles: string -> bool,
    replaceAll: (string, string, string) -> string)

  /**
   * `ReplaceFixer{Old, New}`, `RegexpReplaceFixer{Pattern, Replacement}` and
   * `PrependFixer{Prefix}`: the three types registered for serialisation.
   */
  datatype Fixer =
    | Replace(oldText: string, newText: string)
    | RegexpReplace(pattern: string, replacement: string)
    | Prepend(prefix: string)

  datatype FixerKind = ReplaceKind | RegexpKind | PrependKind

  function KindOf(f: Fixer): FixerKind {
    match f
    case Replace(_, _) => ReplaceKind
    case RegexpReplace(_, _) => RegexpKind
    case Prepend(_) => PrependKind
  }

  /** `Fix(link)`: the corrected copy of `link`. */
  function Fix(f: Fixer, link: string, re: RegexEngine): (r: string)
    ensures f.Prepend? ==> |r| == |f.prefix| + |link| && r[..|f.prefix|] == f.prefix && r[|f.prefix|..] == link
    ensures f.RegexpReplace? && !re.compiles(f.pattern) ==> r == ""
    ensures f.Replace? && !Contains(link, f.oldText) ==> r == link
  {
    match f
    case Replace(o, n) =>
      assert !Contains(link, o) ==> ReplaceAll(link, o, n) == link by {
        if !Contains(link, o) {
          ReplaceAllAbsent(link, o, n);
        }
      }
      ReplaceAll(link, o, n)
    case RegexpReplace(p, repl) =>
      if re.compiles(p) then re.replaceAll(p, link, repl) else ""
    case Prepend(p) =>
      p + link
  }

  /** A replace fixer whose old and new text agree leaves every link alone. */
  lemma ReplaceSameTextIsIdentity(t: string, link: string, re: RegexEngine)
    ensures Fix(Replace(t, t), link, re) == link
  {
    ReplaceAllSelf(link, t);
  }

  /**
   * A replace fixer rewrites the leftmost occurrence of its old text and
   * carries on after it, so occurrences never overlap.
   */
  lemma ReplaceRewritesLeftmost(o: string, n: string, link: string, re: RegexEngine)
    requires |o| > 0 && Contains(link, o)
    ensures var i := Index(link, o);
      && 0 <= i && i + |o| <= |link| && link[i..i + |o|] == o
      && Fix(Replace(o, n), link, re) == link[..i] + n + Fix(Replace(o, n), link[i + |o|..], re)
  {
    ReplaceAllLeftmost(link, o, n);
  }

  /** A replace fixer with empty old text puts the new text around every rune. */
  lemma ReplaceEmptyOldInterleaves(n: string, link: string, re: RegexEngine)
    ensures var r := Fix(Replace([], n), link, re);
      && |r| == |link| * (|n| + 1) + |n|
      && (forall k :: 0 <= k <= |link| ==> Slot(k, |n|) + |n| <= |r| && r[Slot(k, |n|)..Slot(k, |n|) + |n|] == n)
      && (forall k :: 0 <= k < |link| ==> Slot(k, |n|) + |n| < |r| && r[Slot(k, |n|) + |n|] == link[k])
  {
    ReplaceAllEmptyNeedle(link, n);
  }

  /** `String()`: the human-readable form shown when listing fixers. */
  function Describe(f: Fixer): string {
    match f
    case Replace(o, n) => "replace '" + o + "' with '" + n + "'"
    case RegexpReplace(p, r) => "regex replace '" + p + "' with '" + r + "'"
    case Prepend(p) => "prepend '" + p + "'"
  }

  /** Reads the kind of fixer back from its description. */
  function KindOfDescription(d: string): (k: Option<FixerKind>)
    ensures k.Some? ==> |d| >= 9
  {
    if HasPrefix(d, "regex replace '") then Some(RegexpKind)
    else if HasPrefix(d, "replace '") then Some(ReplaceKind)
    else if HasPrefix(d, "prepend '") then Some(PrependKind)
    else None
  }

  /** The description always tells which kind of fixer it describes. */
  lemma DescribeRevealsKind(f: Fixer)
    ensures KindOfDescription(Describe(f)) == Some(KindOf(f))
  {
    var d := Describe(f);
    match f
    case Replace(o, n) =>
      assert d[..9] == "replace '";
      assert !HasPrefix(d, "regex replace '") by {
        if |d| >= 15 {
          assert d[..15][2] == d[2];
        }
      }
    case RegexpReplace(p, r) =>
      assert d[..15] == "regex replace '";
    case Prepend(p) =>
      assert d[..9] == "prepend '";
      assert !HasPrefix(d, "regex replace '") by {
        if |d| >= 15 {
          assert d[..15][0] == d[0];
        }
      }
      assert !HasPrefix(d, "replace '") by {
        assert d[..9][0] == d[0];
      }
  }

  /** Distinct prefixes give distinct descriptions. */
  lemma DescribePrependInjective(a: string, b: string)
    requires Describe(Prepend(a)) == Describe(Prepend(b))
    ensures a == b
  {
    var d := Describe(Prepend(a));
    assert a == d[9..|d| - 1];
    assert b == d[9..|d| - 1];
  }
}

/**
 * The older fixer types, kept alongside the current ones: the same three
 * kinds, with the regular-expression kind named `ReplaceRegexFixer`, and
 * each with its own `Fix` and `String`. The two sets of types behave alike;
 * the lemmas here say so pointwise.
 */
module LegacyFixers {
  import opened GoStrings
  import Fixers

  /** `ReplaceFixer{Old, New}`, `ReplaceRegexFixer{Pattern, Replacement}` and `PrependFixer{Prefix}`. */
  datatype LegacyFixer =
    | ReplaceFixer(oldText: string, newText: string)
    | ReplaceRegexFixer(pattern: string, replacement: string)
    | PrependFixer(prefix: string)

  /** `Fix(link)` of the older types. */
  function Fix(f: LegacyFixer, link: string, re: Fixers.RegexEngine): (r: string)
    ensures f.PrependFixer? ==> HasPrefix(r, f.prefix) && r[|f.prefix|..] == link
    ensures f.ReplaceRegexFixer? && !re.compiles(f.pattern) ==> r == ""
    ensures f.ReplaceFixer? && !Contains(link, f.oldText) ==> r == link
  {
    match f
    case ReplaceFixer(o, n) =>
      assert !Contains(link, o) ==> ReplaceAll(link, o, n) == link by {
        if !Contains(link, o) {
          ReplaceAllAbsent(link, o, n);
        }
      }
      ReplaceAll(link, o, n)
    case ReplaceRegexFixer(p, repl) =>
      if re.compiles(p) then re.replaceAll(p, link, repl) else ""
    case PrependFixer(p) =>
      assert (p + link)[..|p|] == p;
      p + link
  }

  /** `String()` of the older types. */
  function String(f: LegacyFixer): string {
    match f
    case ReplaceFixer(o, n) => "replace '" + o + "' with '" + n + "'"
    case ReplaceRegexFixer(p, r) => "regex replace '" + p + "' with '" + r + "'"
    case PrependFixer(p) => "prepend '" + p + "'"
  }

  /** The current type of the same kind and fields. */
  function Upgrade(f: LegacyFixer): (g: Fixers.Fixer)
    ensures Downgrade(g) == f
  {
    match f
    case ReplaceFixer(o, n) => Fixers.Replace(o, n)
    case ReplaceRegexFixer(p, r) => Fixers.RegexpReplace(p, r)
    case PrependFixer(p) => Fixers.Prepend(p)
  }

  /** The older type of the same kind and fields. */
  function Downgrade(g: Fixers.Fixer): LegacyFixer {
    match g
    case Replace(o, n) => ReplaceFixer(o, n)
    case RegexpReplace(p, r) => ReplaceRegexFixer(p, r)
    case Prepend(p) => PrependFixer(p)
  }

  /** Every current fixer has an older counterpart. */
  lemma UpgradeDowngrade(g: Fixers.Fixer)
    ensures Upgrade(Downgrade(g)) == g
  {
  }

  /** An older fixer and its current counterpart fix every link alike and print alike. */
  lemma SameBehaviour(f: LegacyFixer, link: string, re: Fixers.RegexEngine)
    ensures Fix(f, link, re) == Fixers.Fix(Upgrade(f), link, re)
    ensures String(f) == Fixers.Describe(Upgrade(f))
  {
  }
}

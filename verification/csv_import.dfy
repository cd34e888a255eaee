/**
 * `parseFixers`: the bulk-import format, one rule per line,
 *
 *   prepend,<domain>,<prefix>
 *   replace,<domain>,<old>,<new>
 *
 * with fields split on every comma (no quoting), each trimmed of white
 * space, and the domain normalised by `ExtractDomain`. The first bad line
 * aborts the whole parse; for a domain given twice the later line wins.
 */
module CsvImport {
  import opened GoStrings
  import opened Results
  import opened Fixers
  import opened UrlPipeline

  type Entry = (string, Fixer)

  const PrependArity := "invalid prepend fixer format (should be 'prepend,<domain>,<prefix>'): "
  /** The source reuses the word "prepend" in the message about replace lines. */
  const ReplaceArity := "invalid prepend fixer format (should be 'replace,<domain>,<old>,<new>'): "

  /** The line is a well-formed rule: a known kind with its field count and a domain. */
  predicate WellFormed(line: string) {
    var cols := Split(line, ',');
    var kind := TrimSpace(cols[0]);
    && ((kind == "prepend" && |cols| == 3) || (kind == "replace" && |cols| == 4))
    && ExtractDomain(TrimSpace(cols[1])) != ""
  }

  /** One line: the domain it registers and the fixer, or the reason it is rejected. */
  function ParseLine(line: string): (r: Result<Entry>)
    ensures r.Ok? <==> WellFormed(line)
    ensures r.Ok? ==> r.value.0 != [] && AllHost(r.value.0)
    ensures r.Ok? ==> match r.value.1
      case Prepend(p) => Trimmed(p) && ',' !in p
      case Replace(o, n) => Trimmed(o) && ',' !in o && Trimmed(n) && ',' !in n
      case RegexpReplace(_, _) => false
    ensures TrimSpace(line) == [] ==> r == Err("unknown fixer type: " + line)
    ensures var cols := Split(line, ','); var kind := TrimSpace(cols[0]);
      r.Ok? ==> r.value == (ExtractDomain(TrimSpace(cols[1])),
        if kind == "prepend" then Prepend(TrimSpace(cols[2]))
        else Replace(TrimSpace(cols[2]), TrimSpace(cols[3])))
    ensures var cols := Split(line, ','); var kind := TrimSpace(cols[0]);
      && (kind != "prepend" && kind != "replace" ==> r == Err("unknown fixer type: " + cols[0]))
      && (kind == "prepend" && |cols| != 3 ==> r == Err(PrependArity + line))
      && (kind == "replace" && |cols| != 4 ==> r == Err(ReplaceArity + line))
      && ((kind == "prepend" && |cols| == 3) || (kind == "replace" && |cols| == 4) ==>
            ExtractDomain(TrimSpace(cols[1])) == "" ==> r == Err("invalid domain: " + cols[1]))
  {
    var cols := Split(line, ',');
    var kind := TrimSpace(cols[0]);
    assert TrimSpace(line) == [] ==> kind == [] by {
      if TrimSpace(line) == [] {
        NoCommaInBlank(line);
      }
    }
    if kind == "prepend" then
      if |cols| != 3 then Err(PrependArity + line)
      else
        FieldFacts(cols, 2);
        WithDomain(cols, Prepend(TrimSpace(cols[2])))
    else if kind == "replace" then
      if |cols| != 4 then Err(ReplaceArity + line)
      else
        FieldFacts(cols, 2);
        FieldFacts(cols, 3);
        WithDomain(cols, Replace(TrimSpace(cols[2]), TrimSpace(cols[3])))
    else
      assert TrimSpace(line) == [] ==> cols == [line] by {
        if TrimSpace(line) == [] {
          NoCommaInBlank(line);
        }
      }
      Err("unknown fixer type: " + cols[0])
  }

  /** No white space at either end. */
  predicate Trimmed(s: string) {
    |s| == 0 || (!IsSpace(s[0]) && !IsSpace(s[|s| - 1]))
  }

  /** The domain column, normalised; an empty result rejects the line. */
  function WithDomain(cols: seq<string>, f: Fixer): (r: Result<Entry>)
    requires |cols| >= 2
    ensures r.Ok? <==> ExtractDomain(TrimSpace(cols[1])) != ""
    ensures r.Ok? ==> r.value == (ExtractDomain(TrimSpace(cols[1])), f)
  {
    var domain := ExtractDomain(TrimSpace(cols[1]));
    if domain == "" then Err("invalid domain: " + cols[1]) else Ok((domain, f))
  }

  /** A trimmed field of a comma split is trimmed and has no comma. */
  lemma FieldFacts(cols: seq<string>, k: nat)
    requires k < |cols| && forall i :: 0 <= i < |cols| ==> ',' !in cols[i]
    ensures Trimmed(TrimSpace(cols[k])) && ',' !in TrimSpace(cols[k])
  {
    if ',' in TrimSpace(cols[k]) {
      TrimSpaceKeepsRunes(cols[k], ',');
    }
  }

  /** A line that trims to nothing holds no comma. */
  lemma NoCommaInBlank(line: string)
    requires TrimSpace(line) == []
    ensures Split(line, ',') == [line]
  {
    var i :| TrimmedAt(line, TrimSpace(line), i);
    assert forall j :: 0 <= j < |line| ==> IsSpace(line[j]) && line[j] != ',';
    SplitJoin([line], ',');
  }

  // ---------------------------------------------------------------------
  // The whole attachment
  // ---------------------------------------------------------------------

  /** The loop of `parseFixers` over the lines, from the map built so far. */
  function ParseLines(lines: seq<string>, acc: map<string, Fixer>): (r: Result<map<string, Fixer>>)
    ensures r.Ok? <==> AllLinesParse(lines)
    ensures r.Ok? ==> forall d :: d in r.value ==> d in acc || d != []
    ensures r.Ok? && NoRegexps(acc) ==> NoRegexps(r.value)
    decreases |lines|
  {
    if |lines| == 0 then Ok(acc)
    else
      match ParseLine(lines[0])
      case Err(e) => Err(e)
      case Ok(entry) =>
        AllLinesParseCons(lines);
        ParseLines(lines[1..], acc[entry.0 := entry.1])
  }

  /** All lines parse when the first does and all the others do. */
  lemma AllLinesParseCons(lines: seq<string>)
    requires |lines| > 0
    ensures AllLinesParse(lines) <==> ParseLine(lines[0]).Ok? && AllLinesParse(lines[1..])
  {
    if ParseLine(lines[0]).Ok? && AllLinesParse(lines[1..]) {
      forall i | 0 <= i < |lines| ensures ParseLine(lines[i]).Ok? {
        if i > 0 {
          assert lines[i] == lines[1..][i - 1];
        }
      }
    }
    if AllLinesParse(lines) {
      forall j | 0 <= j < |lines| - 1 ensures ParseLine(lines[1..][j]).Ok? {
        assert lines[1..][j] == lines[j + 1];
      }
    }
  }

  /** `parseFixers(csv)`: the rules of a whole attachment, keyed by domain. */
  function ParseFixers(csv: string): (r: Result<map<string, Fixer>>)
    ensures r.Ok? <==> AllLinesParse(Split(csv, '\n'))
    ensures r.Ok? ==> forall d :: d in r.value ==> d != []
    ensures r.Ok? ==> NoRegexps(r.value)
  {
    ParseLines(Split(csv, '\n'), map[])
  }

  /** The bulk format only has prepend and replace rules. */
  predicate NoRegexps(m: map<string, Fixer>) {
    forall d :: d in m ==> !m[d].RegexpReplace?
  }

  /** Every line is a well-formed rule. */
  predicate AllLinesParse(lines: seq<string>) {
    forall i :: 0 <= i < |lines| ==> ParseLine(lines[i]).Ok?
  }

  // ---------------------------------------------------------------------
  // A reference definition: parse every line, then let the last one win
  // ---------------------------------------------------------------------

  /** Line `i` of `lines` parses to entry `i`, for every line. */
  predicate ParsesTo(lines: seq<string>, entries: seq<Entry>) {
    |entries| == |lines| && forall i :: 0 <= i < |lines| ==> ParseLine(lines[i]) == Ok(entries[i])
  }

  lemma ParsesToCons(lines: seq<string>, entry: Entry, rest: seq<Entry>)
    requires |lines| > 0 && ParseLine(lines[0]) == Ok(entry) && ParsesTo(lines[1..], rest)
    ensures ParsesTo(lines, [entry] + rest)
  {
    var all := [entry] + rest;
    forall i | 0 <= i < |lines| ensures ParseLine(lines[i]) == Ok(all[i]) {
      if i > 0 {
        assert lines[i] == lines[1..][i - 1] && all[i] == rest[i - 1];
      }
    }
  }

  lemma FirstFailureCons(lines: seq<string>, j: int)
    requires |lines| > 0 && ParseLine(lines[0]).Ok? && FirstFailure(lines[1..], j)
    ensures FirstFailure(lines, j + 1)
  {
    forall k | 0 <= k < j + 1 ensures ParseLine(lines[k]).Ok? {
      if k > 0 {
        assert lines[k] == lines[1..][k - 1];
      }
    }
  }

  /** Every line parsed, or the first failure. */
  function ParseAll(lines: seq<string>): (r: Result<seq<Entry>>)
    ensures r.Ok? ==> ParsesTo(lines, r.value)
    ensures r.Err? ==> exists i :: FirstFailure(lines, i) && ParseLine(lines[i]) == Err(r.error)
    decreases |lines|
  {
    if |lines| == 0 then Ok([])
    else
      match ParseLine(lines[0])
      case Err(e) =>
        assert FirstFailure(lines, 0);
        Err(e)
      case Ok(entry) =>
        match ParseAll(lines[1..])
        case Err(e) =>
          var j :| FirstFailure(lines[1..], j) && ParseLine(lines[1..][j]) == Err(e);
          FirstFailureCons(lines, j);
          Err(e)
        case Ok(rest) =>
          ParsesToCons(lines, entry, rest);
          Ok([entry] + rest)
  }

  /** Line `i` is the first that does not parse. */
  predicate FirstFailure(lines: seq<string>, i: int) {
    && 0 <= i < |lines|
    && ParseLine(lines[i]).Err?
    && forall k :: 0 <= k < i ==> ParseLine(lines[k]).Ok?
  }

  /** Entry `i` is the last one for its domain. */
  predicate IsLast(entries: seq<Entry>, i: int) {
    && 0 <= i < |entries|
    && forall j :: i < j < |entries| ==> entries[j].0 != entries[i].0
  }

  /** The domains the entries mention. */
  function Domains(entries: seq<Entry>): set<string> {
    set i | 0 <= i < |entries| :: entries[i].0
  }

  /** The index of the last entry for `d` among the first `n`, or -1. */
  function LastIndex(entries: seq<Entry>, d: string, n: nat): (k: int)
    requires n <= |entries|
    ensures -1 <= k < n
    ensures k >= 0 ==> entries[k].0 == d
    ensures forall j :: k < j < n ==> entries[j].0 != d
  {
    if n == 0 then -1
    else if entries[n - 1].0 == d then n - 1
    else LastIndex(entries, d, n - 1)
  }

  /** Each domain mapped to the fixer of its last entry. */
  function LastWins(entries: seq<Entry>): (m: map<string, Fixer>)
    ensures m.Keys == Domains(entries)
  {
    map d | d in Domains(entries) :: entries[LastIndex(entries, d, |entries|)].1
  }

  /** The rule kept for a domain is the one of its last entry. */
  lemma LastWinsPicksLast(entries: seq<Entry>, i: int)
    requires IsLast(entries, i)
    ensures entries[i].0 in LastWins(entries) && LastWins(entries)[entries[i].0] == entries[i].1
  {
    var d := entries[i].0;
    assert d in Domains(entries);
    var k := LastIndex(entries, d, |entries|);
    assert k == i;
  }

  lemma DomainsCons(e: Entry, rest: seq<Entry>)
    ensures Domains([e] + rest) == {e.0} + Domains(rest)
  {
    var all := [e] + rest;
    assert forall j :: 0 < j < |all| ==> all[j] == rest[j - 1];
    forall d | d in Domains(rest) ensures d in Domains(all) {
      var i :| 0 <= i < |rest| && rest[i].0 == d;
      assert all[i + 1].0 == d;
    }
    assert all[0].0 == e.0;
  }

  /** Putting an entry in front moves every last index by one, or adds index 0. */
  lemma LastIndexCons(e: Entry, rest: seq<Entry>, d: string)
    ensures var k := LastIndex(rest, d, |rest|);
      LastIndex([e] + rest, d, |rest| + 1) == if k >= 0 then k + 1 else if e.0 == d then 0 else -1
    decreases |rest|
  {
    var all := [e] + rest;
    assert forall j :: 0 < j < |all| ==> all[j] == rest[j - 1];
    LastIndexConsFrom(e, rest, d, |rest|);
  }

  lemma {:induction false} LastIndexConsFrom(e: Entry, rest: seq<Entry>, d: string, n: nat)
    requires n <= |rest|
    ensures var k := LastIndex(rest, d, n);
      LastIndex([e] + rest, d, n + 1) == if k >= 0 then k + 1 else if e.0 == d then 0 else -1
  {
    var all := [e] + rest;
    if n > 0 {
      assert all[n] == rest[n - 1];
      if rest[n - 1].0 != d {
        LastIndexConsFrom(e, rest, d, n - 1);
      }
    }
  }

  /** A domain has a last index exactly when some entry names it. */
  lemma LastIndexFinds(entries: seq<Entry>, d: string)
    ensures d in Domains(entries) <==> LastIndex(entries, d, |entries|) >= 0
  {
    var k := LastIndex(entries, d, |entries|);
    if d in Domains(entries) {
      var i :| 0 <= i < |entries| && entries[i].0 == d;
      assert i <= k;
    }
    if k >= 0 {
      assert entries[k].0 == d;
    }
  }

  /** Reading one domain off the last-wins map. */
  lemma LastWinsAt(entries: seq<Entry>, d: string)
    requires d in Domains(entries)
    ensures 0 <= LastIndex(entries, d, |entries|)
    ensures d in LastWins(entries) && LastWins(entries)[d] == entries[LastIndex(entries, d, |entries|)].1
  {
  }

  /** A domain named again later keeps the rule of its last entry when an entry is put in front. */
  lemma LastEntryShift(e: Entry, rest: seq<Entry>, d: string)
    requires d in Domains(rest)
    ensures 0 <= LastIndex(rest, d, |rest|)
    ensures var all := [e] + rest;
      0 <= LastIndex(all, d, |all|) && all[LastIndex(all, d, |all|)] == rest[LastIndex(rest, d, |rest|)]
  {
    LastIndexCons(e, rest, d);
    LastWinsAt(rest, d);
    var all := [e] + rest;
    var k := LastIndex(rest, d, |rest|);
    assert |all| == |rest| + 1;
    assert all[k + 1] == rest[k];
  }

  /** A domain that appears again later keeps its later rule when an entry is put in front. */
  lemma LastWinsConsKept(e: Entry, rest: seq<Entry>, d: string)
    requires d in Domains(rest)
    ensures d in LastWins(rest) && d in LastWins([e] + rest)
    ensures LastWins([e] + rest)[d] == LastWins(rest)[d]
  {
    DomainsCons(e, rest);
    LastEntryShift(e, rest, d);
    LastWinsAt(rest, d);
    LastWinsAt([e] + rest, d);
  }

  /** A domain that appears only in the front entry gets that entry's rule. */
  lemma LastWinsConsNew(e: Entry, rest: seq<Entry>)
    requires e.0 !in Domains(rest)
    ensures e.0 in LastWins([e] + rest) && LastWins([e] + rest)[e.0] == e.1
  {
    var all := [e] + rest;
    DomainsCons(e, rest);
    LastIndexCons(e, rest, e.0);
    LastWinsAt(all, e.0);
    LastIndexFinds(rest, e.0);
    assert all[0] == e;
  }

  /** An entry put in front of a later entry for its domain is shadowed. */
  lemma LastWinsConsShadowed(e: Entry, rest: seq<Entry>)
    requires e.0 in Domains(rest)
    ensures LastWins([e] + rest) == LastWins(rest)
  {
    DomainsCons(e, rest);
    LastWinsConsAgrees(e, rest);
    SameKeysSameValues(LastWins([e] + rest), LastWins(rest));
  }

  /** An entry put in front with a domain nobody else names adds its rule. */
  lemma LastWinsConsFresh(e: Entry, rest: seq<Entry>)
    requires e.0 !in Domains(rest)
    ensures LastWins([e] + rest) == LastWins(rest)[e.0 := e.1]
  {
    DomainsCons(e, rest);
    LastWinsConsNew(e, rest);
    LastWinsConsAgrees(e, rest);
    SameKeysSameValues(LastWins([e] + rest), LastWins(rest)[e.0 := e.1]);
  }

  /** Every domain named later keeps its later rule when an entry is put in front. */
  lemma LastWinsConsAgrees(e: Entry, rest: seq<Entry>)
    ensures forall d :: d in LastWins(rest) ==> d in LastWins([e] + rest) && LastWins([e] + rest)[d] == LastWins(rest)[d]
  {
    forall d | d in LastWins(rest) ensures d in LastWins([e] + rest) && LastWins([e] + rest)[d] == LastWins(rest)[d] {
      LastWinsConsKept(e, rest, d);
    }
  }

  /** Two maps with the same keys and the same value at each key are equal. */
  lemma SameKeysSameValues<K, V>(m: map<K, V>, n: map<K, V>)
    requires m.Keys == n.Keys
    requires forall k :: k in m ==> m[k] == n[k]
    ensures m == n
  {
  }

  /** A map union whose right side already holds `k` ignores an update of `k` on the left. */
  lemma UnionShadowsUpdate<K, V>(acc: map<K, V>, k: K, v: V, m: map<K, V>)
    requires k in m
    ensures acc[k := v] + m == acc + m
  {
  }

  /** Updating `k` on the left of a union is updating it on the right when the right lacks it. */
  lemma UnionMovesUpdate<K, V>(acc: map<K, V>, k: K, v: V, m: map<K, V>)
    requires k !in m
    ensures acc[k := v] + m == acc + m[k := v]
  {
  }

  /** Adding one entry in front: it survives only when no later entry shares its domain. */
  lemma LastWinsCons(e: Entry, rest: seq<Entry>, acc: map<string, Fixer>)
    ensures acc[e.0 := e.1] + LastWins(rest) == acc + LastWins([e] + rest)
  {
    if e.0 in Domains(rest) {
      LastWinsConsShadowed(e, rest);
      UnionShadowsUpdate(acc, e.0, e.1, LastWins(rest));
    } else {
      LastWinsConsFresh(e, rest);
      UnionMovesUpdate(acc, e.0, e.1, LastWins(rest));
    }
  }

  /** The loop of `parseFixers` builds exactly the last-wins map of the parsed lines. */
  lemma {:induction false} ParseLinesIsLastWins(lines: seq<string>, acc: map<string, Fixer>)
    requires ParseAll(lines).Ok?
    ensures ParseLines(lines, acc) == Ok(acc + LastWins(ParseAll(lines).value))
    decreases |lines|
  {
    if |lines| == 0 {
      assert LastWins([]) == map[];
      assert acc + map[] == acc;
    } else {
      var entries := ParseAll(lines).value;
      var e := entries[0];
      assert ParseAll(lines[1..]).Ok? && ParseAll(lines[1..]).value == entries[1..];
      ParseLinesIsLastWins(lines[1..], acc[e.0 := e.1]);
      LastWinsCons(e, entries[1..], acc);
      assert [e] + entries[1..] == entries;
    }
  }

  /** When some line fails, `parseFixers` reports the first failing line's error. */
  lemma {:induction false} ParseLinesReportsFirstFailure(lines: seq<string>, acc: map<string, Fixer>)
    requires ParseAll(lines).Err?
    ensures ParseLines(lines, acc) == Err(ParseAll(lines).error)
    decreases |lines|
  {
    if ParseLine(lines[0]).Ok? {
      var e := ParseLine(lines[0]).value;
      ParseLinesReportsFirstFailure(lines[1..], acc[e.0 := e.1]);
    }
  }

  /** There are never more rules than lines. */
  lemma {:induction false} LastWinsSize(entries: seq<Entry>)
    ensures |LastWins(entries)| <= |entries|
    decreases |entries|
  {
    if |entries| > 0 {
      var e, rest := entries[0], entries[1..];
      assert [e] + rest == entries;
      LastWinsSize(rest);
      DomainsCons(e, rest);
      assert |LastWins(entries).Keys| <= 1 + |LastWins(rest).Keys|;
    }
  }

  /**
   * When every line parses, `parseFixers` maps each domain to the rule of
   * its last line, with at most one rule per line.
   */
  lemma ParseFixersLastWins(csv: string)
    requires ParseAll(Split(csv, '\n')).Ok?
    ensures var entries := ParseAll(Split(csv, '\n')).value;
      && ParseFixers(csv) == Ok(LastWins(entries))
      && |LastWins(entries)| <= |Split(csv, '\n')|
  {
    var lines := Split(csv, '\n');
    var entries := ParseAll(lines).value;
    ParseLinesFromEmpty(lines);
    LastWinsSize(entries);
  }

  lemma ParseLinesFromEmpty(lines: seq<string>)
    requires ParseAll(lines).Ok?
    ensures ParseLines(lines, map[]) == Ok(LastWins(ParseAll(lines).value))
  {
    ParseLinesIsLastWins(lines, map[]);
    UnionWithEmpty(LastWins(ParseAll(lines).value));
  }

  lemma UnionWithEmpty(m: map<string, Fixer>)
    ensures map[] + m == m
  {
  }

  /** When some line fails, `parseFixers` fails with the first failing line's error. */
  lemma ParseFixersFirstError(csv: string)
    requires ParseAll(Split(csv, '\n')).Err?
    ensures ParseFixers(csv) == Err(ParseAll(Split(csv, '\n')).error)
  {
    ParseLinesReportsFirstFailure(Split(csv, '\n'), map[]);
  }

  /** A trailing newline leaves an empty last line, which is not a rule: the attachment is refused. */
  lemma TrailingNewlineRejected(csv: string)
    requires |csv| > 0 && csv[|csv| - 1] == '\n'
    ensures ParseFixers(csv).Err?
  {
    var lines := Split(csv, '\n');
    SplitTrailingSeparator(csv, '\n');
    var last := |lines| - 1;
    assert TrimSpace(lines[last]) == [];
    assert !ParseLine(lines[last]).Ok?;
  }

  /** An empty attachment is refused the same way. */
  lemma EmptyAttachmentRejected()
    ensures ParseFixers("") == Err("unknown fixer type: ")
  {
    assert Split("", '\n') == [""];
    assert TrimSpace("") == [];
  }

  // ---------------------------------------------------------------------
  // Writing a rule as a line and reading it back
  // ---------------------------------------------------------------------

  /** A field the format can carry unchanged: no comma, no newline, no surrounding white space. */
  predicate PlainField(s: string) {
    ',' !in s && '\n' !in s && Trimmed(s)
  }

  /** A domain written as the bare host, the form `ExtractDomain` gives back. */
  predicate BareDomain(d: string) {
    |d| > 0 && AllHost(d) && !HasPrefix(d, "www.")
  }

  function PrependLine(domain: string, prefix: string): string {
    Join(["prepend", domain, prefix], ',')
  }

  function ReplaceLine(domain: string, oldText: string, newText: string): string {
    Join(["replace", domain, oldText, newText], ',')
  }

  lemma BareDomainField(d: string)
    requires BareDomain(d)
    ensures ',' !in d && TrimSpace(d) == d && ExtractDomain(d) == d
  {
    assert forall i :: 0 <= i < |d| ==> IsHostChar(d[i]) && d[i] != ',';
    assert IsHostChar(d[0]) && IsHostChar(d[|d| - 1]);
    TrimSpaceOfTrimmed(d);
    ExtractDomainOfShape("", "", d, "");
    assert "" + "" + d + "" == d;
  }

  /** A prepend rule written as a line parses back to itself. */
  lemma PrependLineRoundTrip(domain: string, prefix: string)
    requires BareDomain(domain) && PlainField(prefix)
    ensures ParseLine(PrependLine(domain, prefix)) == Ok((domain, Prepend(prefix)))
  {
    var cols := ["prepend", domain, prefix];
    BareDomainField(domain);
    assert forall i :: 0 <= i < |cols| ==> ',' !in cols[i];
    SplitJoin(cols, ',');
    TrimSpaceOfTrimmed("prepend");
    TrimSpaceOfTrimmed(prefix);
  }

  /** A replace rule written as a line parses back to itself. */
  lemma ReplaceLineRoundTrip(domain: string, oldText: string, newText: string)
    requires BareDomain(domain) && PlainField(oldText) && PlainField(newText)
    ensures ParseLine(ReplaceLine(domain, oldText, newText)) == Ok((domain, Replace(oldText, newText)))
  {
    var cols := ["replace", domain, oldText, newText];
    BareDomainField(domain);
    assert forall i :: 0 <= i < |cols| ==> ',' !in cols[i];
    SplitJoin(cols, ',');
    TrimSpaceOfTrimmed("replace");
    TrimSpaceOfTrimmed(oldText);
    TrimSpaceOfTrimmed(newText);
  }
}

/**
 * The slash commands of the bot, each a pure function from the rule table
 * (and the store's answers) to the table afterwards and Go's
 * `(string, error)` result.
 *
 * The option values arrive as a map from option name to text; Discord marks
 * every option of these commands as required, and the Go code's type
 * assertion `opts["domain"].(string)` panics without one, so each command
 * requires its options to be present.
 */
module Commands {
  import opened GoStrings
  import opened Results
  import opened Fixers
  import opened UrlPipeline
  import opened RuleStore
  import opened CsvImport

  type Options = map<string, string>

  /** What a command did: the table afterwards and the text or error it returned. */
  datatype Response = Response(table: Table, out: Result<string>)

  /** The error text every register command wraps a failed Put in (all three say "prepend"). */
  const StoreFailed := "storing prepend fixer failed: "
  const NoCompile := "could not compile regular expression `%v`"

  function Registered(what: string, f: Fixer, domain: string): string {
    ("Successfully registered " + what + " `") + (Describe(f) + "` for domain `" + domain + "`")
  }

  /** The Put and reply shared by the three register commands. */
  function Register(t: Table, guild: string, domain: string, f: Fixer, what: string, io: Outcome): (r: Response)
    ensures io.Done? ==> Get(r.table, guild, domain) == Some(f) && SameExcept(t, r.table, (guild, domain))
    ensures io.Done? ==> r.out == Ok(Registered(what, f, domain))
    ensures io.Fail? ==> r.table == t && r.out == Err(StoreFailed + io.msg)
  {
    match io
    case Fail(e) => Response(t, Err(StoreFailed + e))
    case Done =>
      PutChangesOneKey(t, guild, domain, f);
      Response(Put(t, guild, domain, f), Ok(Registered(what, f, domain)))
  }

  /** A register command writes only into its own guild. */
  lemma RegisterStaysInGuild(t: Table, guild: string, domain: string, f: Fixer, what: string, io: Outcome)
    ensures SameOutside(t, Register(t, guild, domain, f, what, io).table, guild)
  {
    WritesStayInNamespace(t, guild, domain, f);
  }

  /** `replace-fixer`: no check on any option; the domain is normalised first. */
  function RunReplace(t: Table, guild: string, opts: Options, io: Outcome): (r: Response)
    requires "domain" in opts && "old" in opts && "new" in opts
    ensures var domain := ExtractDomain(opts["domain"]);
      && (io.Done? ==> && Get(r.table, guild, domain) == Some(Replace(opts["old"], opts["new"]))
                       && SameExcept(t, r.table, (guild, domain))
                       && r.out == Ok(Registered("replace fixer", Replace(opts["old"], opts["new"]), domain)))
      && (io.Fail? ==> r.table == t && r.out == Err(StoreFailed + io.msg))
  {
    Register(t, guild, ExtractDomain(opts["domain"]), Replace(opts["old"], opts["new"]), "replace fixer", io)
  }

  /** `regexp-replace-fixer`: a pattern that does not compile is answered, not stored. */
  function RunRegexp(t: Table, guild: string, opts: Options, re: RegexEngine, io: Outcome): (r: Response)
    requires "domain" in opts && "pattern" in opts && "replacement" in opts
    ensures !re.compiles(opts["pattern"]) ==> r.table == t && r.out == Ok(NoCompile)
    ensures var domain := ExtractDomain(opts["domain"]);
      && (re.compiles(opts["pattern"]) && io.Done? ==>
           && Get(r.table, guild, domain) == Some(RegexpReplace(opts["pattern"], opts["replacement"]))
           && SameExcept(t, r.table, (guild, domain))
           && r.out == Ok(Registered("fixer", RegexpReplace(opts["pattern"], opts["replacement"]), domain)))
      && (re.compiles(opts["pattern"]) && io.Fail? ==> r.table == t && r.out == Err(StoreFailed + io.msg))
  {
    var f := RegexpReplace(opts["pattern"], opts["replacement"]);
    if !re.compiles(f.pattern) then Response(t, Ok(NoCompile))
    else
      Register(t, guild, ExtractDomain(opts["domain"]), f, "fixer", io)
  }

  /** `prepend-fixer`: stores the prefix under the normalised domain. */
  function RunPrepend(t: Table, guild: string, opts: Options, io: Outcome): (r: Response)
    requires "domain" in opts && "prefix" in opts
    ensures var domain := ExtractDomain(opts["domain"]);
      && (io.Done? ==> && Get(r.table, guild, domain) == Some(Prepend(opts["prefix"]))
                       && SameExcept(t, r.table, (guild, domain))
                       && r.out == Ok(Registered("fixer", Prepend(opts["prefix"]), domain)))
      && (io.Fail? ==> r.table == t && r.out == Err(StoreFailed + io.msg))
  {
    Register(t, guild, ExtractDomain(opts["domain"]), Prepend(opts["prefix"]), "fixer", io)
  }

  /** `delete-fixer`: deletes the key exactly as typed, without normalising it. */
  function RunDelete(t: Table, guild: string, opts: Options, io: Outcome): (r: Response)
    requires "domain" in opts
    ensures io.Done? ==> && Get(r.table, guild, opts["domain"]) == None
                         && SameExcept(t, r.table, (guild, opts["domain"]))
                         && r.out == Ok("Successfully deleted fixer for domain `" + opts["domain"] + "`")
    ensures io.Fail? ==> r.table == t && r.out == Err("deleting fixer failed: " + io.msg)
  {
    var domain := opts["domain"];
    match io
    case Fail(e) => Response(t, Err("deleting fixer failed: " + e))
    case Done =>
      DeleteChangesOneKey(t, guild, domain);
      Response(Delete(t, guild, domain), Ok("Successfully deleted fixer for domain `" + domain + "`"))
  }

  /** A delete removes a key of its own guild only. */
  lemma DeleteStaysInGuild(t: Table, guild: string, opts: Options, io: Outcome)
    requires "domain" in opts
    ensures SameOutside(t, RunDelete(t, guild, opts, io).table, guild)
  {
    WritesStayInNamespace(t, guild, opts["domain"], Prepend(""));
  }

  /**
   * Registering from a full URL and deleting with the same text leaves the
   * rule in place: the rule sits under `twitter.com`, the delete removes the
   * key `https://twitter.com`, which was never there.
   */
  lemma DeleteDoesNotNormalise(t: Table, guild: string, f: string)
    ensures var url := "https://" + "twitter.com";
      var registered := RunPrepend(t, guild, map["domain" := url, "prefix" := f], Done);
      var deleted := RunDelete(registered.table, guild, map["domain" := url], Done);
      && deleted.out.Ok?
      && Get(deleted.table, guild, "twitter.com") == Some(Prepend(f))
  {
    var url := "https://" + "twitter.com";
    ExtractDomainOfSchemeHost();
    assert url != "twitter.com";
  }

  // ---------------------------------------------------------------------
  // list-fixers
  // ---------------------------------------------------------------------

  predicate Distinct(xs: seq<string>) {
    forall i, j :: 0 <= i < j < |xs| ==> xs[i] != xs[j]
  }

  /** `order` visits every key exactly once, as `range` over a Go map does. */
  predicate Enumerates(order: seq<string>, keys: set<string>) {
    && Distinct(order)
    && (forall i :: 0 <= i < |order| ==> order[i] in keys)
    && (forall k :: k in keys ==> k in order)
  }

  /** Every domain of `xs` has a rule in `m`. */
  predicate InMap(xs: seq<string>, m: map<string, Fixer>) {
    forall i :: 0 <= i < |xs| ==> xs[i] in m
  }

  function ListLine(domain: string, f: Fixer): string {
    "- `" + domain + "` → `" + Describe(f) + "`"
  }

  /** One line per domain, in the given order. */
  function ListLines(m: map<string, Fixer>, order: seq<string>): (lines: seq<string>)
    requires InMap(order, m)
    ensures |lines| == |order|
    ensures forall i :: 0 <= i < |order| ==> lines[i] == ListLine(order[i], m[order[i]])
  {
    if |order| == 0 then []
    else
      var rest := ListLines(m, order[1..]);
      assert forall i :: 1 <= i < |order| ==> order[i] == order[1..][i - 1];
      [ListLine(order[0], m[order[0]])] + rest
  }

  function Concat(parts: seq<string>): string {
    if |parts| == 0 then [] else parts[0] + Concat(parts[1..])
  }

  const ListHeader := "Currently registered fixers:\n"

  /**
   * `list-fixers`: the guild's rules after a header, one per line but with
   * no line break between them, in the order the map is walked.
   */
  function RunList(t: Table, guild: string, order: seq<string>, io: Outcome): (r: Response)
    requires Enumerates(order, List(t, guild).Keys)
    ensures r.table == t
    ensures io.Fail? ==> r.out == Err("could not list fixers: " + io.msg)
    ensures io.Done? && (forall d :: (guild, d) !in t) ==> r.out == Ok("No fixers found!")
    ensures io.Done? && (exists d :: (guild, d) in t) ==>
      && r.out.Ok? && HasPrefix(r.out.value, ListHeader)
      && r.out.value[|ListHeader|..] == Concat(ListLines(List(t, guild), order))
  {
    var m := List(t, guild);
    match io
    case Fail(e) => Response(t, Err("could not list fixers: " + e))
    case Done =>
      if |m| == 0 then
        assert m == map[];
        Response(t, Ok("No fixers found!"))
      else
        assert exists d :: (guild, d) in t by {
          var d :| d in m;
        }
        var out := ListHeader + Concat(ListLines(m, order));
        assert out[..|ListHeader|] == ListHeader;
        Response(t, Ok(out))
  }

  /** Every rule of the guild gets a line, and only those: one line per domain. */
  lemma ListShowsEveryRule(t: Table, guild: string, order: seq<string>)
    requires Enumerates(order, List(t, guild).Keys)
    ensures var lines := ListLines(List(t, guild), order);
      && |lines| == |List(t, guild)|
      && forall d :: (guild, d) in t ==> ListLine(d, t[(guild, d)]) in lines
  {
    var m := List(t, guild);
    DistinctSize(order, m.Keys);
    forall d | (guild, d) in t ensures ListLine(d, t[(guild, d)]) in ListLines(m, order) {
      assert d in m;
      var i :| 0 <= i < |order| && order[i] == d;
      assert ListLines(m, order)[i] == ListLine(d, t[(guild, d)]);
    }
  }

  /** A distinct enumeration of a set is as long as the set is large. */
  lemma {:induction false} DistinctSize(order: seq<string>, keys: set<string>)
    requires Enumerates(order, keys)
    ensures |order| == |keys|
    decreases |order|
  {
    if |order| == 0 {
      assert forall k :: k in keys ==> k in order;
      assert keys == {};
    } else {
      var rest := order[1..];
      assert order[0] !in rest by {
        forall i | 0 <= i < |rest| ensures rest[i] != order[0] {
          assert rest[i] == order[i + 1];
        }
      }
      assert Enumerates(rest, keys - {order[0]}) by {
        forall k | k in keys - {order[0]} ensures k in rest {
          var i :| 0 <= i < |order| && order[i] == k;
          assert i > 0;
          assert rest[i - 1] == k;
        }
      }
      DistinctSize(rest, keys - {order[0]});
    }
  }

  /** The listing is the same for every order of the map walk, up to the order of its lines. */
  lemma ListOrderIrrelevant(t: Table, guild: string, o1: seq<string>, o2: seq<string>)
    requires Enumerates(o1, List(t, guild).Keys) && Enumerates(o2, List(t, guild).Keys)
    ensures multiset(ListLines(List(t, guild), o1)) == multiset(ListLines(List(t, guild), o2))
  {
    var m := List(t, guild);
    EnumerationsArePermutations(o1, o2, m.Keys);
    LinesFollowPermutation(m, o1, o2);
  }

  /** Two distinct enumerations of one set hold the same elements once each. */
  lemma EnumerationsArePermutations(a: seq<string>, b: seq<string>, keys: set<string>)
    requires Enumerates(a, keys) && Enumerates(b, keys)
    ensures multiset(a) == multiset(b)
  {
    forall x ensures multiset(a)[x] == multiset(b)[x] {
      DistinctCount(a, x);
      DistinctCount(b, x);
    }
  }

  lemma {:induction false} DistinctCount(a: seq<string>, x: string)
    requires Distinct(a)
    ensures multiset(a)[x] == if x in a then 1 else 0
    decreases |a|
  {
    if |a| > 0 {
      var rest := a[1..];
      assert a == [a[0]] + rest;
      assert Distinct(rest) by {
        forall i, j | 0 <= i < j < |rest| ensures rest[i] != rest[j] {
          assert rest[i] == a[i + 1] && rest[j] == a[j + 1];
        }
      }
      DistinctCount(rest, x);
      assert a[0] !in rest by {
        forall i | 0 <= i < |rest| ensures rest[i] != a[0] {
          assert rest[i] == a[i + 1];
        }
      }
    }
  }

  lemma ListLinesAppend(m: map<string, Fixer>, a: seq<string>, b: seq<string>)
    requires InMap(a, m)
    requires InMap(b, m)
    ensures InMap(a + b, m)
    ensures ListLines(m, a + b) == ListLines(m, a) + ListLines(m, b)
  {
    var ab := a + b;
    assert InMap(ab, m);
    var l := ListLines(m, ab);
    var r := ListLines(m, a) + ListLines(m, b);
    assert |l| == |r|;
    forall i | 0 <= i < |l| ensures l[i] == r[i] {
      if i < |a| {
        assert ab[i] == a[i];
      } else {
        assert ab[i] == b[i - |a|];
      }
    }
  }

  /** Taking the same element out of two permutations of each other leaves permutations. */
  lemma RemoveFromPermutation(a: seq<string>, b: seq<string>, k: nat)
    requires multiset(a) == multiset(b) && |a| > 0 && k < |b| && b[k] == a[0]
    ensures multiset(a[1..]) == multiset(b[..k] + b[k + 1..])
  {
    var x := a[0];
    assert a == [x] + a[1..];
    assert b == b[..k] + [x] + b[k + 1..];
    assert multiset(a[1..]) == multiset(a) - multiset{x};
    assert multiset(b[..k] + b[k + 1..]) == multiset(b) - multiset{x};
  }

  /** Every element of a permutation of `a` is an element of `a`. */
  lemma PermutationKeepsDomains(m: map<string, Fixer>, a: seq<string>, b: seq<string>)
    requires InMap(a, m)
    requires multiset(a) == multiset(b)
    ensures InMap(b, m)
  {
    forall i | 0 <= i < |b| ensures b[i] in m {
      assert b[i] in multiset(b);
      var j :| 0 <= j < |a| && a[j] == b[i];
    }
  }

  /** Listing `b` is listing the part before position `k`, the line for `b[k]`, then the rest. */
  lemma ListLinesAround(m: map<string, Fixer>, b: seq<string>, k: nat)
    requires InMap(b, m)
    requires k < |b|
    ensures InMap(b[..k] + b[k + 1..], m)
    ensures ListLines(m, b) == ListLines(m, b[..k]) + [ListLine(b[k], m[b[k]])] + ListLines(m, b[k + 1..])
    ensures ListLines(m, b[..k] + b[k + 1..]) == ListLines(m, b[..k]) + ListLines(m, b[k + 1..])
  {
    var b1, b2 := b[..k], b[k + 1..];
    InMapSlice(b, m, 0, k);
    InMapSlice(b, m, k + 1, |b|);
    assert b[0..k] == b1 && b[k + 1..|b|] == b2;
    var mid := [b[k]] + b2;
    assert mid[1..] == b2;
    assert b == b1 + mid;
    ListLinesAppend(m, b1, mid);
    ListLinesAppend(m, b1, b2);
  }

  /** A slice of listed domains can be listed. */
  lemma InMapSlice(xs: seq<string>, m: map<string, Fixer>, i: nat, j: nat)
    requires InMap(xs, m) && i <= j <= |xs|
    ensures InMap(xs[i..j], m)
  {
    assert forall n :: 0 <= n < j - i ==> xs[i..j][n] == xs[i + n];
  }

  /** Listing along a permutation of the domains permutes the lines. */
  lemma {:induction false} LinesFollowPermutation(m: map<string, Fixer>, a: seq<string>, b: seq<string>)
    requires InMap(a, m)
    requires multiset(a) == multiset(b)
    ensures InMap(b, m)
    ensures multiset(ListLines(m, a)) == multiset(ListLines(m, b))
    decreases |a|
  {
    PermutationKeepsDomains(m, a, b);
    if |a| > 0 {
      var k := PositionInPermutation(a, b);
      RemoveFromPermutation(a, b, k);
      InMapTail(a, m);
      ListLinesAround(m, b, k);
      var b' := b[..k] + b[k + 1..];
      LinesFollowPermutation(m, a[1..], b');
      PermutationStepLines(m, a, b, k);
    }
  }

  /** The first element of `a` has a position in any permutation of `a`. */
  lemma PositionInPermutation(a: seq<string>, b: seq<string>) returns (k: nat)
    requires multiset(a) == multiset(b) && |a| > 0
    ensures k < |b| && b[k] == a[0]
  {
    assert a[0] in multiset(b);
    k :| 0 <= k < |b| && b[k] == a[0];
  }

  /** The domains after the first are still in the map. */
  lemma InMapTail(a: seq<string>, m: map<string, Fixer>)
    requires InMap(a, m) && |a| > 0
    ensures InMap(a[1..], m)
  {
    assert forall i :: 0 <= i < |a| - 1 ==> a[1..][i] == a[i + 1];
  }

  /** One step of the permutation: `a[0]` sits at position `k` of `b`, and the rest already match. */
  lemma PermutationStepLines(m: map<string, Fixer>, a: seq<string>, b: seq<string>, k: nat)
    requires InMap(a, m) && InMap(b, m) && |a| > 0 && k < |b| && b[k] == a[0]
    requires InMap(a[1..], m) && InMap(b[..k] + b[k + 1..], m)
    requires multiset(ListLines(m, a[1..])) == multiset(ListLines(m, b[..k] + b[k + 1..]))
    ensures multiset(ListLines(m, a)) == multiset(ListLines(m, b))
  {
    ListLinesAround(m, b, k);
    var line := ListLine(a[0], m[a[0]]);
    MultisetMiddle(ListLines(m, a[1..]), ListLines(m, b[..k]), ListLines(m, b[k + 1..]), line);
    assert ListLines(m, a) == [line] + ListLines(m, a[1..]);
  }

  /** Putting one element in front of one side of a permutation and anywhere into the other keeps it one. */
  lemma MultisetMiddle(xs: seq<string>, l1: seq<string>, l2: seq<string>, x: string)
    requires multiset(xs) == multiset(l1 + l2)
    ensures multiset([x] + xs) == multiset(l1 + [x] + l2)
  {
    calc {
      multiset([x] + xs);
      multiset{x} + multiset(l1 + l2);
      multiset(l1) + multiset{x} + multiset(l2);
      multiset(l1 + [x] + l2);
    }
  }

  // ---------------------------------------------------------------------
  // register-csv-fixers
  // ---------------------------------------------------------------------

  /** One attachment as downloaded, or the download's error. */
  datatype Download = Fetched(body: string) | FetchFailed(msg: string)

  /** The store answered `Done` to the `n` calls from call `used` on. */
  predicate AllDone(io: seq<Outcome>, used: nat, n: nat)
    decreases n
  {
    n > 0 ==> OutcomeAt(io, used) == Done && AllDone(io, used + 1, n - 1)
  }

  /** The recursive definition says what it should: every call in the range succeeded. */
  lemma {:induction false} AllDoneMeans(io: seq<Outcome>, used: nat, n: nat, k: nat)
    requires AllDone(io, used, n) && used <= k < used + n
    ensures OutcomeAt(io, k) == Done
    decreases n
  {
    if k > used {
      AllDoneMeans(io, used + 1, n - 1, k);
    }
  }

  lemma {:induction false} AllDoneConcat(io: seq<Outcome>, used: nat, n1: nat, n2: nat)
    requires AllDone(io, used, n1) && AllDone(io, used + n1, n2)
    ensures AllDone(io, used, n1 + n2)
    decreases n1
  {
    if n1 > 0 {
      AllDoneConcat(io, used + 1, n1 - 1, n2);
    }
  }

  /** Progress of the Puts for one attachment: how many succeeded, and whether the next one failed. */
  datatype PutRun = PutRun(table: Table, stored: nat, failed: bool)

  /** `for domain, f := range fixers { Put }`, the store answering from `io` at `used`. */
  function PutEach(t: Table, guild: string, m: map<string, Fixer>, order: seq<string>, io: seq<Outcome>, used: nat): (r: PutRun)
    requires InMap(order, m)
    ensures r.stored <= |order|
    ensures !r.failed ==> r.stored == |order|
    ensures r.failed ==> OutcomeAt(io, used + r.stored).Fail?
    decreases |order|
  {
    if |order| == 0 then PutRun(t, 0, false)
    else if OutcomeAt(io, used).Fail? then PutRun(t, 0, true)
    else
      var d := order[0];
      assert forall i :: 0 <= i < |order[1..]| ==> order[1..][i] == order[i + 1];
      var rest := PutEach(Put(t, guild, d, m[d]), guild, m, order[1..], io, used + 1);
      PutRun(rest.table, rest.stored + 1, rest.failed)
  }

  /** The Puts touch only the guild's rules, and every Put counted succeeded. */
  lemma {:induction false} PutEachStaysInGuild(t: Table, guild: string, m: map<string, Fixer>, order: seq<string>, io: seq<Outcome>, used: nat)
    requires InMap(order, m)
    ensures var r := PutEach(t, guild, m, order, io, used);
      SameOutside(t, r.table, guild) && AllDone(io, used, r.stored)
    decreases |order|
  {
    if |order| > 0 && OutcomeAt(io, used).Done? {
      var d := order[0];
      assert forall i :: 0 <= i < |order[1..]| ==> order[1..][i] == order[i + 1];
      var t' := Put(t, guild, d, m[d]);
      var rest := PutEach(t', guild, m, order[1..], io, used + 1);
      PutEachStaysInGuild(t', guild, m, order[1..], io, used + 1);
      WritesStayInNamespace(t, guild, d, m[d]);
      AllDoneConcat(io, used, 1, rest.stored);
    }
  }

  /** Domains the loop did not reach keep whatever rule they had. */
  lemma {:induction false} PutEachLeavesOthers(t: Table, guild: string, m: map<string, Fixer>, order: seq<string>, io: seq<Outcome>, used: nat, d: string)
    requires InMap(order, m)
    ensures var r := PutEach(t, guild, m, order, io, used);
      d !in order[..r.stored] ==> Get(r.table, guild, d) == Get(t, guild, d)
    decreases |order|
  {
    if |order| > 0 && OutcomeAt(io, used).Done? {
      var e := order[0];
      var tail := order[1..];
      assert forall i :: 0 <= i < |tail| ==> tail[i] == order[i + 1];
      var t' := Put(t, guild, e, m[e]);
      var rest := PutEach(t', guild, m, tail, io, used + 1);
      assert PutEach(t, guild, m, order, io, used) == PutRun(rest.table, rest.stored + 1, rest.failed);
      PutEachLeavesOthers(t', guild, m, tail, io, used + 1, d);
      assert order[..rest.stored + 1] == [e] + tail[..rest.stored];
    }
  }

  /** Each domain the loop reached holds its rule from the attachment. */
  lemma {:induction false} PutEachStores(t: Table, guild: string, m: map<string, Fixer>, order: seq<string>, io: seq<Outcome>, used: nat, k: nat)
    requires InMap(order, m)
    requires Distinct(order)
    requires k < PutEach(t, guild, m, order, io, used).stored
    ensures Get(PutEach(t, guild, m, order, io, used).table, guild, order[k]) == Some(m[order[k]])
    decreases |order|
  {
    var e := order[0];
    var tail := order[1..];
    assert forall i :: 0 <= i < |tail| ==> tail[i] == order[i + 1];
    var t' := Put(t, guild, e, m[e]);
    var rest := PutEach(t', guild, m, tail, io, used + 1);
    assert PutEach(t, guild, m, order, io, used) == PutRun(rest.table, rest.stored + 1, rest.failed);
    assert Distinct(tail);
    if k > 0 {
      PutEachStores(t', guild, m, tail, io, used + 1, k - 1);
    } else {
      PutEachLeavesOthers(t', guild, m, tail, io, used + 1, e);
      assert forall i :: 0 <= i < rest.stored ==> tail[..rest.stored][i] == order[i + 1];
      assert e !in tail[..rest.stored];
    }
  }

  /** An attachment downloaded and parsed in full: its rules, or the error that stops the command. */
  type Parsed = Result<map<string, Fixer>>

  function Resolve(a: Download): (r: Parsed)
    ensures a.FetchFailed? ==> r == Err("could not download attachment: " + a.msg)
    ensures a.Fetched? && ParseFixers(a.body).Err? ==> r == Err("could not parse fixers: " + ParseFixers(a.body).error)
    ensures r.Ok? <==> a.Fetched? && ParseFixers(a.body).Ok?
    ensures r.Ok? ==> r.value == ParseFixers(a.body).value && NoRegexps(r.value)
  {
    match a
    case FetchFailed(e) => Err("could not download attachment: " + e)
    case Fetched(body) =>
      match ParseFixers(body)
      case Err(e) => Err("could not parse fixers: " + e)
      case Ok(m) => Ok(m)
  }

  /** Every attachment, resolved in order. */
  function ResolveAll(atts: seq<Download>): (ps: seq<Parsed>)
    ensures |ps| == |atts|
    ensures forall i :: 0 <= i < |atts| ==> ps[i] == Resolve(atts[i])
  {
    if |atts| == 0 then [] else [Resolve(atts[0])] + ResolveAll(atts[1..])
  }

  /** The order a parsed map is walked in, if the attachment parsed. */
  predicate OrderFits(p: Parsed, order: seq<string>) {
    p.Ok? ==> Enumerates(order, p.value.Keys)
  }

  /** Each attachment comes with an order for its parsed map. */
  predicate OrdersFit(ps: seq<Parsed>, orders: seq<seq<string>>) {
    && |orders| == |ps|
    && (|ps| > 0 ==> OrderFits(ps[0], orders[0]) && OrdersFit(ps[1..], orders[1..]))
  }

  lemma OrdersFitTail(ps: seq<Parsed>, orders: seq<seq<string>>)
    requires OrdersFit(ps, orders) && |ps| > 0
    ensures OrderFits(ps[0], orders[0]) && OrdersFit(ps[1..], orders[1..])
  {
  }

  lemma {:induction false} OrdersFitAppend(a: seq<Parsed>, oa: seq<seq<string>>, b: seq<Parsed>, ob: seq<seq<string>>)
    requires OrdersFit(a, oa) && OrdersFit(b, ob)
    ensures OrdersFit(a + b, oa + ob)
    decreases |a|
  {
    if |a| == 0 {
      assert a + b == b && oa + ob == ob;
    } else {
      OrdersFitAppend(a[1..], oa[1..], b, ob);
      assert (a + b)[1..] == a[1..] + b && (oa + ob)[1..] == oa[1..] + ob;
    }
  }

  /** Reading the i-th order off a fitting list. */
  lemma {:induction false} OrdersFitAt(ps: seq<Parsed>, orders: seq<seq<string>>, i: nat)
    requires OrdersFit(ps, orders) && i < |ps|
    ensures OrderFits(ps[i], orders[i])
    decreases i
  {
    if i > 0 {
      OrdersFitAt(ps[1..], orders[1..], i - 1);
    }
  }

  /** Every attachment was downloaded and parsed. */
  predicate AllParsed(ps: seq<Parsed>) {
    forall i :: 0 <= i < |ps| ==> ps[i].Ok?
  }

  /** How many rules the attachments hold between them, each counted once per attachment. */
  function TotalRules(ps: seq<Parsed>): nat {
    if |ps| == 0 then 0
    else (if ps[0].Ok? then |ps[0].value| else 0) + TotalRules(ps[1..])
  }

  /** Where the attachment loop stands: the table, the Puts made, and the error that stopped it. */
  datatype CsvRun = CsvRun(table: Table, stored: nat, err: Option<string>)

  /** One attachment: a refused one stops the command, a parsed one has every rule Put. */
  function RunAttachment(t: Table, guild: string, p: Parsed, order: seq<string>, io: seq<Outcome>, used: nat): (r: CsvRun)
    requires OrderFits(p, order)
    ensures p.Err? ==> r == CsvRun(t, 0, Some(p.error))
    ensures p.Ok? && r.err.None? ==> r.stored == |p.value|
    ensures p.Ok? && r.err.Some? ==>
      && OutcomeAt(io, used + r.stored).Fail?
      && r.err.value == "storing fixer failed: " + OutcomeAt(io, used + r.stored).msg
  {
    match p
    case Err(e) => CsvRun(t, 0, Some(e))
    case Ok(m) =>
      var q := PutEach(t, guild, m, order, io, used);
      DistinctSize(order, m.Keys);
      var err := if q.failed then Some("storing fixer failed: " + OutcomeAt(io, used + q.stored).msg) else None;
      CsvRun(q.table, q.stored, err)
  }

  /** One attachment touches only the guild's rules, and every Put it counts succeeded. */
  lemma AttachmentStaysInGuild(t: Table, guild: string, p: Parsed, order: seq<string>, io: seq<Outcome>, used: nat)
    requires OrderFits(p, order)
    ensures var r := RunAttachment(t, guild, p, order, io, used);
      SameOutside(t, r.table, guild) && AllDone(io, used, r.stored)
  {
    if p.Ok? {
      PutEachStaysInGuild(t, guild, p.value, order, io, used);
    }
  }

  // The loop over attachments, for any one-attachment step.

  /** One attachment's turn: from the table and the store calls made so far to where it leaves the loop. */
  type Step = (Table, nat) -> CsvRun

  /** The attachments take their turns until one of them reports an error, which ends the loop. */
  function Chain(steps: seq<Step>, t: Table, used: nat): CsvRun
    decreases |steps|
  {
    if |steps| == 0 then CsvRun(t, 0, None)
    else
      var p := steps[0](t, used);
      if p.err.Some? then p
      else
        var rest := Chain(steps[1..], p.table, used + p.stored);
        CsvRun(rest.table, p.stored + rest.stored, rest.err)
  }

  /** A step that errs ends the loop with its own result. */
  lemma ChainStops(steps: seq<Step>, t: Table, used: nat)
    requires |steps| > 0 && steps[0](t, used).err.Some?
    ensures Chain(steps, t, used) == steps[0](t, used)
  {
  }

  /** A step that goes through hands the loop on to the next attachment. */
  lemma ChainGoesOn(steps: seq<Step>, t: Table, used: nat)
    requires |steps| > 0 && steps[0](t, used).err.None?
    ensures var p := steps[0](t, used);
      var rest := Chain(steps[1..], p.table, used + p.stored);
      Chain(steps, t, used) == CsvRun(rest.table, p.stored + rest.stored, rest.err)
  {
  }

  /** If the steps `a` stop with an error, so do `a + b`, with the same result. */
  lemma {:induction false} ChainStopsAtError(a: seq<Step>, b: seq<Step>, t: Table, used: nat)
    requires Chain(a, t, used).err.Some?
    ensures Chain(a + b, t, used) == Chain(a, t, used)
    decreases |a|
  {
    var p := a[0](t, used);
    assert (a + b)[0] == a[0] && (a + b)[1..] == a[1..] + b;
    if p.err.Some? {
      ChainStops(a, t, used);
      ChainStops(a + b, t, used);
    } else {
      ChainGoesOn(a, t, used);
      ChainGoesOn(a + b, t, used);
      ChainStopsAtError(a[1..], b, p.table, used + p.stored);
    }
  }

  /** If the steps `a` all go through, `a + b` runs `b` from where `a` left off. */
  lemma {:induction false} ChainContinues(a: seq<Step>, b: seq<Step>, t: Table, used: nat)
    requires Chain(a, t, used).err.None?
    ensures var ra := Chain(a, t, used);
      var rb := Chain(b, ra.table, used + ra.stored);
      Chain(a + b, t, used) == CsvRun(rb.table, ra.stored + rb.stored, rb.err)
    decreases |a|
  {
    if |a| == 0 {
      assert a + b == b;
    } else {
      var p := a[0](t, used);
      ConsAppend(a, b);
      var u := used + p.stored;
      var ra' := Chain(a[1..], p.table, u);
      var rb := Chain(b, ra'.table, u + ra'.stored);
      ChainGoesOn(a, t, used);
      ChainGoesOn(a + b, t, used);
      ChainContinues(a[1..], b, p.table, u);
      assert Chain(a[1..] + b, p.table, u) == CsvRun(rb.table, ra'.stored + rb.stored, rb.err);
      assert used + (p.stored + ra'.stored) == u + ra'.stored;
    }
  }

  /** The head and tail of `a + b` for a non-empty `a`. */
  lemma ConsAppend(a: seq<Step>, b: seq<Step>)
    requires |a| > 0
    ensures (a + b)[0] == a[0] && (a + b)[1..] == a[1..] + b
  {
  }

  /** The step touches only the guild's rules. */
  ghost predicate StaysInGuild(step: Step, guild: string) {
    forall t, u :: SameOutside(t, step(t, u).table, guild)
  }

  /** Every Put the step counts got `Done` from the store. */
  ghost predicate CountsOnlyDone(step: Step, io: seq<Outcome>) {
    forall t, u :: AllDone(io, u, step(t, u).stored)
  }

  /** A step that goes through had a parsed attachment and stored every rule of it. */
  ghost predicate StoresAll(step: Step, p: Parsed) {
    forall t, u :: step(t, u).err.None? ==> p.Ok? && step(t, u).stored == |p.value|
  }

  /** The step never adds a regexp rule that fails to compile. */
  ghost predicate KeepsCompiling(step: Step, re: RegexEngine) {
    forall t, u :: RegexpsCompile(t, re) ==> RegexpsCompile(step(t, u).table, re)
  }

  lemma {:induction false} ChainStaysInGuild(steps: seq<Step>, guild: string, t: Table, used: nat)
    requires forall i :: 0 <= i < |steps| ==> StaysInGuild(steps[i], guild)
    ensures SameOutside(t, Chain(steps, t, used).table, guild)
    decreases |steps|
  {
    if |steps| > 0 {
      var p := steps[0](t, used);
      assert StaysInGuild(steps[0], guild);
      if p.err.None? {
        assert forall i :: 0 <= i < |steps| - 1 ==> steps[1..][i] == steps[i + 1];
        ChainStaysInGuild(steps[1..], guild, p.table, used + p.stored);
      }
    }
  }

  lemma {:induction false} ChainCountsOnlyDone(steps: seq<Step>, io: seq<Outcome>, t: Table, used: nat)
    requires forall i :: 0 <= i < |steps| ==> CountsOnlyDone(steps[i], io)
    ensures AllDone(io, used, Chain(steps, t, used).stored)
    decreases |steps|
  {
    if |steps| > 0 {
      var p := steps[0](t, used);
      assert CountsOnlyDone(steps[0], io);
      if p.err.None? {
        assert forall i :: 0 <= i < |steps| - 1 ==> steps[1..][i] == steps[i + 1];
        ChainCountsOnlyDone(steps[1..], io, p.table, used + p.stored);
        AllDoneConcat(io, used, p.stored, Chain(steps[1..], p.table, used + p.stored).stored);
      }
    }
  }

  lemma {:induction false} ChainStoresAll(steps: seq<Step>, ps: seq<Parsed>, t: Table, used: nat)
    requires |steps| == |ps|
    requires forall i :: 0 <= i < |steps| ==> StoresAll(steps[i], ps[i])
    ensures var r := Chain(steps, t, used);
      r.err.None? ==> AllParsed(ps) && r.stored == TotalRules(ps)
    decreases |steps|
  {
    if |steps| > 0 {
      var p := steps[0](t, used);
      assert StoresAll(steps[0], ps[0]);
      if p.err.None? {
        assert forall i :: 0 <= i < |steps| - 1 ==> steps[1..][i] == steps[i + 1] && ps[1..][i] == ps[i + 1];
        ChainStoresAll(steps[1..], ps[1..], p.table, used + p.stored);
      }
    }
  }

  lemma {:induction false} ChainKeepsCompiling(steps: seq<Step>, re: RegexEngine, t: Table, used: nat)
    requires forall i :: 0 <= i < |steps| ==> KeepsCompiling(steps[i], re)
    requires RegexpsCompile(t, re)
    ensures RegexpsCompile(Chain(steps, t, used).table, re)
    decreases |steps|
  {
    if |steps| > 0 {
      var p := steps[0](t, used);
      assert KeepsCompiling(steps[0], re);
      if p.err.None? {
        assert forall i :: 0 <= i < |steps| - 1 ==> steps[1..][i] == steps[i + 1];
        ChainKeepsCompiling(steps[1..], re, p.table, used + p.stored);
      }
    }
  }

  // The steps of `register-csv-fixers`.

  /** Attachment `p`, walked in `order`, as a step of the loop. */
  function AttachmentStep(guild: string, p: Parsed, order: seq<string>, io: seq<Outcome>): Step
    requires OrderFits(p, order)
  {
    (t: Table, used: nat) => RunAttachment(t, guild, p, order, io, used)
  }

  /** The attachments as steps, in order. */
  function Steps(guild: string, ps: seq<Parsed>, orders: seq<seq<string>>, io: seq<Outcome>): (steps: seq<Step>)
    requires OrdersFit(ps, orders)
    ensures |steps| == |ps|
    decreases |ps|
  {
    if |ps| == 0 then []
    else
      OrdersFitTail(ps, orders);
      [AttachmentStep(guild, ps[0], orders[0], io)] + Steps(guild, ps[1..], orders[1..], io)
  }

  /** Step `i` is attachment `i`. */
  lemma {:induction false} StepsAt(guild: string, ps: seq<Parsed>, orders: seq<seq<string>>, io: seq<Outcome>, i: nat)
    requires OrdersFit(ps, orders) && i < |ps|
    ensures OrderFits(ps[i], orders[i])
    ensures Steps(guild, ps, orders, io)[i] == AttachmentStep(guild, ps[i], orders[i], io)
    decreases i
  {
    OrdersFitTail(ps, orders);
    if i > 0 {
      StepsAt(guild, ps[1..], orders[1..], io, i - 1);
    }
  }

  /** The steps of `a + b` are the steps of `a` followed by those of `b`. */
  lemma {:induction false} StepsAppend(guild: string, a: seq<Parsed>, oa: seq<seq<string>>,
                                       b: seq<Parsed>, ob: seq<seq<string>>, io: seq<Outcome>)
    requires OrdersFit(a, oa) && OrdersFit(b, ob)
    ensures OrdersFit(a + b, oa + ob)
    ensures Steps(guild, a + b, oa + ob, io) == Steps(guild, a, oa, io) + Steps(guild, b, ob, io)
    decreases |a|
  {
    OrdersFitAppend(a, oa, b, ob);
    if |a| == 0 {
      assert a + b == b && oa + ob == ob;
    } else {
      OrdersFitTail(a, oa);
      StepsAppend(guild, a[1..], oa[1..], b, ob, io);
      assert (a + b)[0] == a[0] && (oa + ob)[0] == oa[0];
      assert (a + b)[1..] == a[1..] + b && (oa + ob)[1..] == oa[1..] + ob;
    }
  }

  /** What one attachment's step guarantees the loop, whatever table and store calls it starts from. */
  lemma AttachmentStepFacts(guild: string, p: Parsed, order: seq<string>, io: seq<Outcome>)
    requires OrderFits(p, order)
    ensures var step := AttachmentStep(guild, p, order, io);
      StaysInGuild(step, guild) && CountsOnlyDone(step, io) && StoresAll(step, p)
  {
    var step := AttachmentStep(guild, p, order, io);
    forall t, u ensures SameOutside(t, step(t, u).table, guild) && AllDone(io, u, step(t, u).stored) {
      AttachmentStaysInGuild(t, guild, p, order, io, u);
    }
  }

  /** An attachment in the bulk format stores no regexp rule. */
  lemma AttachmentStepKeepsCompiling(guild: string, p: Parsed, order: seq<string>, io: seq<Outcome>, re: RegexEngine)
    requires OrderFits(p, order)
    requires p.Ok? ==> NoRegexps(p.value)
    ensures KeepsCompiling(AttachmentStep(guild, p, order, io), re)
  {
    var step := AttachmentStep(guild, p, order, io);
    forall t, u | RegexpsCompile(t, re) ensures RegexpsCompile(step(t, u).table, re) {
      if p.Ok? {
        PutEachKeepsRegexpsCompiling(t, guild, p.value, order, io, u, re);
      }
    }
  }

  function CsvSuccess(count: nat): string {
    "Successfully registered " + Itoa(count) + " fixers."
  }

  /** The loop touches only the guild's rules, and every Put it counts succeeded. */
  lemma CsvLoopStaysInGuild(t: Table, guild: string, ps: seq<Parsed>, orders: seq<seq<string>>, io: seq<Outcome>, used: nat)
    requires OrdersFit(ps, orders)
    ensures var r := Chain(Steps(guild, ps, orders, io), t, used);
      SameOutside(t, r.table, guild) && AllDone(io, used, r.stored)
  {
    var steps := Steps(guild, ps, orders, io);
    forall i | 0 <= i < |steps| ensures StaysInGuild(steps[i], guild) && CountsOnlyDone(steps[i], io) {
      StepsAt(guild, ps, orders, io, i);
      AttachmentStepFacts(guild, ps[i], orders[i], io);
    }
    ChainStaysInGuild(steps, guild, t, used);
    ChainCountsOnlyDone(steps, io, t, used);
  }

  /** A loop that finishes without error parsed every attachment and counts the rules they hold. */
  lemma CsvLoopCount(t: Table, guild: string, ps: seq<Parsed>, orders: seq<seq<string>>, io: seq<Outcome>, used: nat)
    requires OrdersFit(ps, orders)
    ensures var r := Chain(Steps(guild, ps, orders, io), t, used);
      r.err.None? ==> AllParsed(ps) && r.stored == TotalRules(ps)
  {
    var steps := Steps(guild, ps, orders, io);
    forall i | 0 <= i < |steps| ensures StoresAll(steps[i], ps[i]) {
      StepsAt(guild, ps, orders, io, i);
      AttachmentStepFacts(guild, ps[i], orders[i], io);
    }
    ChainStoresAll(steps, ps, t, used);
  }

  /** Attachment `p` parsed and holds a rule for `d`. */
  predicate Names(p: Parsed, d: string) {
    p.Ok? && d in p.value
  }

  /** No attachment holds a rule for `d`. */
  predicate NamedNowhere(ps: seq<Parsed>, d: string) {
    forall i :: 0 <= i < |ps| ==> !Names(ps[i], d)
  }

  /** Attachment `i` is the last one holding a rule for `d`. */
  predicate LastNaming(ps: seq<Parsed>, d: string, i: int) {
    && 0 <= i < |ps|
    && Names(ps[i], d)
    && forall j :: i < j < |ps| ==> !Names(ps[j], d)
  }

  /** Past the first attachment, the last one naming `d` is one place earlier, or there is none. */
  lemma LastNamingTail(ps: seq<Parsed>, d: string, i: int)
    requires LastNaming(ps, d, i)
    ensures i == 0 ==> NamedNowhere(ps[1..], d)
    ensures i > 0 ==> LastNaming(ps[1..], d, i - 1)
  {
    assert forall j :: 0 <= j < |ps| - 1 ==> ps[1..][j] == ps[j + 1];
  }

  /** A domain no attachment names is named neither by the first nor by the rest. */
  lemma NamedNowhereTail(ps: seq<Parsed>, d: string)
    requires |ps| > 0 && NamedNowhere(ps, d)
    ensures !Names(ps[0], d) && NamedNowhere(ps[1..], d)
  {
    assert forall j :: 0 <= j < |ps| - 1 ==> ps[1..][j] == ps[j + 1];
  }

  /** An attachment that goes through leaves each of its domains holding its rule, and every other domain as it was. */
  lemma AttachmentTable(t: Table, guild: string, p: Parsed, order: seq<string>, io: seq<Outcome>, used: nat, d: string)
    requires OrderFits(p, order)
    ensures var r := RunAttachment(t, guild, p, order, io, used);
      r.err.None? ==> Get(r.table, guild, d) == if Names(p, d) then Some(p.value[d]) else Get(t, guild, d)
  {
    if p.Ok? {
      var m := p.value;
      var q := PutEach(t, guild, m, order, io, used);
      if !q.failed {
        if d in m {
          var k :| 0 <= k < |order| && order[k] == d;
          PutEachStores(t, guild, m, order, io, used, k);
        } else {
          PutEachLeavesOthers(t, guild, m, order, io, used, d);
          assert order[..q.stored] == order;
        }
      }
    }
  }

  /**
   * A loop that finishes without error leaves each domain holding the rule
   * of the last attachment that names it, and a domain no attachment names
   * as it was.
   */
  lemma {:induction false} CsvLoopTable(t: Table, guild: string, ps: seq<Parsed>, orders: seq<seq<string>>,
                                        io: seq<Outcome>, used: nat, d: string)
    requires OrdersFit(ps, orders)
    ensures var r := Chain(Steps(guild, ps, orders, io), t, used);
      r.err.None? ==>
        && (forall i :: LastNaming(ps, d, i) ==> Get(r.table, guild, d) == Some(ps[i].value[d]))
        && (NamedNowhere(ps, d) ==> Get(r.table, guild, d) == Get(t, guild, d))
    decreases |ps|
  {
    if |ps| > 0 {
      var steps := Steps(guild, ps, orders, io);
      OrdersFitTail(ps, orders);
      StepsAt(guild, ps, orders, io, 0);
      assert steps[1..] == Steps(guild, ps[1..], orders[1..], io);
      var p := RunAttachment(t, guild, ps[0], orders[0], io, used);
      assert steps[0](t, used) == p;
      if p.err.None? {
        ChainGoesOn(steps, t, used);
        CsvLoopTable(p.table, guild, ps[1..], orders[1..], io, used + p.stored, d);
        AttachmentTable(t, guild, ps[0], orders[0], io, used, d);
        var rest := Chain(steps[1..], p.table, used + p.stored);
        if rest.err.None? {
          forall i | LastNaming(ps, d, i) ensures Get(rest.table, guild, d) == Some(ps[i].value[d]) {
            LastNamingTail(ps, d, i);
          }
          if NamedNowhere(ps, d) {
            NamedNowhereTail(ps, d);
          }
        }
      } else {
        ChainStops(steps, t, used);
      }
    }
  }

  /**
   * `register-csv-fixers` over the message's attachments, in the order a walk
   * of discordgo's attachment map visits them.
   */
  function RunCsv(t: Table, guild: string, atts: seq<Download>, orders: seq<seq<string>>, io: seq<Outcome>): (r: Response)
    requires OrdersFit(ResolveAll(atts), orders)
    ensures SameOutside(t, r.table, guild)
    ensures r.out.Ok? ==> && (forall i :: 0 <= i < |atts| ==> atts[i].Fetched? && ParseFixers(atts[i].body).Ok?)
                          && r.out == Ok(CsvSuccess(TotalRules(ResolveAll(atts))))
  {
    var ps := ResolveAll(atts);
    var run := Chain(Steps(guild, ps, orders, io), t, 0);
    CsvLoopStaysInGuild(t, guild, ps, orders, io, 0);
    CsvLoopCount(t, guild, ps, orders, io, 0);
    assert run.err.None? ==> forall i :: 0 <= i < |atts| ==> ps[i].Ok?;
    match run.err
    case Some(e) => Response(run.table, Err(e))
    case None => Response(run.table, Ok(CsvSuccess(run.stored)))
  }

  /**
   * After a successful import each domain holds the rule of the last
   * attachment that names it, and every other domain of the guild keeps its
   * rule or its absence.
   */
  lemma RunCsvStoresLastRules(t: Table, guild: string, atts: seq<Download>, orders: seq<seq<string>>, io: seq<Outcome>)
    requires OrdersFit(ResolveAll(atts), orders)
    ensures var r := RunCsv(t, guild, atts, orders, io); var ps := ResolveAll(atts);
      r.out.Ok? ==>
        && (forall d, i :: LastNaming(ps, d, i) ==> Get(r.table, guild, d) == Some(ParseFixers(atts[i].body).value[d]))
        && (forall d :: NamedNowhere(ps, d) ==> Get(r.table, guild, d) == Get(t, guild, d))
  {
    var ps := ResolveAll(atts);
    var run := Chain(Steps(guild, ps, orders, io), t, 0);
    var r := RunCsv(t, guild, atts, orders, io);
    if r.out.Ok? {
      assert run.err.None? && r.table == run.table;
      forall d, i | LastNaming(ps, d, i)
        ensures Get(r.table, guild, d) == Some(ParseFixers(atts[i].body).value[d])
      {
        CsvLoopTable(t, guild, ps, orders, io, 0, d);
      }
      forall d | NamedNowhere(ps, d)
        ensures Get(r.table, guild, d) == Get(t, guild, d)
      {
        CsvLoopTable(t, guild, ps, orders, io, 0, d);
      }
    }
  }

  /** The store answers every call with `Done`. */
  predicate StoreNeverFails(io: seq<Outcome>) {
    forall k :: 0 <= k < |io| ==> io[k].Done?
  }

  /** A parsed attachment goes through when the store never fails. */
  lemma AttachmentGoesThrough(t: Table, guild: string, p: Parsed, order: seq<string>, io: seq<Outcome>, used: nat)
    requires OrderFits(p, order) && p.Ok? && StoreNeverFails(io)
    ensures RunAttachment(t, guild, p, order, io, used).err.None?
  {
    var r := RunAttachment(t, guild, p, order, io, used);
    assert OutcomeAt(io, used + r.stored).Done?;
  }

  /** The attachments after the first are all parsed too. */
  lemma AllParsedTail(ps: seq<Parsed>)
    requires |ps| > 0 && AllParsed(ps)
    ensures AllParsed(ps[1..])
  {
    assert forall j :: 0 <= j < |ps| - 1 ==> ps[1..][j] == ps[j + 1];
  }

  /** With every attachment parsed and a store that never fails, the loop runs to the end. */
  lemma {:induction false} CleanLoop(t: Table, guild: string, ps: seq<Parsed>, orders: seq<seq<string>>,
                                     io: seq<Outcome>, used: nat)
    requires OrdersFit(ps, orders) && AllParsed(ps) && StoreNeverFails(io)
    ensures Chain(Steps(guild, ps, orders, io), t, used).err.None?
    decreases |ps|
  {
    if |ps| > 0 {
      var steps := Steps(guild, ps, orders, io);
      OrdersFitTail(ps, orders);
      StepsAt(guild, ps, orders, io, 0);
      assert steps[1..] == Steps(guild, ps[1..], orders[1..], io);
      var p := RunAttachment(t, guild, ps[0], orders[0], io, used);
      assert steps[0](t, used) == p;
      AttachmentGoesThrough(t, guild, ps[0], orders[0], io, used);
      ChainGoesOn(steps, t, used);
      AllParsedTail(ps);
      CleanLoop(p.table, guild, ps[1..], orders[1..], io, used + p.stored);
    }
  }

  /**
   * When every attachment downloads and parses and every Put succeeds, the
   * import succeeds and reports the number of rules of all attachments.
   */
  lemma RunCsvSucceeds(t: Table, guild: string, atts: seq<Download>, orders: seq<seq<string>>, io: seq<Outcome>)
    requires OrdersFit(ResolveAll(atts), orders)
    requires forall i :: 0 <= i < |atts| ==> atts[i].Fetched? && ParseFixers(atts[i].body).Ok?
    requires StoreNeverFails(io)
    ensures RunCsv(t, guild, atts, orders, io).out == Ok(CsvSuccess(TotalRules(ResolveAll(atts))))
  {
    var ps := ResolveAll(atts);
    assert AllParsed(ps);
    CleanLoop(t, guild, ps, orders, io, 0);
  }

  /** An attachment that cannot be downloaded or parsed stores nothing and stops the command with its error. */
  lemma RefusedAttachmentStoresNothing(t: Table, guild: string, ps: seq<Parsed>, orders: seq<seq<string>>, io: seq<Outcome>, used: nat)
    requires OrdersFit(ps, orders) && |ps| > 0 && ps[0].Err?
    ensures var r := Chain(Steps(guild, ps, orders, io), t, used);
      r.table == t && r.stored == 0 && r.err == Some(ps[0].error)
  {
    var steps := Steps(guild, ps, orders, io);
    StepsAt(guild, ps, orders, io, 0);
    ChainStops(steps, t, used);
  }

  /**
   * The loop over attachments composes. If the attachments `a` stop with an
   * error, then so do `a + b`, at the same point: later attachments are never
   * looked at.
   */
  lemma RunCsvStopsAtError(t: Table, guild: string, a: seq<Parsed>, oa: seq<seq<string>>,
                           b: seq<Parsed>, ob: seq<seq<string>>, io: seq<Outcome>, used: nat)
    requires OrdersFit(a, oa) && OrdersFit(b, ob)
    requires Chain(Steps(guild, a, oa, io), t, used).err.Some?
    ensures OrdersFit(a + b, oa + ob)
    ensures Chain(Steps(guild, a + b, oa + ob, io), t, used) == Chain(Steps(guild, a, oa, io), t, used)
  {
    StepsAppend(guild, a, oa, b, ob, io);
    ChainStopsAtError(Steps(guild, a, oa, io), Steps(guild, b, ob, io), t, used);
  }

  /**
   * If the attachments `a` all go through, running `a + b` is running `a`
   * and then `b` from where `a` left the table and the store's answers: the
   * rules stored from `a` stay stored whatever happens to `b`.
   */
  lemma RunCsvContinues(t: Table, guild: string, a: seq<Parsed>, oa: seq<seq<string>>,
                        b: seq<Parsed>, ob: seq<seq<string>>, io: seq<Outcome>, used: nat)
    requires OrdersFit(a, oa) && OrdersFit(b, ob)
    requires Chain(Steps(guild, a, oa, io), t, used).err.None?
    ensures OrdersFit(a + b, oa + ob)
    ensures var ra := Chain(Steps(guild, a, oa, io), t, used);
      var rb := Chain(Steps(guild, b, ob, io), ra.table, used + ra.stored);
      Chain(Steps(guild, a + b, oa + ob, io), t, used) == CsvRun(rb.table, ra.stored + rb.stored, rb.err)
  {
    StepsAppend(guild, a, oa, b, ob, io);
    ChainContinues(Steps(guild, a, oa, io), Steps(guild, b, ob, io), t, used);
  }

  // ---------------------------------------------------------------------
  // Every stored regular expression compiles
  // ---------------------------------------------------------------------

  /** The table invariant the regexp command keeps: no stored pattern fails to compile. */
  predicate RegexpsCompile(t: Table, re: RegexEngine) {
    forall k :: k in t && t[k].RegexpReplace? ==> re.compiles(t[k].pattern)
  }

  /** Hence a stored regexp rule never takes the branch where `Fix` gives "". */
  lemma StoredRegexpFixes(t: Table, re: RegexEngine, key: Key, link: string)
    requires RegexpsCompile(t, re) && key in t && t[key].RegexpReplace?
    ensures Fix(t[key], link, re) == re.replaceAll(t[key].pattern, link, t[key].replacement)
  {
  }

  lemma RegisterKeepsRegexpsCompiling(t: Table, guild: string, opts: Options, re: RegexEngine, io: Outcome)
    requires RegexpsCompile(t, re)
    ensures "domain" in opts && "old" in opts && "new" in opts ==> RegexpsCompile(RunReplace(t, guild, opts, io).table, re)
    ensures "domain" in opts && "pattern" in opts && "replacement" in opts ==> RegexpsCompile(RunRegexp(t, guild, opts, re, io).table, re)
    ensures "domain" in opts && "prefix" in opts ==> RegexpsCompile(RunPrepend(t, guild, opts, io).table, re)
    ensures "domain" in opts ==> RegexpsCompile(RunDelete(t, guild, opts, io).table, re)
  {
  }

  lemma {:induction false} PutEachKeepsRegexpsCompiling(t: Table, guild: string, m: map<string, Fixer>, order: seq<string>,
                                                         io: seq<Outcome>, used: nat, re: RegexEngine)
    requires InMap(order, m)
    requires NoRegexps(m)
    requires RegexpsCompile(t, re)
    ensures RegexpsCompile(PutEach(t, guild, m, order, io, used).table, re)
    decreases |order|
  {
    if |order| > 0 && OutcomeAt(io, used).Done? {
      var d := order[0];
      assert forall i :: 0 <= i < |order[1..]| ==> order[1..][i] == order[i + 1];
      PutEachKeepsRegexpsCompiling(Put(t, guild, d, m[d]), guild, m, order[1..], io, used + 1, re);
    }
  }

  /** Rules that come from the bulk format are never regexp rules. */
  predicate FromBulkFormat(ps: seq<Parsed>) {
    forall i :: 0 <= i < |ps| && ps[i].Ok? ==> NoRegexps(ps[i].value)
  }

  /** The bulk format has no regexp rules, so the CSV loop keeps the invariant. */
  lemma CsvLoopKeepsRegexpsCompiling(t: Table, guild: string, ps: seq<Parsed>, orders: seq<seq<string>>,
                                     io: seq<Outcome>, used: nat, re: RegexEngine)
    requires OrdersFit(ps, orders) && FromBulkFormat(ps)
    requires RegexpsCompile(t, re)
    ensures RegexpsCompile(Chain(Steps(guild, ps, orders, io), t, used).table, re)
  {
    var steps := Steps(guild, ps, orders, io);
    forall i | 0 <= i < |steps| ensures KeepsCompiling(steps[i], re) {
      StepsAt(guild, ps, orders, io, i);
      AttachmentStepKeepsCompiling(guild, ps[i], orders[i], io, re);
    }
    ChainKeepsCompiling(steps, re, t, used);
  }

  lemma CsvKeepsRegexpsCompiling(t: Table, guild: string, atts: seq<Download>, orders: seq<seq<string>>, io: seq<Outcome>, re: RegexEngine)
    requires OrdersFit(ResolveAll(atts), orders)
    requires RegexpsCompile(t, re)
    ensures RegexpsCompile(RunCsv(t, guild, atts, orders, io).table, re)
  {
    CsvLoopKeepsRegexpsCompiling(t, guild, ResolveAll(atts), orders, io, 0, re);
  }
}

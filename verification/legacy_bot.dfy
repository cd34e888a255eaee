/**
 * The older bot: a message handler and three interaction handlers, each
 * registered with the Discord session on its own and each ignoring the
 * interactions meant for the others.
 *
 * It differs from the current bot in what it does with what it reads: the
 * message handler fixes the whole link, query string included; the domain
 * options are used as keys exactly as typed; the replace handler refuses
 * empty options; and the store's failures become fixed replies rather than
 * Go errors.
 *
 * Its store holds the older fixer types. The table here holds their current
 * counterparts (`LegacyFixers.Upgrade`), which behave alike
 * (`LegacyFixers.SameBehaviour`), so the two bots can be compared on one
 * table.
 */
module LegacyBot {
  import opened GoStrings
  import opened Results
  import Fixers
  import opened UrlPipeline
  import opened RuleStore
  import opened LegacyFixers
  import opened Commands
  import opened Bot

  // ---------------------------------------------------------------------
  // Messages
  // ---------------------------------------------------------------------

  /**
   * `messageHandler` of the older bot: the domain is group 1 of the
   * scheme-first domain pattern on the whole first link, and the fixer is
   * applied to the whole link.
   */
  function HandleMessage(self: string, m: Message, t: Table, get: Outcome, re: Fixers.RegexEngine): (d: Decision)
    ensures m.author == self || ExtractURLs(m.content) == [] ==> d == Decision(None, None)
    ensures m.author != self && ExtractURLs(m.content) != [] ==>
      d.lookup == Some((m.guild, ExtractDomain(FindURL(m.content))))
    ensures d.reply.Some? <==> d.lookup.Some? && get.Done? && d.lookup.value in t
    ensures d.reply.Some? ==> d.reply.value == Fix(Downgrade(t[d.lookup.value]), FindURL(m.content), re)
  {
    if m.author == self then Decision(None, None)
    else
      var url := FindURL(m.content);
      if url == "" then Decision(None, None)
      else
        FoundUrlIsSchemeHost(m.content);
        SchemeDomainGroupAgrees(url);
        var domain := SchemeDomainGroup(url).value;
        var key := (m.guild, domain);
        if get.Fail? then Decision(Some(key), None)
        else
          match Get(t, m.guild, domain)
          case None => Decision(Some(key), None)
          case Some(f) => Decision(Some(key), Some(Fix(Downgrade(f), url, re)))
  }

  /**
   * Both bots look up the same key for every message: the query string that
   * the current bot cuts off never reaches into the domain.
   */
  lemma BothBotsLookUpSameKey(self: string, m: Message, t: Table, get: Outcome, re: Fixers.RegexEngine)
    ensures HandleMessage(self, m, t, get, re).lookup == Bot.HandleMessage(self, m, t, get, re).lookup
  {
    if m.author != self && FindURL(m.content) != "" {
      FoundUrlIsSchemeHost(m.content);
      CutKeepsDomain(FindURL(m.content));
    }
  }

  /**
   * With a prepend rule for the link's domain, the older bot answers with the
   * prefix before the whole link, the current bot with the prefix before the
   * link without its query; the answers agree exactly when the link has no
   * query.
   */
  lemma OnlyOlderBotKeepsQuery(self: string, m: Message, t: Table, prefix: string, re: Fixers.RegexEngine)
    requires m.author != self && FindURL(m.content) != ""
    requires Get(t, m.guild, ExtractDomain(FindURL(m.content))) == Some(Fixers.Prepend(prefix))
    ensures var older := HandleMessage(self, m, t, Done, re);
      var current := Bot.HandleMessage(self, m, t, Done, re);
      && older.reply == Some(prefix + FindURL(m.content))
      && current.reply == Some(prefix + CutLink(m.content))
      && (older.reply == current.reply <==> '?' !in FindURL(m.content))
  {
    var url := FindURL(m.content);
    FoundUrlIsSchemeHost(m.content);
    CutKeepsDomain(url);
    var older := HandleMessage(self, m, t, Done, re);
    var current := Bot.HandleMessage(self, m, t, Done, re);
    assert older.reply == Some(prefix + url);
    assert current.reply == Some(prefix + CutLink(m.content));
    var cut := RemoveQueryParams(url);
    if '?' in url {
      assert |cut| < |url|;
      assert |prefix + cut| != |prefix + url|;
    }
  }

  // ---------------------------------------------------------------------
  // Interactions
  // ---------------------------------------------------------------------

  /**
   * The loop over the options with a `switch` on the name: the value of the
   * last option of that name, or "" when there is none.
   */
  function OptionValue(opts: seq<CommandOption>, name: string): string
    decreases |opts|
  {
    if |opts| == 0 then ""
    else
      var last := opts[|opts| - 1];
      if last.0 == name then last.1 else OptionValue(opts[..|opts| - 1], name)
  }

  /** The older handlers read each option as the current bot's `parseOptions` does. */
  lemma {:induction false} OptionValueIsParsed(opts: seq<CommandOption>, name: string)
    ensures OptionValue(opts, name) == if name in ParseOptions(opts) then ParseOptions(opts)[name] else ""
    decreases |opts|
  {
    if |opts| > 0 {
      OptionValueIsParsed(opts[..|opts| - 1], name);
    }
  }

  const EmptyOptions := "error: domain and old options must not be empty"
  const CouldNotStore := "error: could not store fixer"

  /**
   * `registerReplaceFixerHandler`: the domain and old text must not be empty;
   * the domain is the key as typed.
   */
  function RegisterReplace(t: Table, i: Interaction, io: Outcome): (h: Handled)
    ensures i.name != "replace-fixer" ==> h == Handled(t, None)
    ensures var domain, oldText := OptionValue(i.options, "domain"), OptionValue(i.options, "old");
      i.name == "replace-fixer" ==>
        && (domain == "" || oldText == "" ==> h == Handled(t, Some(EmptyOptions)))
        && (domain != "" && oldText != "" && io.Fail? ==> h == Handled(t, Some(CouldNotStore)))
        && (domain != "" && oldText != "" && io.Done? ==>
             && Get(h.table, i.guild, domain) == Some(Fixers.Replace(oldText, OptionValue(i.options, "new")))
             && SameExcept(t, h.table, (i.guild, domain))
             && h.reply == Some("added replace fixer for domain " + domain))
  {
    if i.name != "replace-fixer" then Handled(t, None)
    else
      var domain := OptionValue(i.options, "domain");
      var f := ReplaceFixer(OptionValue(i.options, "old"), OptionValue(i.options, "new"));
      if domain == "" || f.oldText == "" then Handled(t, Some(EmptyOptions))
      else if io.Fail? then Handled(t, Some(CouldNotStore))
      else
        PutChangesOneKey(t, i.guild, domain, Upgrade(f));
        Handled(Put(t, i.guild, domain, Upgrade(f)), Some("added replace fixer for domain " + domain))
  }

  /** `registerPrependFixerHandler`: no check at all; the domain is the key as typed, even "". */
  function RegisterPrepend(t: Table, i: Interaction, io: Outcome): (h: Handled)
    ensures i.name != "prepend-fixer" ==> h == Handled(t, None)
    ensures var domain := OptionValue(i.options, "domain");
      i.name == "prepend-fixer" ==>
        && (io.Fail? ==> h == Handled(t, Some(CouldNotStore)))
        && (io.Done? ==>
             && Get(h.table, i.guild, domain) == Some(Fixers.Prepend(OptionValue(i.options, "prefix")))
             && SameExcept(t, h.table, (i.guild, domain))
             && h.reply == Some("added prepend fixer for domain " + domain))
  {
    if i.name != "prepend-fixer" then Handled(t, None)
    else
      var domain := OptionValue(i.options, "domain");
      var f := PrependFixer(OptionValue(i.options, "prefix"));
      if io.Fail? then Handled(t, Some(CouldNotStore))
      else
        PutChangesOneKey(t, i.guild, domain, Upgrade(f));
        Handled(Put(t, i.guild, domain, Upgrade(f)), Some("added prepend fixer for domain " + domain))
  }

  /**
   * The older handlers store a link typed as the domain under the link
   * itself, where the current commands store it under its domain.
   */
  lemma OlderKeyIsNotNormalised(t: Table, guild: string, prefix: string)
    ensures var url := "https://" + "twitter.com";
      var older := RegisterPrepend(t, Interaction(true, guild, "prepend-fixer", [("domain", url), ("prefix", prefix)]), Done);
      var current := RunPrepend(t, guild, map["domain" := url, "prefix" := prefix], Done);
      && Get(older.table, guild, url) == Some(Fixers.Prepend(prefix))
      && Get(current.table, guild, "twitter.com") == Some(Fixers.Prepend(prefix))
  {
    var url := "https://" + "twitter.com";
    var opts := [("domain", url), ("prefix", prefix)];
    assert OptionValue(opts, "domain") == url;
    assert OptionValue(opts, "prefix") == prefix;
    ExtractDomainOfSchemeHost();
  }

  const NoneRegistered := "No currently registered fixers!"

  /** One line per domain, each ending in a line break, in the given order. */
  function LegacyListLines(m: map<string, Fixers.Fixer>, order: seq<string>): (lines: seq<string>)
    requires InMap(order, m)
    ensures |lines| == |order|
    ensures forall k :: 0 <= k < |order| ==> lines[k] == ListLine(order[k], m[order[k]]) + "\n"
  {
    if |order| == 0 then []
    else
      var rest := LegacyListLines(m, order[1..]);
      assert forall k :: 1 <= k < |order| ==> order[k] == order[1..][k - 1];
      [ListLine(order[0], m[order[0]]) + "\n"] + rest
  }

  /**
   * `listLinkfixersHandler`. A store error is logged and the handler goes on
   * with the map it got, taken here to be empty; `%+v` of a fixer prints
   * its `String()`.
   */
  function ListFixers(t: Table, i: Interaction, order: seq<string>, io: Outcome): (h: Handled)
    requires i.name == "list-fixers" && io.Done? ==> Enumerates(order, List(t, i.guild).Keys)
    ensures h.table == t
    ensures i.name != "list-fixers" ==> h.reply == None
    ensures i.name == "list-fixers" && (io.Fail? || forall d :: (i.guild, d) !in t) ==> h.reply == Some(NoneRegistered)
    ensures i.name == "list-fixers" && io.Done? && (exists d :: (i.guild, d) in t) ==>
      && h.reply.Some? && HasPrefix(h.reply.value, ListHeader)
      && h.reply.value[|ListHeader|..] == Concat(LegacyListLines(List(t, i.guild), order))
  {
    if i.name != "list-fixers" then Handled(t, None)
    else if io.Fail? then Handled(t, Some(NoneRegistered))
    else
      var m := List(t, i.guild);
      if |m| == 0 then
        assert m == map[];
        Handled(t, Some(NoneRegistered))
      else
        assert exists d :: (i.guild, d) in t by {
          var d :| d in m;
        }
        var out := ListHeader + Concat(LegacyListLines(m, order));
        assert out[..|ListHeader|] == ListHeader;
        Handled(t, Some(out))
  }

  /**
   * The older list shows the same lines as the current one, each followed
   * by a line break.
   */
  lemma LegacyLinesAreCurrentLines(m: map<string, Fixers.Fixer>, order: seq<string>)
    requires InMap(order, m)
    ensures var older, current := LegacyListLines(m, order), ListLines(m, order);
      |older| == |current| && forall k :: 0 <= k < |older| ==> older[k] == current[k] + "\n"
  {
  }

  /**
   * Each older handler acts only on its own command name, so at most one of
   * them answers an interaction and the others leave the table alone.
   */
  lemma AtMostOneHandlerAnswers(t: Table, i: Interaction, order: seq<string>, io: Outcome)
    requires i.name == "list-fixers" && io.Done? ==> Enumerates(order, List(t, i.guild).Keys)
    ensures var answers := [RegisterReplace(t, i, io), ListFixers(t, i, order, io), RegisterPrepend(t, i, io)];
      && (forall a, b :: 0 <= a < b < 3 ==> answers[a].reply == None || answers[b].reply == None)
      && (forall a :: 0 <= a < 3 && answers[a].reply == None ==> answers[a].table == t)
  {
  }
}

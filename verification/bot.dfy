/**
 * The bot's two event handlers: the message handler, which answers a link
 * whose domain has a rule with the fixed link, and the interaction handler,
 * which runs the slash command named by the interaction and replies with its
 * text, or with a fixed apology when the command returns an error.
 *
 * Each handler is a decision over the rule table. Sending the reply or the
 * interaction response is left to the caller; so is logging.
 */
module Bot {
  import opened GoStrings
  import opened Results
  import opened Fixers
  import opened UrlPipeline
  import opened RuleStore
  import opened CsvImport
  import opened Commands

  // ---------------------------------------------------------------------
  // Messages
  // ---------------------------------------------------------------------

  /** A message as the handler sees it: who wrote it, in which guild, and its text. */
  datatype Message = Message(author: string, guild: string, content: string)

  /** The key the handler looked up, if any, and the reply it sends, if any. */
  datatype Decision = Decision(lookup: Option<Key>, reply: Option<string>)

  /** The link the handler works on: the first URL of the message with its query cut off. */
  function CutLink(content: string): string {
    RemoveQueryParams(FindURL(content))
  }

  /**
   * `messageHandler`: `self` is the bot's own user, `get` the store's answer
   * to the lookup. The domain is group 1 of the scheme-first domain pattern
   * on the cut link, which always matches, so the `[1]` index is safe, and
   * which yields what `ExtractDomain` yields, so the lookup key is the key a
   * register command stores under.
   */
  function HandleMessage(self: string, m: Message, t: Table, get: Outcome, re: RegexEngine): (d: Decision)
    ensures m.author == self || ExtractURLs(m.content) == [] ==> d == Decision(None, None)
    ensures m.author != self && ExtractURLs(m.content) != [] ==>
      d.lookup == Some((m.guild, ExtractDomain(CutLink(m.content))))
    ensures d.reply.Some? <==> d.lookup.Some? && get.Done? && d.lookup.value in t
    ensures d.reply.Some? ==> d.reply.value == Fix(t[d.lookup.value], CutLink(m.content), re)
  {
    if m.author == self then Decision(None, None)
    else
      var url := FindURL(m.content);
      if url == "" then Decision(None, None)
      else
        var link := RemoveQueryParams(url);
        FoundUrlIsSchemeHost(m.content);
        SchemeDomainGroupAgrees(link);
        var domain := SchemeDomainGroup(link).value;
        var key := (m.guild, domain);
        if get.Fail? then Decision(Some(key), None)
        else
          match Get(t, m.guild, domain)
          case None => Decision(Some(key), None)
          case Some(f) => Decision(Some(key), Some(Fix(f, link, re)))
  }

  /**
   * A link on a bare domain, with or without `www.`: cutting its query keeps
   * scheme, `www.` and host, and its domain is the host.
   */
  lemma LinkOnHost(scheme: string, www: string, host: string, rest: string)
    requires scheme == "http://" || scheme == "https://"
    requires www == "" || www == "www."
    requires |host| > 0 && AllHost(host) && !HasPrefix(host, "www.")
    requires rest == "" || !IsHostChar(rest[0])
    ensures var link := scheme + www + host + RemoveQueryParams(rest);
      && RemoveQueryParams(scheme + www + host + rest) == link
      && ExtractDomain(link) == host
  {
    assert forall j :: 0 <= j < |host| ==> host[j] != '?';
    assert '?' !in scheme + www + host;
    CutAfterPlainText(scheme + www + host, rest);
    var cutRest := RemoveQueryParams(rest);
    assert cutRest == "" || cutRest[0] == rest[0];
    ExtractDomainOfShape(scheme, www, host, cutRest);
  }

  /** A bare host is its own domain. */
  lemma HostIsOwnDomain(host: string)
    requires |host| > 0 && AllHost(host) && !HasPrefix(host, "www.")
    ensures ExtractDomain(host) == host
  {
    ExtractDomainOfShape("", "", host, "");
    assert "" + "" + host + "" == host;
  }

  /**
   * A rule registered for a bare domain is found for a message whose first
   * link is on that domain, with or without `www.`, and the reply is the
   * rule applied to the link without its query.
   */
  lemma BareDomainRuleIsFound(t: Table, self: string, m: Message, scheme: string, www: string,
                              host: string, rest: string, prefix: string, re: RegexEngine)
    requires m.author != self
    requires scheme == "http://" || scheme == "https://"
    requires www == "" || www == "www."
    requires |host| > 0 && AllHost(host) && !HasPrefix(host, "www.")
    requires rest == "" || !IsHostChar(rest[0])
    requires FindURL(m.content) == scheme + www + host + rest
    ensures var registered := RunPrepend(t, m.guild, map["domain" := host, "prefix" := prefix], Done);
      var link := scheme + www + host + RemoveQueryParams(rest);
      && CutLink(m.content) == link
      && HandleMessage(self, m, registered.table, Done, re).reply == Some(prefix + link)
  {
    LinkOnHost(scheme, www, host, rest);
    PrependForHostIsStored(t, m.guild, host, prefix);
    var registered := RunPrepend(t, m.guild, map["domain" := host, "prefix" := prefix], Done);
    RuleForLinkReplies(registered.table, self, m, Prepend(prefix), re);
  }

  /** Registering a prefix for a bare host stores it under that host. */
  lemma PrependForHostIsStored(t: Table, guild: string, host: string, prefix: string)
    requires |host| > 0 && AllHost(host) && !HasPrefix(host, "www.")
    ensures Get(RunPrepend(t, guild, map["domain" := host, "prefix" := prefix], Done).table, guild, host) == Some(Prepend(prefix))
  {
    HostIsOwnDomain(host);
    assert map["domain" := host, "prefix" := prefix]["domain"] == host;
  }

  /**
   * Whatever rule sits under the guild and the domain of the message's cut
   * link is the one applied: the lookup key is the registration key.
   */
  lemma RuleForLinkReplies(t: Table, self: string, m: Message, f: Fixer, re: RegexEngine)
    requires m.author != self && FindURL(m.content) != ""
    requires Get(t, m.guild, ExtractDomain(CutLink(m.content))) == Some(f)
    ensures HandleMessage(self, m, t, Done, re).reply == Some(Fix(f, CutLink(m.content), re))
  {
  }

  // ---------------------------------------------------------------------
  // Interactions
  // ---------------------------------------------------------------------

  /** An option of a slash command: its name and the text the user gave. */
  type CommandOption = (string, string)

  /** `parseOptions`: one entry per option name, later duplicates overwriting earlier ones. */
  function ParseOptions(opts: seq<CommandOption>): Options
    decreases |opts|
  {
    if |opts| == 0 then map[]
    else
      var last := opts[|opts| - 1];
      ParseOptions(opts[..|opts| - 1])[last.0 := last.1]
  }

  /** No option after position `i` has the same name. */
  predicate LastOfName(opts: seq<CommandOption>, i: int) {
    0 <= i < |opts| && forall j :: i < j < |opts| ==> opts[j].0 != opts[i].0
  }

  /** A name is present exactly when some option carries it. */
  lemma {:induction false} ParseOptionsHasName(opts: seq<CommandOption>, n: string)
    ensures n in ParseOptions(opts) <==> exists i :: 0 <= i < |opts| && opts[i].0 == n
    decreases |opts|
  {
    if |opts| > 0 {
      var init := opts[..|opts| - 1];
      ParseOptionsHasName(init, n);
      if n != opts[|opts| - 1].0 {
        if exists i :: 0 <= i < |opts| && opts[i].0 == n {
          var i :| 0 <= i < |opts| && opts[i].0 == n;
          assert init[i] == opts[i];
        }
        if exists i :: 0 <= i < |init| && init[i].0 == n {
          var i :| 0 <= i < |init| && init[i].0 == n;
          assert init[i] == opts[i];
        }
      }
    }
  }

  /** The last option of a name gives that name its value. */
  lemma {:induction false} ParseOptionsLastValue(opts: seq<CommandOption>, i: int)
    requires LastOfName(opts, i)
    ensures opts[i].0 in ParseOptions(opts) && ParseOptions(opts)[opts[i].0] == opts[i].1
    decreases |opts|
  {
    if i < |opts| - 1 {
      var init := opts[..|opts| - 1];
      assert init[i] == opts[i];
      assert LastOfName(init, i) by {
        forall j | i < j < |init| ensures init[j].0 != init[i].0 {
          assert init[j] == opts[j];
        }
      }
      ParseOptionsLastValue(init, i);
    }
  }

  /** Exactly the given names are present, each with the value of its last occurrence. */
  lemma ParseOptionsLastWins(opts: seq<CommandOption>)
    ensures forall n :: n in ParseOptions(opts) <==> exists i :: 0 <= i < |opts| && opts[i].0 == n
    ensures forall i :: LastOfName(opts, i) ==> ParseOptions(opts)[opts[i].0] == opts[i].1
  {
    forall n ensures n in ParseOptions(opts) <==> exists i :: 0 <= i < |opts| && opts[i].0 == n {
      ParseOptionsHasName(opts, n);
    }
    forall i | LastOfName(opts, i) ensures ParseOptions(opts)[opts[i].0] == opts[i].1 {
      ParseOptionsLastValue(opts, i);
    }
  }

  /** The six commands the bot registers. */
  datatype Command = ReplaceCmd | CsvCmd | RegexpCmd | PrependCmd | ListCmd | DeleteCmd

  /** The bot's table from command name to command; `None` where Go's map has no entry. */
  function CommandFor(name: string): (c: Option<Command>)
    ensures c.Some? <==> name in {"replace-fixer", "register-csv-fixers", "regexp-replace-fixer",
                                  "prepend-fixer", "list-fixers", "delete-fixer"}
  {
    match name
    case "replace-fixer" => Some(ReplaceCmd)
    case "register-csv-fixers" => Some(CsvCmd)
    case "regexp-replace-fixer" => Some(RegexpCmd)
    case "prepend-fixer" => Some(PrependCmd)
    case "list-fixers" => Some(ListCmd)
    case "delete-fixer" => Some(DeleteCmd)
    case _ => None
  }

  const InternalError := ":sob: Internal server error when running command"

  /**
   * What an interaction brings besides its options: the regex engine, the
   * store's answers to successive calls, the order the guild's rules are
   * walked in when listing, and the message's attachments as downloaded with
   * the order each parsed file is walked in.
   */
  datatype Env = Env(re: RegexEngine, io: seq<Outcome>, listOrder: seq<string>,
                     attachments: seq<Download>, csvOrders: seq<seq<string>>)

  /** The command can run: its options are there, and the map orders are enumerations. */
  predicate Ready(t: Table, guild: string, c: Command, opts: Options, env: Env) {
    match c
    case ReplaceCmd => "domain" in opts && "old" in opts && "new" in opts
    case RegexpCmd => "domain" in opts && "pattern" in opts && "replacement" in opts
    case PrependCmd => "domain" in opts && "prefix" in opts
    case DeleteCmd => "domain" in opts
    case ListCmd => Enumerates(env.listOrder, List(t, guild).Keys)
    case CsvCmd => OrdersFit(ResolveAll(env.attachments), env.csvOrders)
  }

  /** `cmd.Run(i, options)`: the command run on the table. */
  function RunCommand(t: Table, guild: string, c: Command, opts: Options, env: Env): Response
    requires Ready(t, guild, c, opts, env)
  {
    var io := OutcomeAt(env.io, 0);
    match c
    case ReplaceCmd => RunReplace(t, guild, opts, io)
    case RegexpCmd => RunRegexp(t, guild, opts, env.re, io)
    case PrependCmd => RunPrepend(t, guild, opts, io)
    case DeleteCmd => RunDelete(t, guild, opts, io)
    case ListCmd => RunList(t, guild, env.listOrder, io)
    case CsvCmd => RunCsv(t, guild, env.attachments, env.csvOrders, env.io)
  }

  /** An interaction: whether it is an application command, its guild, command name and options. */
  datatype Interaction = Interaction(isCommand: bool, guild: string, name: string, options: seq<CommandOption>)

  /** The table after the interaction, and the response text, if one is sent. */
  datatype Handled = Handled(table: Table, reply: Option<string>)

  /**
   * What the handler needs of an application command: a registered name
   * (an unknown one is logged and then run on a nil command, which panics)
   * and a command that can run.
   */
  predicate CanHandle(t: Table, i: Interaction, env: Env) {
    i.isCommand ==> CommandFor(i.name).Some? && Ready(t, i.guild, CommandFor(i.name).value, ParseOptions(i.options), env)
  }

  /**
   * `interactionHandler`: nothing for an interaction that is not an
   * application command; otherwise the command's text, or the fixed apology
   * in place of its error, whose text the user never sees.
   */
  function HandleInteraction(t: Table, i: Interaction, env: Env): (h: Handled)
    requires CanHandle(t, i, env)
    ensures !i.isCommand ==> h == Handled(t, None)
    ensures i.isCommand ==> var r := RunCommand(t, i.guild, CommandFor(i.name).value, ParseOptions(i.options), env);
      && h.table == r.table
      && (r.out.Err? ==> h.reply == Some(InternalError))
      && (r.out.Ok? ==> h.reply == Some(r.out.value))
  {
    if !i.isCommand then Handled(t, None)
    else
      var r := RunCommand(t, i.guild, CommandFor(i.name).value, ParseOptions(i.options), env);
      match r.out
      case Err(_) => Handled(r.table, Some(InternalError))
      case Ok(text) => Handled(r.table, Some(text))
  }

  /** Every command changes the rules of its own guild and no other. */
  lemma CommandStaysInGuild(t: Table, guild: string, c: Command, opts: Options, env: Env)
    requires Ready(t, guild, c, opts, env)
    ensures SameOutside(t, RunCommand(t, guild, c, opts, env).table, guild)
  {
    var io := OutcomeAt(env.io, 0);
    match c
    case ReplaceCmd =>
      RegisterStaysInGuild(t, guild, ExtractDomain(opts["domain"]), Replace(opts["old"], opts["new"]), "replace fixer", io);
    case RegexpCmd =>
      RegisterStaysInGuild(t, guild, ExtractDomain(opts["domain"]), RegexpReplace(opts["pattern"], opts["replacement"]), "fixer", io);
    case PrependCmd =>
      RegisterStaysInGuild(t, guild, ExtractDomain(opts["domain"]), Prepend(opts["prefix"]), "fixer", io);
    case DeleteCmd =>
      DeleteStaysInGuild(t, guild, opts, io);
    case ListCmd =>
    case CsvCmd =>
  }

  /** An interaction changes the rules of its own guild and no other. */
  lemma InteractionStaysInGuild(t: Table, i: Interaction, env: Env)
    requires CanHandle(t, i, env)
    ensures SameOutside(t, HandleInteraction(t, i, env).table, i.guild)
  {
    if i.isCommand {
      CommandStaysInGuild(t, i.guild, CommandFor(i.name).value, ParseOptions(i.options), env);
    }
  }

  /** No command leaves a stored regular expression that does not compile. */
  lemma InteractionKeepsRegexpsCompiling(t: Table, i: Interaction, env: Env)
    requires CanHandle(t, i, env)
    requires RegexpsCompile(t, env.re)
    ensures RegexpsCompile(HandleInteraction(t, i, env).table, env.re)
  {
    if i.isCommand {
      var opts := ParseOptions(i.options);
      RegisterKeepsRegexpsCompiling(t, i.guild, opts, env.re, OutcomeAt(env.io, 0));
      if CommandFor(i.name) == Some(CsvCmd) {
        CsvKeepsRegexpsCompiling(t, i.guild, env.attachments, env.csvOrders, env.io, env.re);
      }
    }
  }

  /** Every command returns text or an error, never empty text. */
  lemma CommandTextNotEmpty(t: Table, guild: string, c: Command, opts: Options, env: Env)
    requires Ready(t, guild, c, opts, env)
    ensures var r := RunCommand(t, guild, c, opts, env);
      r.out.Ok? ==> r.out.value != ""
  {
  }

  /** Every command is answered, and never with an empty message. */
  lemma CommandReplyNotEmpty(t: Table, i: Interaction, env: Env)
    requires i.isCommand && CanHandle(t, i, env)
    ensures var h := HandleInteraction(t, i, env);
      h.reply.Some? && h.reply.value != ""
  {
    CommandTextNotEmpty(t, i.guild, CommandFor(i.name).value, ParseOptions(i.options), env);
  }

  /**
   * When the store refuses the one call a single-rule command makes, the
   * table is left alone and the user gets the apology.
   */
  lemma StoreFailureIsApology(t: Table, i: Interaction, env: Env)
    requires i.isCommand && CanHandle(t, i, env)
    requires CommandFor(i.name).value in {ReplaceCmd, PrependCmd, DeleteCmd, ListCmd}
    requires OutcomeAt(env.io, 0).Fail?
    ensures HandleInteraction(t, i, env) == Handled(t, Some(InternalError))
  {
  }
}

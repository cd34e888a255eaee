# Link-fixer bot: a Dafny model

The bot watches a Discord server's messages. It takes the first web link in
each message, works out the link's domain, and looks up a *fixer* that the
server registered for that domain. When it finds one, it replies with the
fixed link. There are three kinds of fixer:

- a plain substring replacement (`strings.ReplaceAll`);
- a regular-expression replacement;
- a prefix that is prepended to the link.

Slash commands register fixers one at a time, or in bulk from a CSV
attachment. Other slash commands list a server's fixers and delete one.

The model covers the current bot (`pkg/fixer`, `pkg/linkfixerbot`) and the
older one (`pkg/fixer.go`, `pkg/bot.go`), as pure functions over an abstract
rule table `map<(server, domain), Fixer>`:

| module | file | what it models |
|---|---|---|
| `Results` | `results.dfy` | `Option` and `Result` |
| `GoStrings` | `go_strings.dfy` | the Go library functions the bot relies on: `strings.Index`, `ReplaceAll`, `Split`, `TrimSpace`, and `%v` of an integer |
| `Fixers` | `fixer.dfy` | the fixer sum type with `Fix` and `String` (here `Describe`) |
| `UrlPipeline` | `url_pipeline.dfy` | the two link regular expressions as leftmost-first scanners, plus `ExtractURLs`, `ExtractDomain` and `RemoveQueryParams` |
| `RuleStore` | `rule_store.dfy` | the store as a map, with Put, Get, Delete and List |
| `CsvImport` | `csv_import.dfy` | `parseFixers`, the CSV bulk-import parser |
| `Commands` | `commands.dfy` | the `Run` method of each of the six slash commands |
| `Bot` | `bot.dfy` | the message handler, `parseOptions` and the interaction handler |
| `LegacyFixers` | `legacy_fixer.dfy` | the older fixer types |
| `LegacyBot` | `legacy_bot.dfy` | the older message handler and its three interaction handlers |

Effects are passed in as values:

- **Store answers.** A store call's answer is an `Outcome`, either `Done` or `Fail(msg)`. A command that makes several store calls reads them from a sequence of outcomes.
- **Regular-expression engine.** `Fixers.RegexEngine` is a record of two functions: whether a pattern compiles, and `ReplaceAllString`.
- **Go map order.** The order in which a Go `range` visits a map is an explicit sequence. It must list every key exactly once (`Commands.Enumerates`).
- **Attachment downloads.** Each download is either `Fetched(body)` or `FetchFailed(msg)`.

## Surprising behaviour of the code
The model keeps each of these behaviours exactly.

- **`ExtractDomain` on plain text.** The scheme is optional in the domain pattern (pkg/fixer/util.go:9), so `ExtractDomain("not a url")` is `"not"` (`UrlPipeline.ExtractDomainOfPlainText`). `ExtractDomain` gives `""` only when the input has no host character at all.
- **Scheme in the message handler's domain pattern.** The message handler uses its own copy of the domain pattern, and that copy *requires* the scheme (pkg/linkfixerbot/bot.go:17). Indexing its group 1 would panic on a text without a scheme. The model shows that the indexing never fails on a link the URL pattern found (`UrlPipeline.FoundUrlIsSchemeHost`). It also shows that the group then equals `ExtractDomain` (`UrlPipeline.SchemeDomainGroupAgrees`).
- **Domain keys are neither checked nor lower-cased.**
  - No code path lower-cases a domain.
  - The single-rule commands store a domain with no host character under the key `""`.
  - `delete-fixer` and the older handlers use the option text as typed (`Commands.DeleteDoesNotNormalise`, `LegacyBot.OlderKeyIsNotNormalised`).
- **Wrong but kept texts.** Some error texts are wrong, and the model keeps them exactly:
  - the replace and regexp commands report a store failure as `storing prepend fixer failed: …`;
  - the CSV arity error for `replace` lines says `invalid prepend fixer format`;
  - the regexp command replies to a non-compiling pattern with the unformatted text ``could not compile regular expression `%v` ``.

## Model

| member | source | states |
|---|---|---|
| Fixers.Fix | pkg/fixer/fixer.go:31-75 | Prepend yields exactly the prefix followed by the link; a regexp fixer whose pattern does not compile yields "" for every link; a replace fixer whose old text does not occur returns the link unchanged |
| Fixers.ReplaceSameTextIsIdentity | pkg/fixer/fixer.go:31-34 | replacing a text by itself leaves every link unchanged |
| Fixers.ReplaceRewritesLeftmost | pkg/fixer/fixer.go:31-34 | with a non-empty old text that occurs, the result is the link up to the leftmost occurrence, the new text, then the fix of the rest after that occurrence (left to right, no overlap) |
| Fixers.ReplaceEmptyOldInterleaves | pkg/fixer/fixer.go:31-34 | with an empty old text the new text appears before every character and once at the end: one more copy than the link has characters, with the link's characters between them in order |
| Fixers.DescribeRevealsKind | pkg/fixer/fixer.go:36-71 | the `String()` text of every fixer names its kind (`replace '…`, `regex replace '…`, `prepend '…`), so the three formats never collide |
| Fixers.DescribePrependInjective | pkg/fixer/fixer.go:69-71 | two prepend fixers with the same `String()` have the same prefix |
| GoStrings.Index | pkg/fixer/util.go:28-32 | `strings.Index`: -1 exactly when there is no occurrence, otherwise the position of an occurrence with none before it |
| GoStrings.ReplaceAllLeftmost | pkg/fixer/fixer.go:31-34 | `strings.ReplaceAll` with a non-empty needle copies the text before the leftmost occurrence, writes the replacement, and resumes after the occurrence |
| GoStrings.ReplaceAllAbsent | pkg/fixer/fixer.go:31-34 | a needle that does not occur leaves the text unchanged |
| GoStrings.ReplaceAllNonOverlapping | pkg/fixer/fixer.go:31-34 | `ReplaceAll("aaa", "aa", new)` is `new + "a"` |
| GoStrings.ReplaceAllEmptyNeedle | pkg/fixer/fixer.go:31-34 | an empty needle puts the replacement in one more slot than `s` has characters, placed around the characters of `s`, which keep their order |
| GoStrings.Split | pkg/linkfixerbot/commands/register_csv_fixers.go:63-64 | `strings.Split` on one character: at least one part, no part holds the separator, and joining the parts gives back the input |
| GoStrings.SplitJoin | pkg/linkfixerbot/commands/register_csv_fixers.go:63-64 | splitting the join of separator-free parts gives back the parts |
| GoStrings.SplitTrailingSeparator | pkg/linkfixerbot/commands/register_csv_fixers.go:63 | a text that ends in the separator splits into at least two parts, the last of them empty |
| GoStrings.TrimSpace | pkg/linkfixerbot/commands/register_csv_fixers.go:67-82 | the result is a slice of the input with only white space around it, and it neither starts nor ends with white space |
| GoStrings.TrimSpaceIdempotent | pkg/linkfixerbot/commands/register_csv_fixers.go:67-82 | trimming twice is trimming once |
| GoStrings.Itoa | pkg/linkfixerbot/commands/register_csv_fixers.go:58 | the decimal text of a count is all digits, has no leading zero, and reads back as the count |
| UrlPipeline.ExtractDomain | pkg/fixer/util.go:9-26 | the result is made only of host characters, occurs in the input, and is "" exactly when the input has no host character |
| UrlPipeline.ExtractDomainOfShape | pkg/fixer/util.go:9-26 | for optional scheme + optional `www.` + host + rest, where the host is a non-empty host run not starting with `www.` and the rest is empty or starts with a non-host character (the `:` of a port included), the domain is the host. The one excluded shape is a bare `http` or `https` followed by `://`, which is itself a scheme |
| UrlPipeline.ExtractDomainIdempotent | pkg/fixer/util.go:9-26 | extraction is idempotent on a result that does not start with `www.` |
| UrlPipeline.ExtractDomainNotIdempotent | pkg/fixer/util.go:9-26 | `"https://www.www.x"` gives `"www.x"`, which gives `"x"` |
| UrlPipeline.ExtractDomainOfFullUrl | pkg/fixer/util.go:9-26 | `https://www.example.com/path?x=1` gives `example.com` |
| UrlPipeline.ExtractDomainOfPlainText | pkg/fixer/util.go:9-26 | `"not a url"` gives `"not"` |
| UrlPipeline.ExtractDomainOfHostWithPort | pkg/fixer/util.go:9-26 | `example.com:8080/x` gives `example.com`: the port is not part of the domain |
| UrlPipeline.ExtractDomainOfSchemeHost | pkg/fixer/util.go:9-26 | `https://twitter.com` gives `twitter.com`: the scheme is dropped |
| UrlPipeline.UrlSpansFrom | pkg/fixer/util.go:8-18 | the link matches found from a position start where the link pattern can start and end where the scanner stops; they appear left to right without overlap, and nothing before the first one can start a match |
| UrlPipeline.ExtractURLs | pkg/fixer/util.go:11-18 | one string per match, each the text between the match's bounds |
| UrlPipeline.FindURL | pkg/linkfixerbot/bot.go:101-104 | "" exactly when there is no match, otherwise the first match |
| UrlPipeline.ExtractedUrlsAreUrls | pkg/fixer/util.go:8-18 | every extracted link starts with `http://` or `https://`, has a host character right after the scheme, and occurs in the text |
| UrlPipeline.ExtractedUrlsAreMaximal | pkg/fixer/util.go:8 | the character right after each match, if any, cannot continue it |
| UrlPipeline.UrlEndAt | pkg/fixer/util.go:8 | a match holds at least two characters after `://` |
| UrlPipeline.NoHttpNoUrls | pkg/fixer/util.go:11-18 | a text without `http` has no links |
| UrlPipeline.ScannerMatchIsPatternMatch | pkg/fixer/util.go:8 | the scanner's match is a word of the link pattern, written as a grammar |
| UrlPipeline.PatternMatchBounded | pkg/fixer/util.go:8 | any word of the link pattern that starts at a position lies within the scanner's match from that position |
| UrlPipeline.FindURLIsLeftmostLongest | pkg/linkfixerbot/bot.go:101 | the first link is a word of the pattern; no word of the pattern starts earlier; none from the same start is longer |
| UrlPipeline.RemoveQueryParams | pkg/fixer/util.go:28-32 | the result is the prefix of the input before its first `?`: it holds no `?`, the next input character is `?`, and an input without `?` is returned whole |
| UrlPipeline.RemoveQueryParamsIdempotent | pkg/fixer/util.go:28-32 | cutting twice is cutting once |
| UrlPipeline.CutAfterPlainText | pkg/fixer/util.go:28-32 | a `?`-free prefix passes through the cut unchanged |
| UrlPipeline.SchemeDomainGroupAgrees | pkg/linkfixerbot/bot.go:17 | on a text that starts with a scheme and a host character, group 1 of the scheme-first domain pattern exists and equals `ExtractDomain` |
| UrlPipeline.FoundUrlIsSchemeHost | pkg/linkfixerbot/bot.go:101-109 | the first link, and the same link with its query cut, both start with a scheme followed by a host character, so the `[1]` index cannot panic |
| UrlPipeline.CutKeepsDomain | pkg/linkfixerbot/bot.go:107-109 | cutting the query never changes the domain of a link that starts with a scheme and a host character |
| RuleStore.Get | pkg/linkfixerbot/bot.go:110-118 | `Some` exactly when the key is present, and then the stored fixer |
| RuleStore.List | pkg/linkfixerbot/commands/list_fixers.go:23 | one entry per domain of the server and no other, each with its stored fixer |
| RuleStore.PutChangesOneKey | pkg/linkfixerbot/commands/register_fixers.go:49 | after Put the key holds the new fixer; every other key keeps its fixer; the table grows by one exactly when the key was new |
| RuleStore.DeleteChangesOneKey | pkg/linkfixerbot/commands/unregister_fixer.go:32 | after Delete the key is absent; every other key keeps its fixer; the table shrinks by one exactly when the key was present |
| RuleStore.WritesStayInNamespace | pkg/linkfixerbot/commands/register_fixers.go:49 | Put and Delete leave other servers' rules unchanged |
| RuleStore.PutOverwrites | pkg/linkfixerbot/commands/register_fixers.go:49 | a second Put to the same key replaces the first |
| RuleStore.DeleteUndoesPut | pkg/linkfixerbot/commands/unregister_fixer.go:32 | deleting a key that was just added restores the table |
| RuleStore.NamespacesAreIsolated | pkg/linkfixerbot/commands/list_fixers.go:23 | a write in one server never changes another server's list |
| CsvImport.ParseLine | pkg/linkfixerbot/commands/register_csv_fixers.go:64-86 | a line parses exactly when it has 3 comma fields with kind `prepend` or 4 with kind `replace`, and its trimmed second field has a domain. The entry is then the `ExtractDomain` of the trimmed second field, a non-empty host run, with `Prepend` of the trimmed third field or `Replace` of the trimmed third and fourth. A wrong field count gives the arity error with the whole line, an unknown kind gives `unknown fixer type: ` with the untrimmed first field, a field without a domain gives `invalid domain: ` with the untrimmed second field. A blank line fails as an unknown fixer type |
| CsvImport.ParseFixers | pkg/linkfixerbot/commands/register_csv_fixers.go:61-89 | succeeds exactly when every line parses; every key is non-empty; no regexp fixer is produced |
| CsvImport.ParseFixersLastWins | pkg/linkfixerbot/commands/register_csv_fixers.go:61-89 | on success the map is the last-wins map of the parsed lines, with at most one entry per line |
| CsvImport.LastWinsPicksLast | pkg/linkfixerbot/commands/register_csv_fixers.go:86 | for each domain, the map holds the fixer of its last line |
| CsvImport.ParseFixersFirstError | pkg/linkfixerbot/commands/register_csv_fixers.go:61-89 | on failure the error is the first failing line's error and no map is returned |
| CsvImport.TrailingNewlineRejected | pkg/linkfixerbot/commands/register_csv_fixers.go:63-79 | a CSV ending in a line break is rejected |
| CsvImport.EmptyAttachmentRejected | pkg/linkfixerbot/commands/register_csv_fixers.go:63-79 | an empty attachment is rejected as an unknown fixer type |
| CsvImport.PrependLineRoundTrip | pkg/linkfixerbot/commands/register_csv_fixers.go:68-72 | a `prepend,<domain>,<prefix>` line built from a bare domain and a plain prefix parses back to that domain and fixer |
| CsvImport.ReplaceLineRoundTrip | pkg/linkfixerbot/commands/register_csv_fixers.go:73-77 | a `replace,<domain>,<old>,<new>` line built from plain fields parses back to that domain and fixer |
| Commands.Register | pkg/linkfixerbot/commands/register_fixers.go:42-55 | on success the key holds the fixer, nothing else changes, and the reply embeds `String()` and the domain; on a store failure the table is unchanged and the error is wrapped |
| Commands.RunReplace | pkg/linkfixerbot/commands/register_fixers.go:42-55 | the replace fixer of the old and new options is stored under `ExtractDomain` of the domain option, with no emptiness checks, and nothing else changes. The reply is exactly ``Successfully registered replace fixer `<String() of the fixer>` for domain `<domain>` ``. A store failure changes nothing and gives the wrapped store error |
| Commands.RunRegexp | pkg/linkfixerbot/commands/register_fixers.go:88-106 | a pattern that does not compile stores nothing and replies with the fixed text. Otherwise the regexp fixer is stored under `ExtractDomain` of the domain option and nothing else changes, with the reply exactly ``Successfully registered fixer `<String() of the fixer>` for domain `<domain>` ``; a store failure changes nothing and gives the wrapped store error |
| Commands.RunPrepend | pkg/linkfixerbot/commands/register_fixers.go:133-145 | the prepend fixer of the prefix option is stored under `ExtractDomain` of the domain option and nothing else changes. The reply is exactly ``Successfully registered fixer `<String() of the fixer>` for domain `<domain>` ``. A store failure changes nothing and gives the wrapped store error |
| Commands.RunDelete | pkg/linkfixerbot/commands/unregister_fixer.go:29-38 | the raw option's key is removed and nothing else changes; the success text comes whether or not the key existed; a store failure changes nothing and wraps the error |
| Commands.DeleteDoesNotNormalise | pkg/linkfixerbot/commands/unregister_fixer.go:30-32 | deleting with `https://twitter.com` leaves the rule registered from that same text under `twitter.com` |
| Commands.RunList | pkg/linkfixerbot/commands/list_fixers.go:22-39 | the table is unchanged. A store failure is an error. An empty server gives `No fixers found!`. Otherwise the reply is the header followed by one line per domain, in map order, with no separator |
| Commands.ListShowsEveryRule | pkg/linkfixerbot/commands/list_fixers.go:32-36 | the list has exactly one line per rule of the server |
| Commands.ListOrderIrrelevant | pkg/linkfixerbot/commands/list_fixers.go:34-35 | any two map orders give the same lines up to a permutation |
| Commands.Resolve | pkg/linkfixerbot/commands/register_csv_fixers.go:37-48 | an attachment is usable exactly when it downloaded and parsed; otherwise the download or parse error is wrapped |
| Commands.RunAttachment | pkg/linkfixerbot/commands/register_csv_fixers.go:45-55 | an unparsed attachment stores nothing; a parsed one stores every rule, or stops at the first failing Put with its wrapped error |
| Commands.PutEachStores | pkg/linkfixerbot/commands/register_csv_fixers.go:50-55 | every rule whose Put succeeded is in the table |
| Commands.RefusedAttachmentStoresNothing | pkg/linkfixerbot/commands/register_csv_fixers.go:45-48 | an attachment that did not parse stores nothing and stops the loop |
| Commands.RunCsvStopsAtError | pkg/linkfixerbot/commands/register_csv_fixers.go:35-56 | once an attachment fails, later attachments are not processed |
| Commands.RunCsvContinues | pkg/linkfixerbot/commands/register_csv_fixers.go:35-56 | after a clean run of the first attachments, the rest run on the table they left, and the counts add up |
| Commands.CsvLoopCount | pkg/linkfixerbot/commands/register_csv_fixers.go:35-58 | a clean run counts exactly the rules of all attachments |
| Commands.RunCsv | pkg/linkfixerbot/commands/register_csv_fixers.go:32-59 | other servers are untouched; success means every attachment downloaded and parsed, and the reply counts all their rules |
| Commands.AttachmentTable | pkg/linkfixerbot/commands/register_csv_fixers.go:49-55 | an attachment whose Puts all succeed leaves each of its domains holding its rule and every other domain as it was |
| Commands.CsvLoopTable | pkg/linkfixerbot/commands/register_csv_fixers.go:36-56 | after a clean loop each domain holds the rule of the last attachment naming it, and a domain no attachment names is as it was |
| Commands.RunCsvStoresLastRules | pkg/linkfixerbot/commands/register_csv_fixers.go:32-59 | after a successful import each domain holds the rule parsed from the last attachment naming it, and every other domain of the server keeps its rule or its absence |
| Commands.CleanLoop | pkg/linkfixerbot/commands/register_csv_fixers.go:36-56 | with every attachment parsed and a store that answers every Put with success, the loop over the attachments ends without error |
| Commands.RunCsvSucceeds | pkg/linkfixerbot/commands/register_csv_fixers.go:32-59 | when every attachment downloads and parses and every Put succeeds, the reply is exactly `Successfully registered <n> fixers.` with n the rule count of all attachments: the converse of the success clause of `RunCsv` |
| Commands.RegisterKeepsRegexpsCompiling | pkg/linkfixerbot/commands/register_fixers.go:95-100 | no single-rule command stores a regexp fixer whose pattern does not compile |
| Commands.CsvKeepsRegexpsCompiling | pkg/linkfixerbot/commands/register_csv_fixers.go:61-89 | the bulk import never stores a regexp fixer |
| Commands.StoredRegexpFixes | pkg/fixer/fixer.go:52-59 | a stored regexp fixer whose pattern compiles always applies the engine, never the "" branch |
| Bot.HandleMessage | pkg/linkfixerbot/bot.go:95-125 | a self-authored message or one without a link gives no lookup and no reply. Otherwise the lookup key is the server plus `ExtractDomain` of the first link with its query cut. There is a reply exactly when the store answered and holds that key, and the reply is that fixer applied to the cut link |
| Bot.RuleForLinkReplies | pkg/linkfixerbot/bot.go:107-120 | when the store holds a rule for the cut link's domain, the reply is that rule's fix of the cut link |
| Bot.BareDomainRuleIsFound | pkg/linkfixerbot/bot.go:107-120 | a prepend rule registered for a host is found by a message linking to that host, with or without `www.`, and the reply is the prefix followed by the link without its query |
| Bot.ParseOptionsHasName | pkg/linkfixerbot/bot.go:86-93 | an option name is in the map exactly when some option has it |
| Bot.ParseOptionsLastValue | pkg/linkfixerbot/bot.go:86-93 | each name maps to the value of its last option |
| Bot.ParseOptionsLastWins | pkg/linkfixerbot/bot.go:86-93 | one entry per name, later duplicates overwriting earlier ones |
| Bot.CommandFor | pkg/linkfixerbot/bot.go:37-44 | exactly the six registered names have a command |
| Bot.HandleInteraction | pkg/linkfixerbot/bot.go:55-84 | a non-command interaction is ignored. A command's error becomes the fixed internal-error text, and its other replies pass through. The table is the command's table |
| Bot.InteractionStaysInGuild | pkg/linkfixerbot/bot.go:55-84 | no interaction changes another server's rules |
| Bot.InteractionKeepsRegexpsCompiling | pkg/linkfixerbot/bot.go:55-84 | if every stored regexp pattern compiles before an interaction, it does after |
| Bot.CommandReplyNotEmpty | pkg/linkfixerbot/bot.go:69-80 | every command interaction gets a non-empty reply |
| Bot.StoreFailureIsApology | pkg/linkfixerbot/bot.go:69-73 | when the store fails a replace, prepend, delete or list command, the table is unchanged and the reply is the internal-error text |
| LegacyFixers.Fix | pkg/fixer.go:28-64 | the older `Fix` has the same three promises as the current one |
| LegacyFixers.Upgrade | pkg/fixer.go:12-56 | each older fixer has a current counterpart of the same kind and fields, and back |
| LegacyFixers.SameBehaviour | pkg/fixer.go:28-64 | an older fixer and its counterpart fix every link alike and print alike |
| LegacyBot.HandleMessage | pkg/bot.go:46-73 | as the current handler, but the domain and the fix use the whole first link, query included |
| LegacyBot.BothBotsLookUpSameKey | pkg/bot.go:52-58 | both bots look up the same key for every message |
| LegacyBot.OnlyOlderBotKeepsQuery | pkg/bot.go:52-68 | with a prepend rule, the older reply is the prefix plus the whole link and the current one the prefix plus the cut link; they agree exactly when the link has no `?` |
| LegacyBot.OptionValueIsParsed | pkg/bot.go:82-91 | the option loop reads each name as `parseOptions` does, with "" when it is absent |
| LegacyBot.RegisterReplace | pkg/bot.go:75-132 | ignores other commands. An empty domain or old text gives the error reply and no Put. A store failure gives the could-not-store reply. Otherwise the rule is stored under the domain as typed and nothing else changes |
| LegacyBot.RegisterPrepend | pkg/bot.go:167-209 | ignores other commands. There is no validation: the rule is stored under the domain as typed, even "". A store failure gives the could-not-store reply |
| LegacyBot.OlderKeyIsNotNormalised | pkg/bot.go:177-183 | the older handler stores a rule for `https://twitter.com` under that text; the current command stores it under `twitter.com` |
| LegacyBot.ListFixers | pkg/bot.go:134-165 | the table is unchanged. A store error or an empty server gives `No currently registered fixers!`. Otherwise the reply is the header followed by one newline-terminated line per domain |
| LegacyBot.LegacyLinesAreCurrentLines | pkg/bot.go:148-150 | each older list line is the current list line followed by a line break |
| LegacyBot.AtMostOneHandlerAnswers | pkg/bot.go:75-170 | at most one of the three handlers answers an interaction, and a handler that does not answer leaves the table alone |

## Left out

- **The stores.** pkg/store.go and the store behind the current `fixer.Store` interface are not part of this model. The store is the map in `RuleStore`, and its failures are `Outcome` values. That store file has bbolt transactions, gob encoding and a mutex-guarded buffer. Its `decodeFixer` decodes from a buffer it has just reset (pkg/store.go:59-71), so it has no round trip worth stating.
- **Program wiring.** main.go and the constructors `NewLinkfixerBot` are wiring: flags, the database, signals and session setup. The older package does not line up with its own store interface (pkg/store.go:12-16 against pkg/bot.go:58). The model keeps that package's logic, with a server-scoped key.
- **Discord I/O.** `Run`, `registerCommands`/`createCommands`, `deleteCommands`, `InteractionRespond` and `ChannelMessageSendReply` are not modelled, nor are the `ApplicationCommandTemplate` data and pkg/linkfixerbot/commands/types.go. A decision's `reply` is what would be sent.
- **Attachment download.** The HTTP request and `io.ReadAll` (pkg/linkfixerbot/commands/register_csv_fixers.go:37-43) are replaced by a given `Download` value per attachment. The body is read whole.
- **Go's regular-expression engine.** Compiling a pattern and `ReplaceAllString`, including `$x` expansion, are the two functions of `Fixers.RegexEngine`. The link and domain patterns are fixed, so they are modelled as scanners, not through the engine.
- **Logging and concurrency.**
- **Unknown command names.** `interactionHandler` goes on to call `Run` on a nil command after an unknown name (pkg/linkfixerbot/bot.go:63-69), which panics. `Bot.HandleInteraction` requires a known name instead.
- **Option values.** Options are modelled as strings. A missing required option would make the `.(string)` assertion panic; the single-rule commands require the option instead.
- **Go map order.** The order of a Go map walk is a parameter. A command that walks a map requires a valid order. This includes the attachments of `register-csv-fixers`: discordgo hands them over as a map (pkg/linkfixerbot/commands/register_csv_fixers.go:33), so the attachment sequence the model takes is one walk order of that map, and "the last attachment naming a domain" is last in that order.
- **Runes.** A `char` stands for one rune.
  - `GoStrings.TrimSpace` trims the white-space runes that `unicode.IsSpace` lists.
  - An empty needle in `ReplaceAll` inserts between runes.
  - Byte-level behaviour on invalid UTF-8 is not modelled.
- **Older store type.** The older bot's table holds the current fixer values. `LegacyFixers.Upgrade` maps an older fixer to its current counterpart, and `LegacyFixers.SameBehaviour` shows that the two agree.
- LegacyBot.ListFixers: on a store error the handler goes on with whatever map `List` returned. The model assumes that map is empty, as a store that fails returns none.
- LegacyBot.RegisterReplace, LegacyBot.RegisterPrepend and LegacyBot.ListFixers: the handlers never look at the interaction type, so the model dispatches a non-command interaction on its name like a command. Each source handler starts by calling the discordgo method `ApplicationCommandData` (pkg/bot.go:76, 135, 168). That method is not part of this model, so what the source does with a non-command interaction is not modelled.
- **Failed replies.** The model ignores a failure to send a reply; the handlers only log it.

/**
 * The URL pipeline: finding URLs in message text, extracting the domain a
 * fixer is registered under, and cutting off the query string.
 *
 * The two regular expressions of the bot are written out as scanners that
 * find what Go's leftmost-first matcher finds:
 *
 *   URL    `https?://(?:www\.)?[-a-zA-Z0-9._]+/?[-a-zA-Z0-9()@:%_+.~#?&/=]+`
 *   Domain `(?:https?://)?(?:www\.)?([-a-zA-Z0-9._]+)/?`
 *
 * and, in the bot's own copy, the domain pattern with the scheme required.
 */
module UrlPipeline {
  import opened GoStrings
  import opened Results

  /** `[-a-zA-Z0-9._]`: the characters of a host name. */
  predicate IsHostChar(c: char) {
    || c == '-' || c == '.' || c == '_'
    || ('a' <= c <= 'z') || ('A' <= c <= 'Z') || ('0' <= c <= '9')
  }

  /** `[-a-zA-Z0-9()@:%_+.~#?&/=]`: the characters of the rest of a URL. */
  predicate IsTailChar(c: char) {
    || IsHostChar(c)
    || c == '(' || c == ')' || c == '@' || c == ':' || c == '%' || c == '+'
    || c == '~' || c == '#' || c == '?' || c == '&' || c == '/' || c == '='
  }

  predicate AllHost(w: string) {
    forall i :: 0 <= i < |w| ==> IsHostChar(w[i])
  }

  predicate AllTail(w: string) {
    forall i :: 0 <= i < |w| ==> IsTailChar(w[i])
  }

  /** The length of an `https?://` scheme starting at `i`, or 0 if there is none. */
  function SchemeAt(s: string, i: nat): (n: nat)
    ensures n == 0 || n == 7 || n == 8
    ensures n > 0 ==> i + n <= |s| && s[i..i + 4] == "http"
    ensures n == 8 <==> OccursAt(s, "https://", i)
    ensures n == 7 <==> OccursAt(s, "http://", i)
  {
    if OccursAt(s, "https://", i) then
      assert s[i..i + 7][4] == s[i + 4] == s[i..i + 8][4] == 's';
      assert s[i..i + 4] == s[i..i + 8][..4];
      8
    else if OccursAt(s, "http://", i) then
      assert s[i..i + 4] == s[i..i + 7][..4];
      7
    else
      0
  }

  /** End of the longest run of host characters starting at `i`. */
  function HostRunEnd(s: string, i: nat): (e: nat)
    requires i <= |s|
    ensures i <= e <= |s|
    ensures forall j :: i <= j < e ==> IsHostChar(s[j])
    ensures e < |s| ==> !IsHostChar(s[e])
    decreases |s| - i
  {
    if i < |s| && IsHostChar(s[i]) then HostRunEnd(s, i + 1) else i
  }

  /** End of the longest run of tail characters starting at `i`. */
  function TailRunEnd(s: string, i: nat): (e: nat)
    requires i <= |s|
    ensures i <= e <= |s|
    ensures forall j :: i <= j < e ==> IsTailChar(s[j])
    ensures e < |s| ==> !IsTailChar(s[e])
    decreases |s| - i
  {
    if i < |s| && IsTailChar(s[i]) then TailRunEnd(s, i + 1) else i
  }

  /** The first host character at or after `i`, or `|s|`. */
  function FirstHostChar(s: string, i: nat): (p: nat)
    requires i <= |s|
    ensures i <= p <= |s|
    ensures forall j :: i <= j < p ==> !IsHostChar(s[j])
    ensures p < |s| ==> IsHostChar(s[p])
    decreases |s| - i
  {
    if i == |s| || IsHostChar(s[i]) then i else FirstHostChar(s, i + 1)
  }

  /** `(?:https?://)?` at `p`: the scheme is taken only when a host character follows it. */
  function SkipScheme(s: string, p: nat): (q: nat)
    requires p <= |s|
    ensures q == p || (q == p + SchemeAt(s, p) && SchemeAt(s, p) > 0 && q < |s| && IsHostChar(s[q]))
  {
    var k := SchemeAt(s, p);
    if k > 0 && p + k < |s| && IsHostChar(s[p + k]) then p + k else p
  }

  /** `(?:www\.)?` at `q`: taken only when a host character follows it. */
  function SkipWww(s: string, q: nat): (g: nat)
    requires q <= |s|
    ensures g == q || (g == q + 4 && OccursAt(s, "www.", q) && g < |s| && IsHostChar(s[g]))
  {
    if OccursAt(s, "www.", q) && q + 4 < |s| && IsHostChar(s[q + 4]) then q + 4 else q
  }

  // ---------------------------------------------------------------------
  // ExtractDomain
  // ---------------------------------------------------------------------

  /**
   * The bounds of the domain group. The leftmost match starts at the first
   * host character (every match starts with one, and one suffices); there the
   * scheme and then `www.` are skipped when a host character follows, and the
   * group is the longest run of host characters.
   */
  function DomainSpan(url: string): (span: (nat, nat))
    ensures span.0 <= span.1 <= |url|
    ensures forall j :: span.0 <= j < span.1 ==> IsHostChar(url[j])
    ensures span.1 < |url| ==> !IsHostChar(url[span.1])
  {
    var p := FirstHostChar(url, 0);
    if p == |url| then (p, p)
    else
      var g := SkipWww(url, SkipScheme(url, p));
      (g, HostRunEnd(url, g))
  }

  /** `ExtractDomain`: group 1 of the domain pattern, or "" when it does not match. */
  function ExtractDomain(url: string): (d: string)
    ensures AllHost(d)
    ensures d == [] <==> (forall i :: 0 <= i < |url| ==> !IsHostChar(url[i]))
    ensures Contains(url, d)
  {
    var span := DomainSpan(url);
    var d := url[span.0..span.1];
    assert OccursAt(url, d, span.0);
    assert d == [] ==> forall i :: 0 <= i < |url| ==> !IsHostChar(url[i]) by {
      var p := FirstHostChar(url, 0);
      if p < |url| {
        var g := SkipWww(url, SkipScheme(url, p));
        assert IsHostChar(url[g]);
      }
    }
    d
  }

  /**
   * A domain written with or without a scheme and `www.`, and followed by a
   * path or nothing, is extracted exactly.
   */
  lemma ExtractDomainOfShape(scheme: string, www: string, host: string, rest: string)
    requires scheme == "" || scheme == "http://" || scheme == "https://"
    requires www == "" || www == "www."
    requires |host| > 0 && AllHost(host) && !HasPrefix(host, "www.")
    requires rest == "" || !IsHostChar(rest[0])
    requires !(scheme == "" && www == "" && (host == "http" || host == "https") && HasPrefix(rest, "://"))
    ensures ExtractDomain(scheme + www + host + rest) == host
  {
    var url := scheme + www + host + rest;
    var h := |scheme| + |www|;
    ShapeSchemeStep(scheme, www, host, rest);
    ShapeWwwStep(scheme, www, host, rest);
    ShapeHostStep(scheme + www, host, rest);
    assert url[h..h + |host|] == host by {
      assert url == (scheme + www) + host + rest;
    }
    DomainFromSteps(url, |scheme|, h, h + |host|);
  }

  /** After the skipped prefix, the host run ends exactly where the host text does. */
  lemma ShapeHostStep(prefix: string, host: string, rest: string)
    requires AllHost(host)
    requires rest == "" || !IsHostChar(rest[0])
    ensures var url := prefix + host + rest;
      HostRunEnd(url, |prefix|) == |prefix| + |host|
  {
    HostTextInUrl(prefix, host, rest);
    HostRunEndOfShape(prefix + host + rest, |prefix|, |host|);
  }

  /** The host text sits, whole, between the prefix and a non-host character or the end. */
  lemma HostTextInUrl(prefix: string, host: string, rest: string)
    requires AllHost(host)
    requires rest == "" || !IsHostChar(rest[0])
    ensures var url, h := prefix + host + rest, |prefix|;
      && (forall j :: h <= j < h + |host| ==> IsHostChar(url[j]))
      && (h + |host| == |url| || !IsHostChar(url[h + |host|]))
  {
    var url := prefix + host + rest;
    var h := |prefix|;
    forall j | h <= j < h + |host| ensures IsHostChar(url[j]) {
      assert url[j] == host[j - h];
    }
    if h + |host| < |url| {
      assert url[h + |host|] == rest[0];
    }
  }

  /** In a shaped URL, the scan starts at offset 0 and skips exactly the written scheme. */
  lemma ShapeSchemeStep(scheme: string, www: string, host: string, rest: string)
    requires scheme == "" || scheme == "http://" || scheme == "https://"
    requires www == "" || www == "www."
    requires |host| > 0 && AllHost(host)
    requires rest == "" || !IsHostChar(rest[0])
    requires !(scheme == "" && www == "" && (host == "http" || host == "https") && HasPrefix(rest, "://"))
    ensures var url := scheme + www + host + rest;
      0 < |url| && FirstHostChar(url, 0) == 0 && SkipScheme(url, 0) == |scheme|
  {
    var afterScheme := www + host + rest;
    var url := scheme + afterScheme;
    assert scheme + www + host + rest == url;
    assert IsHostChar(afterScheme[0]);
    if scheme != "" {
      SchemeSkipped(url, scheme, afterScheme);
    } else if www != "" {
      assert url[0] == 'w';
      assert SchemeAt(url, 0) == 0 by {
        assert url[0] != 'h';
      }
    } else {
      assert url == host + rest;
      NoSchemeBeforeHost(url, host, rest);
    }
    assert IsHostChar(url[0]);
  }

  /** In a shaped URL, the optional `www.` takes exactly the written `www.`. */
  lemma ShapeWwwStep(scheme: string, www: string, host: string, rest: string)
    requires www == "" || www == "www."
    requires |host| > 0 && AllHost(host) && !HasPrefix(host, "www.")
    requires rest == "" || !IsHostChar(rest[0])
    ensures var url := scheme + www + host + rest;
      SkipWww(url, |scheme|) == |scheme| + |www|
  {
    var afterWww := host + rest;
    var url := scheme + www + afterWww;
    assert scheme + www + host + rest == url;
    var q := |scheme|;
    if www != "" {
      assert url[q..] == "www." + afterWww;
      WwwSkipped(url, q, afterWww);
    } else {
      assert url[q..q + |host|] == host;
      if q + |host| < |url| {
        assert url[q + |host|] == afterWww[|host|] == rest[0];
      }
      NoWwwBeforeHost(url, q, host);
    }
  }

  /** The domain group, assembled from the outcome of each step of the scan. */
  lemma DomainFromSteps(url: string, q: nat, h: nat, e: nat)
    requires 0 < |url| && FirstHostChar(url, 0) == 0
    requires q <= |url| && SkipScheme(url, 0) == q
    requires h <= |url| && SkipWww(url, q) == h
    requires HostRunEnd(url, h) == e
    ensures ExtractDomain(url) == url[h..e]
  {
    assert DomainSpan(url) == (h, e);
  }

  lemma SchemeSkipped(url: string, scheme: string, afterScheme: string)
    requires scheme == "http://" || scheme == "https://"
    requires url == scheme + afterScheme && |afterScheme| > 0 && IsHostChar(afterScheme[0])
    ensures SkipScheme(url, 0) == |scheme| && IsHostChar(url[0])
  {
    assert url[0..|scheme|] == scheme;
    assert url[|scheme|] == afterScheme[0];
    if scheme == "http://" {
      assert url[4] == ':';
    }
  }

  lemma WwwSkipped(url: string, q: nat, afterWww: string)
    requires q <= |url| && url[q..] == "www." + afterWww
    requires |afterWww| > 0 && IsHostChar(afterWww[0])
    ensures SkipWww(url, q) == q + 4
  {
    assert url[q..q + 4] == url[q..][..4];
    assert url[q + 4] == url[q..][4];
  }

  /**
   * Host text followed by a non-host character opens with a scheme only when
   * the host text is `http` or `https` itself and `://` follows it: the `:`
   * of the scheme must come right after the host text.
   */
  lemma NoSchemeBeforeHost(url: string, host: string, rest: string)
    requires url == host + rest && |host| > 0 && AllHost(host)
    requires rest == "" || !IsHostChar(rest[0])
    requires !((host == "http" || host == "https") && HasPrefix(rest, "://"))
    ensures SchemeAt(url, 0) == 0
  {
    var n := |host|;
    if SchemeAt(url, 0) == 7 {
      SchemeHostSplit(url, host, rest, "http://");
    } else if SchemeAt(url, 0) == 8 {
      SchemeHostSplit(url, host, rest, "https://");
    }
  }

  /** A scheme at the start of host text followed by a non-host character splits at its `:`. */
  lemma SchemeHostSplit(url: string, host: string, rest: string, scheme: string)
    requires scheme == "http://" || scheme == "https://"
    requires url == host + rest && |host| > 0 && AllHost(host)
    requires rest == "" || !IsHostChar(rest[0])
    requires OccursAt(url, scheme, 0)
    ensures host == scheme[..|scheme| - 3] && HasPrefix(rest, "://")
  {
    var n := |host|;
    var c := |scheme| - 3;
    assert url[..|scheme|] == scheme;
    assert forall j :: 0 <= j < c ==> url[j] == scheme[j];
    assert url[c] == ':' && !IsHostChar(url[c]);
    assert forall j :: 0 <= j < n ==> url[j] == host[j];
    assert forall j :: 0 <= j < c ==> IsHostChar(url[j]);
    assert rest != [] ==> url[n] == rest[0];
    assert n == c;
    assert host == url[..c];
    assert rest == url[c..];
    assert rest[..3] == url[c..|scheme|];
  }

  /**
   * Host text that does not start with `www.` and is followed by a non-host
   * character gives the optional `www.` nothing to take.
   */
  lemma NoWwwBeforeHost(url: string, q: nat, host: string)
    requires q + |host| <= |url| && url[q..q + |host|] == host
    requires |host| > 0 && AllHost(host) && !HasPrefix(host, "www.")
    requires q + |host| == |url| || !IsHostChar(url[q + |host|])
    ensures SkipWww(url, q) == q
  {
    if |host| >= 4 {
      assert url[q..q + 4] == host[..4];
    } else if q + 4 <= |url| {
      assert url[q..q + 4][|host|] == url[q + |host|];
    }
  }

  lemma HostRunEndOfShape(url: string, h: nat, n: nat)
    requires h + n <= |url|
    requires forall j :: h <= j < h + n ==> IsHostChar(url[j])
    requires h + n == |url| || !IsHostChar(url[h + n])
    ensures HostRunEnd(url, h) == h + n
    decreases n
  {
    if n > 0 {
      HostRunEndOfShape(url, h + 1, n - 1);
    }
  }

  /**
   * A domain that does not itself start with `www.` extracts to itself, so
   * extraction is idempotent on such results.
   */
  lemma ExtractDomainIdempotent(url: string)
    requires !HasPrefix(ExtractDomain(url), "www.")
    ensures ExtractDomain(ExtractDomain(url)) == ExtractDomain(url)
  {
    var d := ExtractDomain(url);
    if |d| > 0 {
      ExtractDomainOfShape("", "", d, "");
      assert "" + "" + d + "" == d;
    }
  }

  /** ... and not idempotent in general: a doubled `www.` loses one layer per call. */
  lemma ExtractDomainNotIdempotent()
    ensures ExtractDomain("https://www.www.x") == "www.x"
    ensures ExtractDomain("www.x") == "x"
  {
    var url := "https://www.www.x";
    assert FirstHostChar(url, 0) == 0;
    assert url[0..8] == "https://";
    assert SkipScheme(url, 0) == 8;
    assert url[8..12] == "www.";
    assert SkipWww(url, 8) == 12;
    HostRunEndOfShape(url, 12, 5);
    assert url[12..17] == "www.x";
    ExtractDomainOfShape("", "www.", "x", "");
    assert "" + "www." + "x" + "" == "www.x";
  }

  /** A full URL loses its scheme, `www.`, path and query. */
  lemma ExtractDomainOfFullUrl()
    ensures ExtractDomain("https://" + "www." + "example.com" + "/path?x=1") == "example.com"
  {
    var host, rest := "example.com", "/path?x=1";
    assert !HasPrefix(host, "www.") by {
      assert host[..4] == "exam";
    }
    assert AllHost(host) by {
      forall i | 0 <= i < |host| ensures IsHostChar(host[i]) {
      }
    }
    ExtractDomainOfShape("https://", "www.", host, rest);
  }

  /** Text that is not a URL still yields its first run of host characters. */
  lemma ExtractDomainOfPlainText()
    ensures ExtractDomain("not a url") == "not"
  {
    var rest := " a url";
    assert rest[0] == ' ';
    ExtractDomainOfShape("", "", "not", rest);
    assert "" + "" + "not" + rest == "not a url";
  }

  /** A scheme and a host with nothing after it give the host. */
  lemma ExtractDomainOfSchemeHost()
    ensures ExtractDomain("https://" + "twitter.com") == "twitter.com"
  {
    var host := "twitter.com";
    assert !HasPrefix(host, "www.") by {
      assert host[..4] == "twit";
    }
    assert AllHost(host) by {
      forall i | 0 <= i < |host| ensures IsHostChar(host[i]) {
      }
    }
    ExtractDomainOfShape("https://", "", host, "");
    assert "https://" + "" + host + "" == "https://" + host;
  }

  /** A bare host with a port keeps the host only: the `:` ends the host run. */
  lemma ExtractDomainOfHostWithPort()
    ensures ExtractDomain("example.com" + ":8080/x") == "example.com"
  {
    var host, rest := "example.com", ":8080/x";
    assert !HasPrefix(host, "www.") by {
      assert host[..4] == "exam";
    }
    assert AllHost(host) by {
      forall i | 0 <= i < |host| ensures IsHostChar(host[i]) {
      }
    }
    assert rest[0] == ':' && !IsHostChar(rest[0]);
    assert |host| == 11 && host != "http" && host != "https";
    ExtractDomainOfShape("", "", host, rest);
    assert "" + "" + host + rest == "example.com" + ":8080/x";
  }

  // ---------------------------------------------------------------------
  // The bot's domain pattern, with the scheme required
  // ---------------------------------------------------------------------

  /** A match of `https?://(?:www\.)?([-a-zA-Z0-9._]+)` can start at `i`. */
  predicate SchemeHostAt(s: string, i: nat) {
    var k := SchemeAt(s, i);
    k > 0 && i + k < |s| && IsHostChar(s[i + k])
  }

  /** The leftmost offset at or after `i` where the scheme-first domain pattern matches. */
  function FirstSchemeHost(s: string, i: nat): (m: Option<nat>)
    requires i <= |s|
    ensures m.Some? ==> i <= m.value < |s| && SchemeHostAt(s, m.value)
    ensures m.Some? ==> forall j :: i <= j < m.value ==> !SchemeHostAt(s, j)
    ensures m.None? ==> forall j :: i <= j <= |s| ==> !SchemeHostAt(s, j)
    decreases |s| - i
  {
    if i == |s| then None
    else if SchemeHostAt(s, i) then Some(i)
    else FirstSchemeHost(s, i + 1)
  }

  /**
   * `DomainRegex.FindStringSubmatch(s)` in the bot: `None` where Go returns a
   * nil slice (and indexing it with `[1]` panics), otherwise group 1.
   */
  function SchemeDomainGroup(s: string): (g: Option<string>)
    ensures g.Some? ==> |g.value| > 0 && AllHost(g.value)
  {
    match FirstSchemeHost(s, 0)
    case None => None
    case Some(i) =>
      var g := SkipWww(s, i + SchemeAt(s, i));
      Some(s[g..HostRunEnd(s, g)])
  }

  /**
   * On text that starts with a scheme followed by a host character, the
   * scheme-first pattern matches, and its group is what `ExtractDomain`
   * returns.
   */
  lemma SchemeDomainGroupAgrees(c: string)
    requires SchemeHostAt(c, 0)
    ensures SchemeDomainGroup(c) == Some(ExtractDomain(c))
  {
    assert IsHostChar(c[0]) by {
      assert c[0..4] == "http";
      assert c[0] == c[0..4][0];
    }
    assert FirstHostChar(c, 0) == 0;
    assert FirstSchemeHost(c, 0) == Some(0);
  }

  // ---------------------------------------------------------------------
  // ExtractURLs
  // ---------------------------------------------------------------------

  /**
   * A URL match can start at `i`: a scheme, then a host character, then a
   * tail character (the `+` of the host part and of the tail part).
   */
  predicate UrlStartsAt(s: string, i: nat) {
    var k := SchemeAt(s, i);
    k > 0 && i + k + 1 < |s| && IsHostChar(s[i + k]) && IsTailChar(s[i + k + 1])
  }

  /**
   * Where the match starting at `i` ends: every character after the scheme
   * of a match is a tail character, and greedy repetition takes them all.
   */
  function UrlEndAt(s: string, i: nat): (e: nat)
    requires UrlStartsAt(s, i)
    ensures i + SchemeAt(s, i) + 2 <= e <= |s|
  {
    TailRunEnd(s, i + SchemeAt(s, i))
  }

  /** The leftmost offset at or after `from` where a URL match starts. */
  function NextUrlStart(s: string, from: nat): (m: Option<nat>)
    ensures m.Some? ==> from <= m.value < |s| && UrlStartsAt(s, m.value)
    ensures m.Some? ==> forall j :: from <= j < m.value ==> !UrlStartsAt(s, j)
    ensures m.None? ==> forall j :: from <= j ==> !UrlStartsAt(s, j)
    decreases |s| - from
  {
    if from >= |s| then None
    else if UrlStartsAt(s, from) then Some(from)
    else NextUrlStart(s, from + 1)
  }

  /**
   * `FindAllString`: the spans of successive matches, each search resuming
   * where the previous match ended.
   */
  function UrlSpansFrom(s: string, from: nat): (spans: seq<(nat, nat)>)
    ensures forall k :: 0 <= k < |spans| ==>
      from <= spans[k].0 && UrlStartsAt(s, spans[k].0) && spans[k].1 == UrlEndAt(s, spans[k].0)
    ensures forall k :: 0 <= k < |spans| - 1 ==> spans[k].1 <= spans[k + 1].0
    ensures |spans| > 0 ==> forall j :: from <= j < spans[0].0 ==> !UrlStartsAt(s, j)
    ensures |spans| == 0 ==> forall j :: from <= j ==> !UrlStartsAt(s, j)
    decreases |s| - from
  {
    match NextUrlStart(s, from)
    case None => []
    case Some(i) =>
      var e := UrlEndAt(s, i);
      [(i, e)] + UrlSpansFrom(s, e)
  }

  /** `ExtractURLs(text)`: the text of every match, left to right. */
  function ExtractURLs(text: string): (urls: seq<string>)
    ensures var spans := UrlSpansFrom(text, 0);
      && |urls| == |spans|
      && forall k :: 0 <= k < |urls| ==> urls[k] == text[spans[k].0..spans[k].1]
  {
    var spans := UrlSpansFrom(text, 0);
    seq(|spans|, k requires 0 <= k < |spans| => text[spans[k].0..spans[k].1])
  }

  /** `URLRegex.FindString(text)`: the first match, or "" when there is none. */
  function FindURL(text: string): (u: string)
    ensures u == "" <==> ExtractURLs(text) == []
    ensures u != "" ==> u == ExtractURLs(text)[0]
  {
    match NextUrlStart(text, 0)
    case None => ""
    case Some(i) => text[i..UrlEndAt(text, i)]
  }

  /** Every element of `ExtractURLs` starts with a scheme followed by a host character. */
  lemma ExtractedUrlsAreUrls(text: string)
    ensures forall u :: u in ExtractURLs(text) ==>
      (HasPrefix(u, "http://") || HasPrefix(u, "https://")) && SchemeHostAt(u, 0) && Contains(text, u)
  {
    var urls := ExtractURLs(text);
    forall u | u in urls
      ensures (HasPrefix(u, "http://") || HasPrefix(u, "https://")) && SchemeHostAt(u, 0) && Contains(text, u)
    {
      var k :| 0 <= k < |urls| && urls[k] == u;
      ExtractedUrlAt(text, k);
    }
  }

  /** The `k`-th element of `ExtractURLs` is a match read off the text. */
  lemma ExtractedUrlAt(text: string, k: nat)
    requires k < |ExtractURLs(text)|
    ensures var u := ExtractURLs(text)[k];
      (HasPrefix(u, "http://") || HasPrefix(u, "https://")) && SchemeHostAt(u, 0) && Contains(text, u)
  {
    var spans := UrlSpansFrom(text, 0);
    var u := ExtractURLs(text)[k];
    var (i, e) := spans[k];
    assert OccursAt(text, u, i);
    UrlPrefixIsSchemeHost(text, i);
  }

  /** A match, read on its own, starts with its scheme and a host character. */
  lemma UrlPrefixIsSchemeHost(s: string, i: nat)
    requires UrlStartsAt(s, i)
    ensures var u := s[i..UrlEndAt(s, i)];
      (HasPrefix(u, "http://") || HasPrefix(u, "https://")) && SchemeHostAt(u, 0)
      && SchemeAt(u, 0) == SchemeAt(s, i) && IsTailChar(u[SchemeAt(u, 0) + 1])
  {
    var e := UrlEndAt(s, i);
    var u := s[i..e];
    var k := SchemeAt(s, i);
    assert i + k + 2 <= e && |u| == e - i;
    assert forall j :: 0 <= j < k + 2 ==> u[j] == s[i + j];
    assert u[..k] == s[i..i + k];
    assert u[0..k] == s[i..i + k];
    if k == 8 {
      assert !OccursAt(u, "http://", 0) by {
        assert u[4] == 's';
      }
    } else {
      assert !OccursAt(u, "https://", 0) by {
        assert u[4] == ':';
      }
    }
    assert u[k] == s[i + k];
  }

  /** Each match is maximal: the character after it, if any, cannot extend a URL. */
  lemma ExtractedUrlsAreMaximal(text: string)
    ensures var spans := UrlSpansFrom(text, 0);
      forall k :: 0 <= k < |spans| ==> spans[k].1 == |text| || !IsTailChar(text[spans[k].1])
  {
  }

  /** Text that never says "http" holds no URL. */
  lemma NoHttpNoUrls(text: string)
    requires !Contains(text, "http")
    ensures ExtractURLs(text) == []
    ensures FindURL(text) == ""
  {
    forall j | 0 <= j
      ensures !UrlStartsAt(text, j)
    {
      if UrlStartsAt(text, j) {
        assert OccursAt(text, "http", j);
      }
    }
  }

  // ---------------------------------------------------------------------
  // The URL pattern as a language, and the scanner against it
  // ---------------------------------------------------------------------

  /** `/?[tail]+`. */
  predicate TailPart(y: string) {
    || (|y| >= 1 && AllTail(y))
    || (|y| >= 2 && y[0] == '/' && AllTail(y[1..]))
  }

  /** `[host]+/?[tail]+`. */
  ghost predicate HostThenTail(x: string) {
    exists n :: 1 <= n <= |x| && AllHost(x[..n]) && TailPart(x[n..])
  }

  /** `(?:www\.)?[host]+/?[tail]+`. */
  ghost predicate AfterScheme(x: string) {
    || HostThenTail(x)
    || (HasPrefix(x, "www.") && HostThenTail(x[4..]))
  }

  /** `w` as a whole is matched by the URL pattern. */
  ghost predicate MatchesUrlPattern(w: string) {
    || (HasPrefix(w, "https://") && AfterScheme(w[8..]))
    || (HasPrefix(w, "http://") && AfterScheme(w[7..]))
  }

  lemma HostThenTailShape(x: string)
    requires HostThenTail(x)
    ensures |x| >= 2 && IsHostChar(x[0]) && IsTailChar(x[1]) && AllTail(x)
  {
    var n :| 1 <= n <= |x| && AllHost(x[..n]) && TailPart(x[n..]);
    assert x[..n][0] == x[0];
    forall j | 0 <= j < |x|
      ensures IsTailChar(x[j])
    {
      if j < n {
        assert x[..n][j] == x[j];
      } else {
        assert x[n..][j - n] == x[j];
      }
    }
  }

  /** `www.` is made of host characters, so the optional group adds no new matches. */
  lemma WwwIsHostText(x: string)
    requires HasPrefix(x, "www.") && HostThenTail(x[4..])
    ensures HostThenTail(x)
  {
    var n :| 1 <= n <= |x[4..]| && AllHost(x[4..][..n]) && TailPart(x[4..][n..]);
    assert x[4 + n..] == x[4..][n..];
    assert AllHost(x[..4 + n]) by {
      forall j | 0 <= j < 4 + n
        ensures IsHostChar(x[j])
      {
        if j < 4 {
          assert x[j] == x[..4][j];
        } else {
          assert x[j] == x[4..][..n][j - 4];
        }
      }
    }
  }

  /** Everything after the scheme of a pattern match is tail text, opened by a host character. */
  lemma AfterSchemeShape(x: string)
    requires AfterScheme(x)
    ensures |x| >= 2 && IsHostChar(x[0]) && IsTailChar(x[1]) && AllTail(x)
  {
    if HasPrefix(x, "www.") && HostThenTail(x[4..]) {
      WwwIsHostText(x);
    }
    HostThenTailShape(x);
  }

  /** Whatever the pattern matches from `i` starts a scanner match and ends within it. */
  lemma PatternMatchBounded(s: string, i: nat, m: nat)
    requires i <= m <= |s| && MatchesUrlPattern(s[i..m])
    ensures UrlStartsAt(s, i) && m <= UrlEndAt(s, i)
  {
    var w := s[i..m];
    var k := if HasPrefix(w, "https://") && AfterScheme(w[8..]) then 8 else 7;
    AfterSchemeShape(w[k..]);
    assert s[i..i + k] == w[..k];
    assert SchemeAt(s, i) == k by {
      if k == 7 {
        assert !OccursAt(s, "https://", i) by {
          assert s[i + 4] == w[..7][4];
        }
      }
    }
    assert s[i + k] == w[k..][0] && s[i + k + 1] == w[k..][1];
    forall j | i + k <= j < m
      ensures IsTailChar(s[j])
    {
      assert s[j] == w[k..][j - i - k];
    }
    TailRunEndReaches(s, i + k, m);
  }

  lemma TailRunEndReaches(s: string, a: nat, m: nat)
    requires a <= m <= |s|
    requires forall j :: a <= j < m ==> IsTailChar(s[j])
    ensures m <= TailRunEnd(s, a)
    decreases m - a
  {
    if a < m {
      TailRunEndReaches(s, a + 1, m);
    }
  }

  /** The scanner's match is a pattern match (host part of length one). */
  lemma ScannerMatchIsPatternMatch(s: string, i: nat)
    requires UrlStartsAt(s, i)
    ensures MatchesUrlPattern(s[i..UrlEndAt(s, i)])
  {
    var e := UrlEndAt(s, i);
    var w := s[i..e];
    var k := SchemeAt(s, i);
    UrlPrefixIsSchemeHost(s, i);
    var x := w[k..];
    assert x[..1] == [s[i + k]];
    assert AllTail(x[1..]) by {
      forall j | 0 <= j < |x| - 1
        ensures IsTailChar(x[1..][j])
      {
        assert x[1..][j] == s[i + k + 1 + j];
      }
    }
    assert HostThenTail(x) by {
      assert 1 <= 1 <= |x| && AllHost(x[..1]) && TailPart(x[1..]);
    }
    assert AfterScheme(x);
    if k == 8 {
      assert HasPrefix(w, "https://");
    } else {
      assert HasPrefix(w, "http://");
    }
  }

  /**
   * The first URL the scanner finds is the leftmost and longest text the URL
   * pattern matches: no text starting earlier matches it, and no longer text
   * from the same start does.
   */
  lemma FindURLIsLeftmostLongest(s: string)
    requires NextUrlStart(s, 0).Some?
    ensures var i := NextUrlStart(s, 0).value;
      && MatchesUrlPattern(s[i..UrlEndAt(s, i)])
      && FindURL(s) == s[i..UrlEndAt(s, i)]
      && (forall j, m :: 0 <= j < i && j <= m <= |s| ==> !MatchesUrlPattern(s[j..m]))
      && (forall m :: UrlEndAt(s, i) < m <= |s| ==> !MatchesUrlPattern(s[i..m]))
  {
    var i := NextUrlStart(s, 0).value;
    ScannerMatchIsPatternMatch(s, i);
    forall j, m | 0 <= j < i && j <= m <= |s|
      ensures !MatchesUrlPattern(s[j..m])
    {
      if MatchesUrlPattern(s[j..m]) {
        PatternMatchBounded(s, j, m);
      }
    }
    forall m | UrlEndAt(s, i) < m <= |s|
      ensures !MatchesUrlPattern(s[i..m])
    {
      if MatchesUrlPattern(s[i..m]) {
        PatternMatchBounded(s, i, m);
      }
    }
  }

  // ---------------------------------------------------------------------
  // RemoveQueryParams
  // ---------------------------------------------------------------------

  /** `strings.Cut(url, "?")`'s first result: everything before the first `?`. */
  function RemoveQueryParams(url: string): (r: string)
    ensures |r| <= |url| && url[..|r|] == r
    ensures '?' !in r
    ensures |r| < |url| ==> url[|r|] == '?'
    ensures '?' !in url ==> r == url
  {
    var i := Index(url, "?");
    if i < 0 then
      assert '?' !in url by {
        forall j | 0 <= j < |url|
          ensures url[j] != '?'
        {
          assert url[j..j + 1] == [url[j]];
          assert url[j] == '?' ==> OccursAt(url, "?", j);
        }
      }
      url
    else
      assert '?' !in url[..i] by {
        forall j | 0 <= j < i
          ensures url[..i][j] != '?'
        {
          assert !OccursAt(url, "?", j);
          assert url[j..j + 1] == [url[j]];
        }
      }
      assert url[i..i + 1] == [url[i]];
      url[..i]
  }

  /** Cutting the query twice is cutting it once. */
  lemma RemoveQueryParamsIdempotent(url: string)
    ensures RemoveQueryParams(RemoveQueryParams(url)) == RemoveQueryParams(url)
  {
  }

  /** Text with no `?` survives the cut whole, and the cut goes on into what follows it. */
  lemma CutAfterPlainText(a: string, b: string)
    requires '?' !in a
    ensures RemoveQueryParams(a + b) == a + RemoveQueryParams(b)
  {
    var url := a + b;
    var r := RemoveQueryParams(url);
    var rb := RemoveQueryParams(b);
    assert |r| >= |a|;
    var mid := r[|a|..];
    assert b[..|mid|] == mid by {
      forall j | 0 <= j < |mid| ensures b[j] == mid[j] {
        assert url[|a| + j] == b[j];
      }
    }
    assert forall j :: 0 <= j < |mid| ==> b[j] != '?';
    assert forall j :: 0 <= j < |rb| ==> b[j] != '?' by {
      forall j | 0 <= j < |rb| ensures b[j] != '?' {
        assert b[j] == rb[j];
      }
    }
    assert |mid| < |b| ==> b[|mid|] == '?' by {
      if |mid| < |b| {
        assert b[|mid|] == url[|r|];
      }
    }
    assert |mid| == |rb|;
    assert r == a + mid;
  }

  // ---------------------------------------------------------------------
  // The domain of a prefix
  // ---------------------------------------------------------------------

  /** A literal that fits inside the prefix occurs there exactly when it occurs in the whole. */
  lemma OccursInPrefix(u: string, n: nat, x: string, i: nat)
    requires n <= |u| && i + |x| <= n
    ensures OccursAt(u[..n], x, i) <==> OccursAt(u, x, i)
  {
    assert u[..n][i..i + |x|] == u[i..i + |x|];
  }

  lemma FirstHostCharOfPrefix(u: string, n: nat)
    requires FirstHostChar(u, 0) < n <= |u|
    ensures FirstHostChar(u[..n], 0) == FirstHostChar(u, 0)
  {
    var p := FirstHostChar(u, 0);
    assert u[..n][p] == u[p];
    assert forall j :: 0 <= j < p ==> u[..n][j] == u[j];
  }

  /** The scheme is skipped in a prefix as in the whole, if the prefix reaches past it. */
  lemma SkipSchemeOfPrefix(u: string, n: nat, p: nat)
    requires p <= n <= |u|
    requires SkipScheme(u, p) > p ==> SkipScheme(u, p) < n
    ensures SkipScheme(u[..n], p) == SkipScheme(u, p)
  {
    var c := u[..n];
    if p + 8 <= n {
      OccursInPrefix(u, n, "https://", p);
    }
    if p + 7 <= n {
      OccursInPrefix(u, n, "http://", p);
    }
    var k := SchemeAt(c, p);
    if k > 0 && p + k < |c| {
      assert c[p + k] == u[p + k];
    }
    if SkipScheme(u, p) > p {
      var q := SkipScheme(u, p);
      assert c[q] == u[q];
    }
  }

  /** `www.` is skipped in a prefix as in the whole, if the prefix reaches past it. */
  lemma SkipWwwOfPrefix(u: string, n: nat, q: nat)
    requires q <= n <= |u|
    requires SkipWww(u, q) > q ==> q + 4 < n
    ensures SkipWww(u[..n], q) == SkipWww(u, q)
  {
    var c := u[..n];
    if q + 4 <= n {
      OccursInPrefix(u, n, "www.", q);
    }
    if q + 4 < n {
      assert c[q + 4] == u[q + 4];
    }
  }

  lemma HostRunEndOfPrefix(u: string, n: nat, g: nat)
    requires g <= |u| && HostRunEnd(u, g) <= n <= |u|
    ensures HostRunEnd(u[..n], g) == HostRunEnd(u, g)
  {
    var c := u[..n];
    var e := HostRunEnd(u, g);
    assert forall j :: g <= j < e ==> c[j] == u[j];
    if e < n {
      assert c[e] == u[e];
    }
    HostRunEndOfShape(c, g, e - g);
  }

  /** Cutting text anywhere after its domain group does not change the domain. */
  lemma ExtractDomainOfPrefix(u: string, n: nat)
    requires DomainSpan(u).1 <= n <= |u|
    ensures DomainSpan(u[..n]) == DomainSpan(u)
    ensures ExtractDomain(u[..n]) == ExtractDomain(u)
  {
    var c := u[..n];
    var p := FirstHostChar(u, 0);
    if p < |u| {
      var q := SkipScheme(u, p);
      var g := SkipWww(u, q);
      var e := HostRunEnd(u, g);
      assert DomainSpan(u) == (g, e);
      assert p <= q <= g < e <= n;
      FirstHostCharOfPrefix(u, n);
      SkipSchemeOfPrefix(u, n, p);
      SkipWwwOfPrefix(u, n, q);
      HostRunEndOfPrefix(u, n, g);
      assert DomainSpan(c) == (g, e);
      assert c[g..e] == u[g..e];
    } else {
      assert c == u;
    }
  }

  /** Before the domain group of a link that opens with a scheme there is no `?`. */
  lemma NoMarkBeforeDomain(u: string)
    requires SchemeHostAt(u, 0)
    ensures forall j :: 0 <= j < DomainSpan(u).1 ==> u[j] != '?'
  {
    assert IsHostChar(u[0]) by {
      assert u[0..4] == "http";
      assert u[0] == u[0..4][0];
    }
    var k := SchemeAt(u, 0);
    var g := SkipWww(u, k);
    assert forall j :: 0 <= j < k ==> u[j] == u[0..k][j];
    if g > k {
      assert forall j :: k <= j < g ==> u[j] == u[k..k + 4][j - k];
    }
  }

  /** For a link that opens with a scheme, cutting off the query keeps the domain. */
  lemma CutKeepsDomain(u: string)
    requires SchemeHostAt(u, 0)
    ensures ExtractDomain(RemoveQueryParams(u)) == ExtractDomain(u)
  {
    NoMarkBeforeDomain(u);
    var r := RemoveQueryParams(u);
    assert |r| >= DomainSpan(u).1;
    assert r == u[..|r|];
    ExtractDomainOfPrefix(u, |r|);
  }

  /** Cutting the query of a URL match keeps its scheme and first host character. */
  lemma CutUrlKeepsSchemeHost(s: string, i: nat)
    requires UrlStartsAt(s, i)
    ensures SchemeHostAt(RemoveQueryParams(s[i..UrlEndAt(s, i)]), 0)
  {
    var u := s[i..UrlEndAt(s, i)];
    UrlPrefixIsSchemeHost(s, i);
    var k := SchemeAt(u, 0);
    var c := RemoveQueryParams(u);
    assert forall j :: 0 <= j <= k ==> u[j] != '?' by {
      forall j | 0 <= j <= k
        ensures u[j] != '?'
      {
        if j < k {
          assert u[j] == u[..k][j];
        }
      }
    }
    assert |c| > k;
    assert c[..k] == u[..k];
    assert c[0..k] == u[0..k];
    if k == 8 {
      assert OccursAt(c, "https://", 0);
    } else {
      assert OccursAt(c, "http://", 0);
      assert !OccursAt(c, "https://", 0) by {
        assert c[4] == u[4];
      }
    }
    assert c[k] == u[k];
  }

  /**
   * The URL the bot finds starts with a scheme and a host character, before
   * and after the query string is cut off, so the scheme-first domain pattern
   * matches it: the `[1]` index into its submatches never fails.
   */
  lemma FoundUrlIsSchemeHost(text: string)
    requires FindURL(text) != ""
    ensures SchemeHostAt(FindURL(text), 0)
    ensures SchemeHostAt(RemoveQueryParams(FindURL(text)), 0)
  {
    var i := NextUrlStart(text, 0).value;
    UrlPrefixIsSchemeHost(text, i);
    CutUrlKeepsSchemeHost(text, i);
  }
}

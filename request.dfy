/**
 * The request layer's own logic (`Terminus\Request`): the strings it
 * formats, the cookies it collects for the jar, and the parameters `send`
 * assembles before it hands them to the HTTP transport.
 *
 * Configuration constants, `phpversion()` and the session store are inputs:
 * the session is `None` when nothing is stored under "session".
 */
module Request {
  import opened Wrappers
  import opened PhpArrays
  import PhpStrings

  const SessionCookieName := "X-Pantheon-Session"

  // ---------------------------------------------------------------------------
  // Searching strings (used to read formatted strings back)
  // ---------------------------------------------------------------------------

  /** Position of the first `c` in `s`, or `|s|` when there is none. */
  function IndexOf(s: string, c: char): (r: nat)
    ensures r <= |s|
    ensures r < |s| ==> s[r] == c
    ensures forall i :: 0 <= i < r ==> s[i] != c
  {
    if s == [] then 0 else if s[0] == c then 0 else 1 + IndexOf(s[1..], c)
  }

  /** Position of the last `c` in `s`, or -1 when there is none. */
  function LastIndexOf(s: string, c: char): (r: int)
    ensures -1 <= r < |s|
    ensures r >= 0 ==> s[r] == c
    ensures forall i :: r < i < |s| ==> s[i] != c
  {
    if s == [] then -1 else if s[|s| - 1] == c then |s| - 1 else LastIndexOf(s[..|s| - 1], c)
  }

  lemma IndexOfAt(x: string, y: string, c: char)
    requires c !in x && |y| > 0 && y[0] == c
    ensures IndexOf(x + y, c) == |x|
  {
    assert (x + y)[|x|] == c;
  }

  lemma LastIndexOfAt(x: string, c: char, y: string)
    requires c !in y
    ensures LastIndexOf(x + [c] + y, c) == |x|
  {
    var s := x + [c] + y;
    assert s[|x|] == c;
  }

  /** `s` without the leading `prefix`, if it starts with it. */
  function StripPrefix(s: string, prefix: string): (r: Option<string>)
    ensures r.Some? <==> prefix <= s
    ensures r.Some? ==> s == prefix + r.value
  {
    if |prefix| <= |s| && s[..|prefix|] == prefix then Some(s[|prefix|..]) else None
  }

  /** `s` cut before its first `c`. */
  function SplitAt(s: string, c: char): (string, string)
  {
    var i := IndexOf(s, c);
    (s[..i], s[i..])
  }

  lemma SplitAtFirst(x: string, y: string, c: char)
    requires c !in x && |y| > 0 && y[0] == c
    ensures SplitAt(x + y, c) == (x, y)
  {
    IndexOfAt(x, y, c);
    assert (x + y)[..|x|] == x;
    assert (x + y)[|x|..] == y;
  }

  lemma StripPrefixOf(prefix: string, t: string)
    ensures StripPrefix(prefix + t, prefix) == Some(t)
  {
    assert (prefix + t)[..|prefix|] == prefix;
    assert (prefix + t)[|prefix|..] == t;
  }

  // ---------------------------------------------------------------------------
  // getBaseUri and userAgent
  // ---------------------------------------------------------------------------

  /** `getBaseUri()`: the configured protocol, then "://", the host, ":" and the port. */
  function BaseUri(protocol: string, host: string, port: string): (r: string)
    ensures |r| == |protocol| + |host| + |port| + 4
    ensures r[..|protocol| + 3] == protocol + "://" && r[|r| - |port| - 1..] == ":" + port
  {
    protocol + "://" + host + ":" + port
  }

  /** Reads a base URI back: the protocol ends at the first ':', the port starts after the last ':'. */
  function ParseBaseUri(s: string): Option<(string, string, string)>
  {
    var (protocol, rest) := SplitAt(s, ':');
    match StripPrefix(rest, "://")
    case None => None
    case Some(hostPort) =>
      var j := LastIndexOf(hostPort, ':');
      if j < 0 then None else Some((protocol, hostPort[..j], hostPort[j + 1..]))
  }

  /**
   * The base URI holds its three parts unambiguously: when neither the
   * protocol nor the port contains ':', they can be read back from it.
   */
  lemma BaseUriRoundTrip(protocol: string, host: string, port: string)
    requires ':' !in protocol && ':' !in port
    ensures ParseBaseUri(BaseUri(protocol, host, port)) == Some((protocol, host, port))
  {
    var hostPort := host + [':'] + port;
    var rest := "://" + hostPort;
    BaseUriParts(protocol, host, port);
    SplitAtFirst(protocol, rest, ':');
    StripPrefixOf("://", hostPort);
    LastIndexOfAt(host, ':', port);
    assert hostPort[..|host|] == host;
    assert hostPort[|host| + 1..] == port;
  }

  lemma BaseUriParts(protocol: string, host: string, port: string)
    ensures BaseUri(protocol, host, port) == protocol + ("://" + (host + [':'] + port))
  {
  }

  /** `userAgent()`: the Terminus version, the running PHP version and the script name in one string. */
  function UserAgent(version: string, phpVersion: string, script: string): (r: string)
    ensures |r| == |version| + |phpVersion| + |script| + 32
    ensures r[..9] == "Terminus/" && r[|r| - 1] == ')'
  {
    "Terminus/" + version + " (php_version=" + phpVersion + "&script=" + script + ")"
  }

  /** Reads back the part of a user agent after the PHP version's label: the PHP version and the script name. */
  function ParsePhpAndScript(c: string): Option<(string, string)>
  {
    var (phpVersion, d) := SplitAt(c, '&');
    match StripPrefix(d, "&script=")
    case None => None
    case Some(e) =>
      if |e| > 0 && e[|e| - 1] == ')' then Some((phpVersion, e[..|e| - 1])) else None
  }

  /** Reads back the part of a user agent after "Terminus/": the version, the PHP version and the script name. */
  function ParseVersionAndRest(a: string): Option<(string, string, string)>
  {
    var (version, b) := SplitAt(a, ' ');
    match StripPrefix(b, " (php_version=")
    case None => None
    case Some(c) =>
      match ParsePhpAndScript(c)
      case None => None
      case Some((phpVersion, script)) => Some((version, phpVersion, script))
  }

  /**
   * Reads a user agent back: the version runs to the first space, the PHP
   * version to the first '&' after it, the script name to the closing ')'.
   */
  function ParseUserAgent(s: string): Option<(string, string, string)>
  {
    match StripPrefix(s, "Terminus/")
    case None => None
    case Some(a) => ParseVersionAndRest(a)
  }

  lemma PhpAndScriptRoundTrip(phpVersion: string, script: string)
    requires '&' !in phpVersion
    ensures ParsePhpAndScript(phpVersion + ("&script=" + (script + ")"))) == Some((phpVersion, script))
  {
    var e := script + ")";
    var d := "&script=" + e;
    SplitAtFirst(phpVersion, d, '&');
    StripPrefixOf("&script=", e);
    assert e[..|e| - 1] == script;
  }

  /**
   * The user agent holds its three parts unambiguously: when the version has
   * no space and the PHP version no '&', they can be read back from it.
   */
  lemma UserAgentRoundTrip(version: string, phpVersion: string, script: string)
    requires ' ' !in version && '&' !in phpVersion
    ensures ParseUserAgent(UserAgent(version, phpVersion, script)) == Some((version, phpVersion, script))
  {
    var a := version + (" (php_version=" + (phpVersion + ("&script=" + (script + ")"))));
    UserAgentParts(version, phpVersion, script);
    StripPrefixOf("Terminus/", a);
    VersionAndRestRoundTrip(version, phpVersion, script);
  }

  lemma UserAgentParts(version: string, phpVersion: string, script: string)
    ensures UserAgent(version, phpVersion, script)
            == "Terminus/" + (version + (" (php_version=" + (phpVersion + ("&script=" + (script + ")")))))
  {
  }

  lemma VersionAndRestRoundTrip(version: string, phpVersion: string, script: string)
    requires ' ' !in version && '&' !in phpVersion
    ensures ParseVersionAndRest(version + (" (php_version=" + (phpVersion + ("&script=" + (script + ")")))))
            == Some((version, phpVersion, script))
  {
    var c := phpVersion + ("&script=" + (script + ")"));
    var b := " (php_version=" + c;
    SplitAtFirst(version, b, ' ');
    StripPrefixOf(" (php_version=", c);
    PhpAndScriptRoundTrip(phpVersion, script);
  }

  /** A concrete user agent. */
  lemma UserAgentExample()
    ensures UserAgent("2.0", "8.1", "terminus") == "Terminus/2.0 (php_version=8.1&script=terminus)"
  {
  }

  // ---------------------------------------------------------------------------
  // Session and cookies
  // ---------------------------------------------------------------------------

  /**
   * The token `if ($session = Session::instance()->get('session', false))`
   * goes on with: a stored string counts only when PHP reads it as true,
   * so "" and "0" count as no session.
   */
  function SessionToken(stored: Option<string>): (r: Option<string>)
    ensures r.Some? <==> stored.Some? && stored.value != "" && stored.value != "0"
    ensures r.Some? ==> r.value == stored.value
  {
    match stored
    case Some(t) => if t != "" && t != "0" then Some(t) else None
    case None => None
  }

  /**
   * The cookies collected before the caller's are merged in: the session
   * cookie (`$cookies[...] = $session` on the empty array) when there is a
   * session, and nothing otherwise.
   */
  function SessionCookies(stored: Option<string>): seq<Entry>
  {
    match SessionToken(stored)
    case Some(t) => [Entry(StrKey(SessionCookieName), Str(t))]
    case None => []
  }

  datatype RequestError =
    /** `array_merge` was given caller cookies that are not an array. */
    | CookiesNotArray(given: Value)

  /**
   * `fillCookieJar($params)`: the cookies handed to the jar. The session
   * cookie comes first when there is a session; the caller's `cookies`
   * array, when set, is merged over it with `array_merge`. Caller cookies
   * that are not an array make `array_merge` fail, and the request with it.
   */
  function FillCookieJar(stored: Option<string>, params: seq<Entry>): (r: Result<seq<Entry>, RequestError>)
    ensures r.Err? <==> IsSet(params, StrKey("cookies")) && !Get(params, StrKey("cookies")).value.Arr?
    ensures r.Ok? ==> Renumbered(r.value)
  {
    var cookies := SessionCookies(stored);
    assert IntKeys(cookies) == [] by {
      assert cookies != [] ==> cookies[1..] == [];
    }
    if IsSet(params, StrKey("cookies")) then
      var given := Get(params, StrKey("cookies")).value;
      if given.Arr? then
        Ok(ArrayMerge(cookies, given.entries))
      else Err(CookiesNotArray(given))
    else Ok(cookies)
  }

  /** The jar depends on the options only through their `cookies` entry. */
  lemma JarReadsOnlyCookies(stored: Option<string>, p: seq<Entry>, q: seq<Entry>)
    requires Get(p, StrKey("cookies")) == Get(q, StrKey("cookies"))
    ensures FillCookieJar(stored, p) == FillCookieJar(stored, q)
  {
  }

  /**
   * With no session and no caller cookies the jar is empty. "No session"
   * covers a stored "" or "0" as well as nothing stored.
   */
  lemma NoSessionNoCookies(stored: Option<string>, params: seq<Entry>)
    requires SessionToken(stored).None?
    requires !IsSet(params, StrKey("cookies"))
    ensures FillCookieJar(stored, params) == Ok([])
  {
  }

  /** With a session and no caller cookies the jar holds the session cookie alone. */
  lemma SessionCookieOnly(token: string, params: seq<Entry>)
    requires token != "" && token != "0"
    requires !IsSet(params, StrKey("cookies"))
    ensures FillCookieJar(Some(token), params) == Ok([Entry(StrKey(SessionCookieName), Str(token))])
  {
  }

  /**
   * Caller cookies override and extend: every caller cookie is in the jar
   * with the caller's value, the session cookie stays unless the caller
   * names it, and nothing else is added.
   */
  lemma CallerCookiesOverride(stored: Option<string>, params: seq<Entry>, name: string)
    requires ValidArray(params)
    requires IsSet(params, StrKey("cookies")) && Get(params, StrKey("cookies")).value.Arr?
    ensures FillCookieJar(stored, params).Ok?
    ensures var given := Get(params, StrKey("cookies")).value.entries;
            Get(FillCookieJar(stored, params).value, StrKey(name))
            == (if HasKey(given, StrKey(name)) then Get(given, StrKey(name))
                else if name == SessionCookieName && SessionToken(stored).Some? then Some(Str(SessionToken(stored).value))
                else None)
    ensures IntValues(FillCookieJar(stored, params).value) == IntValues(Get(params, StrKey("cookies")).value.entries)
  {
    var given := Get(params, StrKey("cookies")).value.entries;
    GetWellFormed(params, StrKey("cookies"));
    var cookies := SessionCookies(stored);
    ArrayMergeGet(cookies, given, name);
    assert IntValues(cookies) == [] by {
      assert cookies != [] ==> cookies[1..] == [];
    }
  }

  /**
   * `fillCookieJar` as the code stands: `$jar->fromArray($cookies, '')`
   * invokes the jar library's static factory, which builds a new jar from
   * `$cookies` and returns it; the returned jar is dropped, so the method
   * hands back the jar it created empty. Only the failure of `array_merge`
   * still shows.
   */
  function FillCookieJarAsWritten(stored: Option<string>, params: seq<Entry>): (r: Result<seq<Entry>, RequestError>)
    ensures r.Err? <==> IsSet(params, StrKey("cookies")) && !Get(params, StrKey("cookies")).value.Arr?
    ensures r.Ok? ==> r.value == []
  {
    match FillCookieJar(stored, params)
    case Err(e) => Err(e)
    case Ok(_) => Ok([])
  }

  /**
   * With a session and no caller cookies, the jar as written holds no
   * cookie, while the cookies collected for it hold the session.
   */
  lemma FromArrayResultDiscarded(params: seq<Entry>)
    requires !IsSet(params, StrKey("cookies"))
    ensures FillCookieJarAsWritten(Some("abc"), params) == Ok([])
    ensures FillCookieJar(Some("abc"), params) == Ok([Entry(StrKey(SessionCookieName), Str("abc"))])
    ensures FillCookieJarAsWritten(Some("abc"), params) != FillCookieJar(Some("abc"), params)
  {
  }

  // ---------------------------------------------------------------------------
  // send: the parameters handed to the transport
  // ---------------------------------------------------------------------------

  /** The process-wide constants `getBaseUri` and `userAgent` read. */
  datatype Config = Config(protocol: string, host: string, port: string, version: string, script: string)

  /** What `send` hands to the HTTP transport. */
  datatype Outbound = Outbound(
    verb: string,          // the request method after `ucwords`
    uri: string,
    baseUri: string,       // the client's `base_uri`
    params: seq<Entry>,    // the request options
    cookies: seq<Entry>)   // the cookies collected for the client's jar

  /** The default header `send` sets under `name`, if any. */
  function DefaultHeader(token: Option<string>, agent: string, name: string): (r: Option<Value>)
    ensures r.Some? <==> name == "User-Agent" || name == "Content-type" || (name == "Cookie" && token.Some?)
    ensures r.Some? ==> r.value.Str?
  {
    if name == "User-Agent" then Some(Str(agent))
    else if name == "Content-type" then Some(Str("application/json"))
    else if name == "Cookie" && token.Some? then Some(Str(SessionCookieName + "=" + token.value))
    else None
  }

  /** The header the caller passes under `name`, if its `headers` option is an array that has one. */
  function CallerHeader(args: seq<Entry>, name: string): Option<Value>
  {
    match Get(args, StrKey("headers"))
    case Some(Arr(h)) => Get(h, StrKey(name))
    case _ => None
  }

  /** `v` is the default `d`, or a list that begins with it. */
  predicate KeepsDefault(v: Option<Value>, d: Value)
  {
    v == Some(d) || (v.Some? && v.value.Arr? && |v.value.entries| > 0 && v.value.entries[0] == Entry(IntKey(0), d))
  }

  /** A default scalar header survives whatever the caller passes under the same name. */
  lemma DefaultSurvives(d: Value, caller: Option<Value>)
    requires !d.Arr?
    ensures KeepsDefault(Collide(Some(d), caller), d)
  {
    if caller.Some? {
      CombineRetains(d, caller.value);
    }
  }

  /** Two scalars under one name are both kept, the default first. */
  lemma ScalarsCombine(d: Value, c: Value)
    requires !d.Arr? && !c.Arr?
    ensures Collide(Some(d), Some(c)) == Some(Arr([Entry(IntKey(0), d), Entry(IntKey(1), c)]))
  {
    var one := [Entry(IntKey(0), d)];
    assert one[1..] == [];
    assert NextIndex(one) == 1;
    assert Combine(d, c) == Arr(one + [Entry(IntKey(1), c)]);
    assert one + [Entry(IntKey(1), c)] == [Entry(IntKey(0), d), Entry(IntKey(1), c)];
  }

  /**
   * Merging the caller's options into `['headers' => defaults]`: the merged
   * headers hold, name by name, the default and the caller's header
   * combined, and every other caller option comes through unchanged.
   */
  lemma MergedOptions(defaults: seq<Entry>, args: seq<Entry>)
    requires UniqueKeys(defaults) && ValidArray(args)
    ensures var merged := MergeRecursive([Entry(StrKey("headers"), Arr(defaults))], args);
            && Get(merged, StrKey("headers")).Some?
            && Get(merged, StrKey("headers")).value.Arr?
            && (forall name :: Get(Get(merged, StrKey("headers")).value.entries, StrKey(name))
                                == Collide(Get(defaults, StrKey(name)), CallerHeader(args, name)))
            && (forall name :: name != "headers" ==> Get(merged, StrKey(name)) == Get(args, StrKey(name)))
  {
    var extra := [Entry(StrKey("headers"), Arr(defaults))];
    var merged := MergeRecursive(extra, args);
    MergeRecursiveGet(extra, args, "headers");
    var caller := Get(args, StrKey("headers"));
    forall name
      ensures Get(Get(merged, StrKey("headers")).value.entries, StrKey(name))
              == Collide(Get(defaults, StrKey(name)), CallerHeader(args, name))
    {
      match caller
      case None =>
      case Some(x) =>
        if x.Arr? {
          GetWellFormed(args, StrKey("headers"));
          MergeFromGet(defaults, x, 0, name);
          assert x.entries[0..] == x.entries;
        } else {
          PushGet(defaults, x);
        }
    }
    forall name | name != "headers"
      ensures Get(merged, StrKey(name)) == Get(args, StrKey(name))
    {
      MergeRecursiveGet(extra, args, name);
    }
  }

  /** The merged headers hold, name by name, the default combined with the caller's header. */
  ghost predicate HeadersMerged(headers: Option<Value>, token: Option<string>, agent: string, args: seq<Entry>)
  {
    && headers.Some? && headers.value.Arr?
    && (forall name :: Get(headers.value.entries, StrKey(name))
                       == Collide(DefaultHeader(token, agent, name), CallerHeader(args, name)))
    && IntValues(headers.value.entries) == CallerListedHeaders(args)
  }

  /**
   * The header values the caller passes without a name: the integer-keyed
   * entries of its `headers` array, or a `headers` value that is not an
   * array at all, which `array_merge_recursive` appends to the defaults.
   */
  function CallerListedHeaders(args: seq<Entry>): seq<Value>
  {
    match Get(args, StrKey("headers"))
    case None => []
    case Some(Arr(h)) => IntValues(h)
    case Some(x) => [x]
  }

  /** The merged headers' integer-keyed entries are the caller's unnamed header values, after the named defaults. */
  lemma ListedHeadersAppended(headers: seq<Entry>, args: seq<Entry>)
    requires UniqueKeys(headers) && UniqueKeys(args) && IntValues(headers) == []
    ensures var merged := MergeRecursive([Entry(StrKey("headers"), Arr(headers))], args);
            && Get(merged, StrKey("headers")).Some? && Get(merged, StrKey("headers")).value.Arr?
            && IntValues(Get(merged, StrKey("headers")).value.entries) == CallerListedHeaders(args)
  {
    var extra := [Entry(StrKey("headers"), Arr(headers))];
    MergeRecursiveGet(extra, args, "headers");
    assert Get(extra, StrKey("headers")) == Some(Arr(headers));
    match Get(args, StrKey("headers"))
    case None =>
    case Some(x) =>
      if x.Arr? {
        MergeFromIntValues(headers, x, 0);
        assert x.entries[0..] == x.entries;
      } else {
        PushIntValues(headers, x);
      }
  }

  /**
   * Defaults survive the merge: User-Agent, Content-type and, with a
   * session, Cookie keep their default value, alone or at the head of a
   * list. Without a session the Cookie header is whatever the caller sent.
   */
  lemma DefaultsSurvive(headers: Option<Value>, token: Option<string>, agent: string, args: seq<Entry>)
    requires HeadersMerged(headers, token, agent, args)
    ensures KeepsDefault(Get(headers.value.entries, StrKey("User-Agent")), Str(agent))
    ensures KeepsDefault(Get(headers.value.entries, StrKey("Content-type")), Str("application/json"))
    ensures token.Some? ==> KeepsDefault(Get(headers.value.entries, StrKey("Cookie")), Str(SessionCookieName + "=" + token.value))
    ensures token.None? ==> Get(headers.value.entries, StrKey("Cookie")) == CallerHeader(args, "Cookie")
  {
    DefaultSurvives(Str(agent), CallerHeader(args, "User-Agent"));
    DefaultSurvives(Str("application/json"), CallerHeader(args, "Content-type"));
    if token.Some? {
      DefaultSurvives(Str(SessionCookieName + "=" + token.value), CallerHeader(args, "Cookie"));
    }
  }

  /** The options `send` passes on, against the caller's. */
  ghost predicate OptionsPassed(params: seq<Entry>, args: seq<Entry>)
  {
    // every caller option other than these three comes through unchanged
    && (forall name :: name != "headers" && name != "json" && name != "cookies" ==>
                         Get(params, StrKey(name)) == Get(args, StrKey(name)))
    // `json` carries `form_params` when that is set, and is otherwise the caller's
    && Get(params, StrKey("json"))
       == (if IsSet(args, StrKey("form_params")) then Get(args, StrKey("form_params")) else Get(args, StrKey("json")))
    // cookies leave the options
    && !HasKey(params, StrKey("cookies"))
    // integer-keyed options are the caller's, renumbered from 0
    && IntValues(params) == IntValues(args)
    && Renumbered(params)
    && ValidArray(params)
  }

  /** The two headers every request carries, in the order `send` sets them. */
  function BaseHeaders(agent: string): seq<Entry>
  {
    [Entry(StrKey("User-Agent"), Str(agent)), Entry(StrKey("Content-type"), Str("application/json"))]
  }

  /** The two headers every request carries, looked up by name. */
  lemma FixedHeaders(agent: string, name: string)
    ensures var base := BaseHeaders(agent);
            && UniqueKeys(base)
            && Get(base, StrKey(name)) == DefaultHeader(None, agent, name)
  {
    var base := BaseHeaders(agent);
    GetCons(base[0], base[1..], StrKey(name));
    GetCons(base[1], [], StrKey(name));
    assert base == [base[0]] + base[1..] && base[1..] == [base[1]] + [];
  }

  lemma FixedHeadersUnlisted(agent: string)
    ensures IntValues(BaseHeaders(agent)) == []
  {
    var base := BaseHeaders(agent);
    assert base[1..][1..] == [];
    assert IntValues(base[1..]) == IntValues(base[1..][1..]);
  }

  lemma DefaultHeadersShape(token: Option<string>, agent: string, headers: seq<Entry>)
    requires var base := BaseHeaders(agent);
             headers == if token.Some? then Set(base, StrKey("Cookie"), Str(SessionCookieName + "=" + token.value)) else base
    ensures ValidArray(headers) && IntValues(headers) == []
  {
    var base := BaseHeaders(agent);
    FixedHeadersUnlisted(agent);
    FixedHeaders(agent, "Cookie");
    if token.Some? {
      SetIntValues(base, "Cookie", Str(SessionCookieName + "=" + token.value));
      SetValid(base, StrKey("Cookie"), Str(SessionCookieName + "=" + token.value));
    }
  }

  /** The default headers `send` builds, looked up by name. */
  lemma DefaultHeadersBuilt(token: Option<string>, agent: string, headers: seq<Entry>)
    requires var base := BaseHeaders(agent);
             headers == if token.Some? then Set(base, StrKey("Cookie"), Str(SessionCookieName + "=" + token.value)) else base
    ensures ValidArray(headers) && IntValues(headers) == []
    ensures forall name :: Get(headers, StrKey(name)) == DefaultHeader(token, agent, name)
  {
    var base := BaseHeaders(agent);
    DefaultHeadersShape(token, agent, headers);
    OptionNamesDistinct();
    FixedHeaders(agent, "Cookie");
    forall name
      ensures Get(headers, StrKey(name)) == DefaultHeader(token, agent, name)
    {
      FixedHeaders(agent, name);
      if token.Some? {
        SetGet(base, StrKey("Cookie"), Str(SessionCookieName + "=" + token.value));
      }
    }
  }

  /** What the recursive merge of the default headers with the caller's options yields. */
  lemma HeadersMergeStep(token: Option<string>, agent: string, headers: seq<Entry>, args: seq<Entry>)
    requires ValidArray(headers) && ValidArray(args)
    requires forall name :: Get(headers, StrKey(name)) == DefaultHeader(token, agent, name)
    requires IntValues(headers) == []
    ensures var merged := MergeRecursive([Entry(StrKey("headers"), Arr(headers))], args);
            && HeadersMerged(Get(merged, StrKey("headers")), token, agent, args)
            && (forall name :: name != "headers" ==> Get(merged, StrKey(name)) == Get(args, StrKey(name)))
            && IntValues(merged) == IntValues(args)
            && Renumbered(merged)
            && ValidArray(merged)
  {
    var extra := [Entry(StrKey("headers"), Arr(headers))];
    MergedOptions(headers, args);
    ListedHeadersAppended(headers, args);
    assert ValidArray(extra);
    MergeRecursiveValid(extra, args);
    assert IntValues(extra) == [] && IntKeys(extra) == [] by {
      assert extra[1..] == [];
    }
  }

  /** The option names `send` handles are distinct from one another. */
  lemma OptionNamesDistinct()
    ensures "cookies" != "headers" && "form_params" != "headers" && "json" != "headers"
    ensures "cookies" != "json" && "User-Agent" != "Cookie" && "Content-type" != "Cookie"
  {
    assert "cookies"[0] != "headers"[0];
    assert "User-Agent"[0] != "Cookie"[0];
    assert "Content-type"[2] != "Cookie"[2];
  }

  /**
   * The copy of `form_params` to `json`: only `json` changes, it then holds
   * `form_params` when those are set, and the array stays valid with the
   * same integer-keyed entries.
   */
  lemma JsonCopy(merged: seq<Entry>, withJson: seq<Entry>)
    requires ValidArray(merged)
    requires withJson == if IsSet(merged, StrKey("form_params"))
                         then Set(merged, StrKey("json"), Get(merged, StrKey("form_params")).value)
                         else merged
    ensures forall k :: k != StrKey("json") ==> Get(withJson, k) == Get(merged, k)
    ensures Get(withJson, StrKey("json"))
            == (if IsSet(merged, StrKey("form_params")) then Get(merged, StrKey("form_params")) else Get(merged, StrKey("json")))
    ensures IntValues(withJson) == IntValues(merged) && IntKeys(withJson) == IntKeys(merged)
    ensures ValidArray(withJson)
  {
    if IsSet(merged, StrKey("form_params")) {
      var copied := Get(merged, StrKey("form_params")).value;
      GetWellFormed(merged, StrKey("form_params"));
      SetGet(merged, StrKey("json"), copied);
      SetIntValues(merged, "json", copied);
      SetValid(merged, StrKey("json"), copied);
    }
  }

  /**
   * After the recursive merge and the `json` copy, every option but
   * `headers` and `json` is the caller's, and `json` is the caller's
   * `form_params` when those are set.
   */
  lemma JsonStep(merged: seq<Entry>, args: seq<Entry>, withJson: seq<Entry>)
    requires forall name :: name != "headers" ==> Get(merged, StrKey(name)) == Get(args, StrKey(name))
    requires IntValues(merged) == IntValues(args) && Renumbered(merged)
    requires forall k :: k != StrKey("json") ==> Get(withJson, k) == Get(merged, k)
    requires Get(withJson, StrKey("json"))
             == (if IsSet(merged, StrKey("form_params")) then Get(merged, StrKey("form_params")) else Get(merged, StrKey("json")))
    requires IntValues(withJson) == IntValues(merged) && IntKeys(withJson) == IntKeys(merged)
    ensures Get(withJson, StrKey("headers")) == Get(merged, StrKey("headers"))
    ensures Get(withJson, StrKey("cookies")) == Get(args, StrKey("cookies"))
    ensures forall name :: name != "headers" && name != "json" ==> Get(withJson, StrKey(name)) == Get(args, StrKey(name))
    ensures Get(withJson, StrKey("json"))
            == (if IsSet(args, StrKey("form_params")) then Get(args, StrKey("form_params")) else Get(args, StrKey("json")))
    ensures IntValues(withJson) == IntValues(args) && Renumbered(withJson)
  {
    OptionNamesDistinct();
    assert Get(merged, StrKey("form_params")) == Get(args, StrKey("form_params"));
    assert Get(merged, StrKey("json")) == Get(args, StrKey("json"));
  }

  /** The removal of `cookies`: only that key goes. */
  lemma CookiesRemoved(withJson: seq<Entry>, sent: seq<Entry>)
    requires ValidArray(withJson)
    requires sent == Unset(withJson, StrKey("cookies"))
    ensures !HasKey(sent, StrKey("cookies"))
    ensures forall k :: k != StrKey("cookies") ==> Get(sent, k) == Get(withJson, k)
    ensures IntValues(sent) == IntValues(withJson) && IntKeys(sent) == IntKeys(withJson)
    ensures ValidArray(sent)
  {
    UnsetGet(withJson, StrKey("cookies"));
    UnsetValid(withJson, StrKey("cookies"));
  }

  /**
   * After the removal of `cookies`, the options are the caller's but for
   * the merged `headers`, the copied `json` and the missing `cookies`.
   */
  lemma CookiesStep(withJson: seq<Entry>, args: seq<Entry>, sent: seq<Entry>)
    requires forall name :: name != "headers" && name != "json" ==> Get(withJson, StrKey(name)) == Get(args, StrKey(name))
    requires Get(withJson, StrKey("json"))
             == (if IsSet(args, StrKey("form_params")) then Get(args, StrKey("form_params")) else Get(args, StrKey("json")))
    requires IntValues(withJson) == IntValues(args) && Renumbered(withJson)
    requires !HasKey(sent, StrKey("cookies"))
    requires forall k :: k != StrKey("cookies") ==> Get(sent, k) == Get(withJson, k)
    requires IntValues(sent) == IntValues(withJson) && IntKeys(sent) == IntKeys(withJson)
    requires ValidArray(sent)
    ensures Get(sent, StrKey("headers")) == Get(withJson, StrKey("headers"))
    ensures OptionsPassed(sent, args)
  {
    OptionNamesDistinct();
    assert Get(sent, StrKey("json")) == Get(withJson, StrKey("json"));
  }

  /**
   * `send($uri, $method, $arg_params)` up to the point where it hands the
   * request to the transport: the default headers, the session's Cookie
   * header, the recursive merge of the caller's options, `form_params`
   * copied to `json`, the cookie jar's contents, `cookies` removed, and the
   * method name run through `ucwords`.
   */
  method Send(stored: Option<string>, phpVersion: string, config: Config, uri: string, verb: string, args: seq<Entry>)
    returns (r: Result<Outbound, RequestError>)
    requires ValidArray(args)
    // The request fails exactly when the caller's cookies are set but are not an array.
    ensures r.Err? <==> IsSet(args, StrKey("cookies")) && !Get(args, StrKey("cookies")).value.Arr?
    ensures r.Ok? ==>
      var headers := Get(r.value.params, StrKey("headers"));
      var agent := UserAgent(config.version, phpVersion, config.script);
      && HeadersMerged(headers, SessionToken(stored), agent, args)
      && KeepsDefault(Get(headers.value.entries, StrKey("User-Agent")), Str(agent))
      && KeepsDefault(Get(headers.value.entries, StrKey("Content-type")), Str("application/json"))
      && (SessionToken(stored).Some? ==>
            KeepsDefault(Get(headers.value.entries, StrKey("Cookie")), Str(SessionCookieName + "=" + SessionToken(stored).value)))
      && (SessionToken(stored).None? ==> Get(headers.value.entries, StrKey("Cookie")) == CallerHeader(args, "Cookie"))
    ensures r.Ok? ==> OptionsPassed(r.value.params, args)
    // The jar's cookies are computed before `cookies` leaves the options.
    ensures r.Ok? ==> r.value.cookies == FillCookieJar(stored, args).value
    ensures r.Ok? ==> r.value.verb == PhpStrings.Ucwords(verb) && r.value.uri == uri
    ensures r.Ok? ==> r.value.baseUri == BaseUri(config.protocol, config.host, config.port)
  {
    var token := SessionToken(stored);
    var agent := UserAgent(config.version, phpVersion, config.script);
    var headers := BaseHeaders(agent);
    if token.Some? {
      headers := Set(headers, StrKey("Cookie"), Str(SessionCookieName + "=" + token.value));
    }
    DefaultHeadersBuilt(token, agent, headers);
    var extra := [Entry(StrKey("headers"), Arr(headers))];

    var params := MergeRecursive(extra, args);
    ghost var merged := params;
    if IsSet(params, StrKey("form_params")) {
      params := Set(params, StrKey("json"), Get(params, StrKey("form_params")).value);
    }
    ghost var withJson := params;
    HeadersMergeStep(token, agent, headers, args);
    JsonCopy(merged, withJson);
    JsonStep(merged, args, withJson);
    CookiesRemoved(withJson, Unset(withJson, StrKey("cookies")));
    CookiesStep(withJson, args, Unset(withJson, StrKey("cookies")));

    JarReadsOnlyCookies(stored, withJson, args);
    var jar := FillCookieJar(stored, params);
    if jar.Err? {
      return Err(jar.error);
    }
    params := Unset(params, StrKey("cookies"));
    DefaultsSurvive(Get(params, StrKey("headers")), token, agent, args);
    r := Ok(Outbound(PhpStrings.Ucwords(verb), uri, BaseUri(config.protocol, config.host, config.port), params, jar.value));
  }
}

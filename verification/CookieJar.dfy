/**
 The per-host cookie jar of src-tauri/src/proxy/hometier_protocol.rs.  The clock is
 a parameter of every operation that reads it.
 */
module CookieJar {
  import opened Base
  import opened Strings

  datatype Attributes = Attributes(httpOnly: bool, secure: bool, sameSite: Option<string>)

  datatype Cookie = Cookie(
    name: string, value: string, path: string, domain: Option<string>, expiresAt: Option<nat>, attributes: Attributes)

  predicate SameIdentity(a: Cookie, b: Cookie) {
    a.name == b.name && a.path == b.path && a.domain == b.domain
  }

  predicate Unexpired(c: Cookie, now: nat) {
    c.expiresAt.Some? ==> c.expiresAt.value > now
  }

  // ---- Matching ----

  function StripSlashes(path: string): (r: string)
    ensures r <= path && (r != "" ==> r[|r| - 1] != '/')
    ensures forall i :: |r| <= i < |path| ==> path[i] == '/'
  {
    if path != "" && path[|path| - 1] == '/' then StripSlashes(path[..|path| - 1]) else path
  }

  function StripDots(domain: string): string {
    if domain != "" && domain[0] == '.' then StripDots(domain[1..]) else domain
  }

  predicate DomainMatches(domain: Option<string>, host: string) {
    domain.Some? ==>
      var dom := StripDots(domain.value);
      host == dom || EndsWith(host, "." + dom)
  }

  predicate PathMatches(cookiePath: string, requestPath: string) {
    var cp := StripSlashes(cookiePath);
    if cp == "" || cp == "/" then true
    else if StartsWith(requestPath, cp) then
      var rest := requestPath[|cp|..];
      rest == "" || rest[0] == '/'
    else false
  }

  predicate Matches(c: Cookie, host: string, path: string) {
    DomainMatches(c.domain, host) && PathMatches(c.path, path)
  }

  /** Section 5.1.4 of RFC 6265. */
  predicate RfcPathMatches(cookiePath: string, requestPath: string) {
    || cookiePath == requestPath
    || (cookiePath <= requestPath && cookiePath != "" && cookiePath[|cookiePath| - 1] == '/')
    || (cookiePath <= requestPath && |cookiePath| < |requestPath| && requestPath[|cookiePath|] == '/')
  }

  /** The code accepts whatever the RFC accepts, and is the RFC rule on the stripped cookie path. */
  lemma PathMatchAgainstRfc(cookiePath: string, requestPath: string)
    ensures RfcPathMatches(cookiePath, requestPath) ==> PathMatches(cookiePath, requestPath)
    ensures PathMatches(cookiePath, requestPath) <==>
              StripSlashes(cookiePath) == "" || RfcPathMatches(StripSlashes(cookiePath), requestPath)
  {
    var cp := StripSlashes(cookiePath);
    if cookiePath <= requestPath && |cp| < |cookiePath| {
      assert requestPath[|cp|] == cookiePath[|cp|] == '/';
    }
  }

  /** A path as the callers of the jar build it. */
  predicate Rooted(path: string) {
    path != "" && path[0] == '/'
  }

  /** A slash at the end of a rooted cookie path other than "/" itself. */
  predicate TrailingSlash(cookiePath: string) {
    |cookiePath| > 1 && Rooted(cookiePath) && cookiePath[|cookiePath| - 1] == '/'
  }

  /**
   On the request paths that occur, the two rules agree for a cookie path exactly when
   it is not a rooted path with a trailing slash: `/a/` also matches the request `/a`.
   */
  lemma AgreesWithRfcIff(cookiePath: string)
    ensures (forall requestPath :: Rooted(requestPath) ==>
               PathMatches(cookiePath, requestPath) == RfcPathMatches(cookiePath, requestPath))
            <==> !TrailingSlash(cookiePath)
  {
    if TrailingSlash(cookiePath) {
      var cp := StripSlashes(cookiePath);
      var requestPath := if cp == "" then "/" else cp;
      assert Rooted(requestPath) && |requestPath| < |cookiePath|;
      assert PathMatches(cookiePath, requestPath) && !RfcPathMatches(cookiePath, requestPath);
    } else {
      forall requestPath | Rooted(requestPath)
        ensures PathMatches(cookiePath, requestPath) == RfcPathMatches(cookiePath, requestPath)
      {
        AgreesOn(cookiePath, requestPath);
      }
    }
  }

  lemma TrailingSlashExample(cookiePath: string, requestPath: string)
    requires cookiePath == "/a/" && requestPath == "/a"
    ensures PathMatches(cookiePath, requestPath) && !RfcPathMatches(cookiePath, requestPath)
  {
    assert cookiePath[..2] == requestPath;
    assert StripSlashes(cookiePath) == StripSlashes(cookiePath[..2]) == requestPath;
  }

  lemma AgreesOn(cookiePath: string, requestPath: string)
    requires Rooted(requestPath) && !TrailingSlash(cookiePath)
    ensures PathMatches(cookiePath, requestPath) == RfcPathMatches(cookiePath, requestPath)
  {
    PathMatchAgainstRfc(cookiePath, requestPath);
    var cp := StripSlashes(cookiePath);
    if |cp| < |cookiePath| && cp != "" {
      assert cp[0] == cookiePath[0] != '/';
    }
  }

  /** On all strings, rooted or not, they agree exactly for a non-empty cookie path without trailing slash. */
  lemma AgreesOnAllStringsIff(cookiePath: string)
    ensures (forall requestPath :: PathMatches(cookiePath, requestPath) == RfcPathMatches(cookiePath, requestPath))
            <==> cookiePath != "" && cookiePath[|cookiePath| - 1] != '/'
  {
    if cookiePath != "" && cookiePath[|cookiePath| - 1] != '/' {
      forall requestPath
        ensures PathMatches(cookiePath, requestPath) == RfcPathMatches(cookiePath, requestPath)
      {
        PathMatchAgainstRfc(cookiePath, requestPath);
      }
    } else {
      var witness' := if cookiePath == "" then "x" else StripSlashes(cookiePath);
      assert cookiePath == "" ==> StripSlashes(cookiePath) == "";
      assert PathMatches(cookiePath, witness') && !RfcPathMatches(cookiePath, witness');
    }
  }

  // ---- The rule for domains, and both rules together ----

  predicate AllDots(s: string) {
    forall i :: 0 <= i < |s| ==> s[i] == '.'
  }

  lemma {:induction false} StripDotsIs(domain: string) returns (dots: string)
    ensures domain == dots + StripDots(domain) && AllDots(dots)
    ensures StripDots(domain) == "" || StripDots(domain)[0] != '.'
  {
    dots := "";
    if domain != "" && domain[0] == '.' {
      dots := StripDotsIs(domain[1..]);
      assert domain == [domain[0]] + domain[1..];
      dots := [domain[0]] + dots;
    }
  }

  lemma {:induction false} StripDotsOf(dots: string, bare: string)
    requires AllDots(dots) && (bare == "" || bare[0] != '.')
    ensures StripDots(dots + bare) == bare
  {
    if dots == "" {
      assert dots + bare == bare;
    } else {
      StripDotsOf(dots[1..], bare);
      assert (dots + bare)[1..] == dots[1..] + bare;
    }
  }

  /** `bare` is the domain without the dots in front. */
  ghost predicate Bare(domain: string, bare: string) {
    (bare == "" || bare[0] != '.') && exists dots :: domain == dots + bare && AllDots(dots)
  }

  /** The host is the domain, or a name, a dot and the domain. */
  ghost predicate HostInDomain(host: string, bare: string) {
    host == bare || exists name: string :: host == name + "." + bare
  }

  /** A cookie without a domain is for every host of its jar. */
  ghost predicate ForHost(domain: Option<string>, host: string) {
    domain.None? || exists bare :: Bare(domain.value, bare) && HostInDomain(host, bare)
  }

  lemma DomainMatchIff(domain: Option<string>, host: string)
    ensures DomainMatches(domain, host) <==> ForHost(domain, host)
  {
    if domain.Some? {
      var dom := StripDots(domain.value);
      var dots := StripDotsIs(domain.value);
      assert Bare(domain.value, dom);
      EndsWithDot(host, dom);
      forall bare | Bare(domain.value, bare)
        ensures bare == dom
      {
        var d :| domain.value == d + bare && AllDots(d);
        StripDotsOf(d, bare);
      }
    }
  }

  lemma EndsWithDot(host: string, bare: string)
    ensures EndsWith(host, "." + bare) <==> exists name: string :: host == name + "." + bare
  {
    if EndsWith(host, "." + bare) {
      var name := host[..|host| - |bare| - 1];
      assert host == name + ("." + bare) == name + "." + bare;
    }
    if name: string :| host == name + "." + bare {
      assert host == name + ("." + bare);
    }
  }

  /** For instance a cookie for `.b` on the host `a.b`. */
  lemma SubdomainExample(domain: string, host: string)
    requires domain == ".b" && host == "a.b"
    ensures DomainMatches(Some(domain), host) && !DomainMatches(Some(host), "b")
  {
    assert domain[1..] == "b" && host[1..] == "." + "b";
    assert StripDots(domain) == StripDots(domain[1..]) == "b";
    assert StripDots(host) == host;
  }

  /** Both rules: the cookie goes with a request for `path` on `host`. */
  ghost predicate Applies(c: Cookie, host: string, path: string) {
    ForHost(c.domain, host) && (StripSlashes(c.path) == "" || RfcPathMatches(StripSlashes(c.path), path))
  }

  lemma MatchesIffApplies(c: Cookie, host: string, path: string)
    ensures Matches(c, host, path) <==> Applies(c, host, path)
  {
    DomainMatchIff(c.domain, host);
    PathMatchAgainstRfc(c.path, path);
  }

  // ---- The jar as a sequence ----

  function KeepUnexpired(jar: seq<Cookie>, now: nat): seq<Cookie> {
    if jar == [] then []
    else
      var c, rest := jar[|jar| - 1], KeepUnexpired(jar[..|jar| - 1], now);
      if Unexpired(c, now) then rest + [c] else rest
  }

  /** Calls on the jar: a Set-Cookie header that parsed to `cookie`, or a header being built. */
  datatype Event = SetCookie(cookie: Cookie, now: nat) | Build(now: nat)

  /** The event takes `c` out of the jar, whatever the time. */
  predicate Kills(e: Event, c: Cookie) {
    && e.SetCookie? && e.cookie.name == c.name && e.cookie.path == c.path
    && (!Unexpired(e.cookie, e.now) || e.cookie.domain == c.domain)
  }

  function DropKilled(jar: seq<Cookie>, e: Event): seq<Cookie> {
    if jar == [] then []
    else
      var c, rest := jar[|jar| - 1], DropKilled(jar[..|jar| - 1], e);
      if Kills(e, c) then rest else rest + [c]
  }

  /** The jar after one call. */
  function Apply(jar: seq<Cookie>, e: Event): seq<Cookie> {
    match e
    case SetCookie(c, now) => if Unexpired(c, now) then DropKilled(jar, e) + [c] else DropKilled(jar, e)
    case Build(now) => KeepUnexpired(jar, now)
  }

  function JarOf(history: seq<Event>): seq<Cookie> {
    if history == [] then [] else Apply(JarOf(history[..|history| - 1]), history[|history| - 1])
  }

  function MatchingPairs(jar: seq<Cookie>, host: string, path: string): seq<string> {
    if jar == [] then []
    else
      var c, rest := jar[|jar| - 1], MatchingPairs(jar[..|jar| - 1], host, path);
      if Matches(c, host, path) then rest + [c.name + "=" + c.value] else rest
  }

  function Header(jar: seq<Cookie>, host: string, path: string): Option<string> {
    var pairs := MatchingPairs(jar, host, path);
    if pairs == [] then None else Some(Join(pairs, "; "))
  }

  // ---- The reference: which Set-Cookie headers of a history are still in force ----

  predicate Times(history: seq<Event>, now: nat) {
    && (forall i, j :: 0 <= i < j < |history| ==> history[i].now <= history[j].now)
    && (forall i :: 0 <= i < |history| ==> history[i].now <= now)
  }

  /**
   A later header with the same name and path replaces the cookie if it has the same
   domain, and deletes it, whatever the domain, if it had expired when it came.
   */
  predicate Ends(later: Event, c: Cookie) {
    && later.SetCookie? && later.cookie.name == c.name && later.cookie.path == c.path
    && (later.cookie.domain == c.domain
        || (later.cookie.expiresAt.Some? && later.cookie.expiresAt.value <= later.now))
  }

  /** The i-th header is in force at `now`: not expired, and ended by no later header. */
  predicate InForce(history: seq<Event>, i: nat, now: nat)
    requires i < |history|
  {
    && history[i].SetCookie?
    && (history[i].cookie.expiresAt.None? || history[i].cookie.expiresAt.value > now)
    && forall j :: i < j < |history| ==> !Ends(history[j], history[i].cookie)
  }

  /** The cookies in force among the first n headers, in the order they were set. */
  function Survivors(history: seq<Event>, n: nat, now: nat): seq<Cookie>
    requires n <= |history|
  {
    if n == 0 then []
    else
      var rest := Survivors(history, n - 1, now);
      if InForce(history, n - 1, now) then rest + [history[n - 1].cookie] else rest
  }

  // ---- The jar implements the reference ----

  lemma {:induction false} KeepAndDropCommute(jar: seq<Cookie>, e: Event, now: nat)
    ensures KeepUnexpired(DropKilled(jar, e), now) == DropKilled(KeepUnexpired(jar, now), e)
  {
    if jar != [] {
      var init, c := jar[..|jar| - 1], jar[|jar| - 1];
      KeepAndDropCommute(init, e, now);
      assert (DropKilled(init, e) + [c])[..|DropKilled(init, e)|] == DropKilled(init, e);
      assert (KeepUnexpired(init, now) + [c])[..|KeepUnexpired(init, now)|] == KeepUnexpired(init, now);
    }
  }

  lemma {:induction false} KeepTwice(jar: seq<Cookie>, earlier: nat, now: nat)
    requires earlier <= now
    ensures KeepUnexpired(KeepUnexpired(jar, earlier), now) == KeepUnexpired(jar, now)
  {
    if jar != [] {
      var init, c := jar[..|jar| - 1], jar[|jar| - 1];
      KeepTwice(init, earlier, now);
      assert (KeepUnexpired(init, earlier) + [c])[..|KeepUnexpired(init, earlier)|] == KeepUnexpired(init, earlier);
    }
  }

  lemma KeepSnoc(jar: seq<Cookie>, c: Cookie, now: nat)
    ensures KeepUnexpired(jar + [c], now) == KeepUnexpired(jar, now) + if Unexpired(c, now) then [c] else []
  {
    assert (jar + [c])[..|jar|] == jar;
  }

  lemma {:induction false} DropNone(jar: seq<Cookie>, e: Event)
    requires e.Build?
    ensures DropKilled(jar, e) == jar
  {
    if jar != [] {
      DropNone(jar[..|jar| - 1], e);
    }
  }

  /** A further event takes its victims out of the survivors and leaves the order alone. */
  lemma {:induction false} SurvivorsExtend(history: seq<Event>, e: Event, n: nat, now: nat)
    requires n <= |history|
    ensures Survivors(history + [e], n, now) == DropKilled(Survivors(history, n, now), e)
  {
    if n > 0 {
      SurvivorsExtend(history, e, n - 1, now);
      var longer, rest := history + [e], Survivors(history, n - 1, now);
      assert longer[n - 1] == history[n - 1];
      InForceExtend(history, e, n - 1, now);
      if InForce(history, n - 1, now) {
        DropSnoc(rest, history[n - 1].cookie, e);
      }
    }
  }

  lemma DropSnoc(jar: seq<Cookie>, c: Cookie, e: Event)
    ensures DropKilled(jar + [c], e) == DropKilled(jar, e) + if Kills(e, c) then [] else [c]
  {
    assert (jar + [c])[..|jar|] == jar;
  }

  lemma InForceExtend(history: seq<Event>, e: Event, i: nat, now: nat)
    requires i < |history|
    ensures InForce(history + [e], i, now) <==>
            InForce(history, i, now) && !Kills(e, history[i].cookie)
  {
    var longer := history + [e];
    assert forall c :: Ends(e, c) <==> Kills(e, c);
    assert longer[i] == history[i] && longer[|history|] == e;
    assert forall j :: i < j < |history| ==> longer[j] == history[j];
  }

  /** The cookie an event adds, as far as it is unexpired at `now`. */
  function AddedBy(e: Event, now: nat): seq<Cookie> {
    if e.SetCookie? && Unexpired(e.cookie, now) then [e.cookie] else []
  }

  lemma SurvivorsSnoc(history: seq<Event>, e: Event, now: nat)
    ensures Survivors(history + [e], |history| + 1, now) ==
            DropKilled(Survivors(history, |history|, now), e) + AddedBy(e, now)
  {
    SurvivorsExtend(history, e, |history|, now);
    assert (history + [e])[|history|] == e;
  }

  lemma JarStep(jar: seq<Cookie>, e: Event, now: nat)
    requires e.now <= now
    ensures KeepUnexpired(Apply(jar, e), now) == DropKilled(KeepUnexpired(jar, now), e) + AddedBy(e, now)
  {
    match e
    case Build(t) =>
      KeepTwice(jar, t, now);
      DropNone(KeepUnexpired(jar, now), e);
    case SetCookie(c, t) =>
      KeepAndDropCommute(jar, e, now);
      KeepSnoc(DropKilled(jar, e), c, now);
  }

  /** For every history the unexpired part of the jar is exactly the list of headers in force. */
  lemma {:induction false} JarHoldsSurvivors(history: seq<Event>, now: nat)
    requires Times(history, now)
    ensures KeepUnexpired(JarOf(history), now) == Survivors(history, |history|, now)
  {
    if history != [] {
      var init, e := history[..|history| - 1], history[|history| - 1];
      JarHoldsSurvivors(init, now);
      assert history == init + [e];
      SurvivorsSnoc(init, e, now);
      JarStep(JarOf(init), e, now);
    }
  }

  /** No two cookies of the jar share name, path and domain. */
  predicate Distinct(jar: seq<Cookie>) {
    forall i, j :: 0 <= i < j < |jar| ==> !SameIdentity(jar[i], jar[j])
  }

  lemma {:induction false} DropKeepsDistinct(jar: seq<Cookie>, e: Event)
    requires Distinct(jar)
    ensures Distinct(DropKilled(jar, e))
    ensures forall i :: 0 <= i < |DropKilled(jar, e)| ==> DropKilled(jar, e)[i] in jar && !Kills(e, DropKilled(jar, e)[i])
  {
    if jar != [] {
      DropKeepsDistinct(jar[..|jar| - 1], e);
    }
  }

  lemma {:induction false} KeepKeepsDistinct(jar: seq<Cookie>, now: nat)
    requires Distinct(jar)
    ensures Distinct(KeepUnexpired(jar, now))
    ensures forall i :: 0 <= i < |KeepUnexpired(jar, now)| ==> KeepUnexpired(jar, now)[i] in jar
  {
    if jar != [] {
      KeepKeepsDistinct(jar[..|jar| - 1], now);
    }
  }

  lemma {:induction false} JarIsDistinct(history: seq<Event>)
    ensures Distinct(JarOf(history))
  {
    if history != [] {
      var init, e := history[..|history| - 1], history[|history| - 1];
      JarIsDistinct(init);
      DropKeepsDistinct(JarOf(init), e);
      KeepKeepsDistinct(JarOf(init), e.now);
    }
  }

  /** The cookies that go with a request, in the order given. */
  ghost function Chosen(cookies: seq<Cookie>, host: string, path: string): seq<Cookie> {
    if cookies == [] then []
    else
      var c, before := cookies[|cookies| - 1], Chosen(cookies[..|cookies| - 1], host, path);
      if Applies(c, host, path) then before + [c] else before
  }

  /** The text of a header: name, equals sign and value of each cookie, between semicolons. */
  function HeaderText(cookies: seq<Cookie>): Option<string> {
    if cookies == [] then None
    else Some(Join(seq(|cookies|, i requires 0 <= i < |cookies| => cookies[i].name + "=" + cookies[i].value), "; "))
  }

  lemma {:induction false} PairsAreChosen(cookies: seq<Cookie>, host: string, path: string)
    ensures
      var chosen, pairs := Chosen(cookies, host, path), MatchingPairs(cookies, host, path);
      |pairs| == |chosen| && forall i :: 0 <= i < |chosen| ==> pairs[i] == chosen[i].name + "=" + chosen[i].value
  {
    if cookies != [] {
      PairsAreChosen(cookies[..|cookies| - 1], host, path);
      MatchesIffApplies(cookies[|cookies| - 1], host, path);
    }
  }

  lemma HeaderIs(cookies: seq<Cookie>, host: string, path: string)
    ensures Header(cookies, host, path) == HeaderText(Chosen(cookies, host, path))
  {
    PairsAreChosen(cookies, host, path);
    var chosen := Chosen(cookies, host, path);
    assert MatchingPairs(cookies, host, path) ==
           seq(|chosen|, i requires 0 <= i < |chosen| => chosen[i].name + "=" + chosen[i].value);
  }

  /**
   The header built at `now` after any history of calls at non-decreasing times
   lists exactly the cookies in force for this host and path, in the order of their
   last insertion.
   */
  lemma HeaderListsCookiesInForce(history: seq<Event>, now: nat, host: string, path: string)
    requires Times(history, now)
    ensures Header(Apply(JarOf(history), Build(now)), host, path) ==
            HeaderText(Chosen(Survivors(history, |history|, now), host, path))
    ensures Distinct(Survivors(history, |history|, now))
  {
    JarHoldsSurvivors(history, now);
    HeaderIs(Survivors(history, |history|, now), host, path);
    JarIsDistinct(history);
    KeepKeepsDistinct(JarOf(history), now);
  }

  // ---- The jar as the program updates it ----

  class PerHostCookieJar {
    var cookies: seq<Cookie>
    ghost var history: seq<Event>

    ghost predicate Valid()
      reads this
    {
      cookies == JarOf(history)
    }

    constructor ()
      ensures Valid() && history == []
    {
      cookies, history := [], [];
    }

    /** `retain` over the vector, keeping what the event does not remove. */
    method RetainNotKilled(e: Event)
      modifies this`cookies
      ensures cookies == DropKilled(old(cookies), e)
    {
      var kept: seq<Cookie> := [];
      for i := 0 to |cookies|
        invariant cookies == old(cookies) && kept == DropKilled(cookies[..i], e)
      {
        var c := cookies[i];
        assert cookies[..i + 1][..i] == cookies[..i];
        if !Kills(e, c) {
          kept := kept + [c];
        }
      }
      assert cookies[..|cookies|] == cookies;
      cookies := kept;
    }

    /** `parsed` is None when the header has no name; the result is what has to be persisted. */
    method AddSetCookie(parsed: Option<Cookie>, now: nat) returns (stored: Option<Cookie>)
      requires Valid()
      modifies this
      ensures Valid()
      ensures parsed.None? ==> history == old(history) && stored.None?
      ensures parsed.Some? ==> history == old(history) + [SetCookie(parsed.value, now)]
      ensures parsed.Some? ==>
                stored == if parsed.value.expiresAt.Some? && parsed.value.expiresAt.value <= now then None else parsed
    {
      if parsed.None? {
        return None;
      }
      var cookie := parsed.value;
      var e := SetCookie(cookie, now);
      RetainNotKilled(e);
      history := history + [e];
      assert history[..|history| - 1] == old(history);
      if !Unexpired(cookie, now) {
        return None;
      }
      cookies := cookies + [cookie];
      stored := Some(cookie);
    }

    /** `retain` over the vector, keeping what has not expired. */
    method RetainUnexpired(now: nat)
      modifies this`cookies
      ensures cookies == KeepUnexpired(old(cookies), now)
    {
      var kept: seq<Cookie> := [];
      for i := 0 to |cookies|
        invariant cookies == old(cookies) && kept == KeepUnexpired(cookies[..i], now)
      {
        assert cookies[..i + 1][..i] == cookies[..i];
        if Unexpired(cookies[i], now) {
          kept := kept + [cookies[i]];
        }
      }
      assert cookies[..|cookies|] == cookies;
      cookies := kept;
    }

    method CollectMatching(host: string, path: string) returns (matched: seq<string>)
      ensures matched == MatchingPairs(cookies, host, path)
      ensures |matched| == |Chosen(cookies, host, path)|
      ensures forall i :: 0 <= i < |matched| ==>
                var c := Chosen(cookies, host, path)[i];
                matched[i] == c.name + "=" + c.value
    {
      PairsAreChosen(cookies, host, path);
      matched := [];
      for i := 0 to |cookies|
        invariant matched == MatchingPairs(cookies[..i], host, path)
      {
        assert cookies[..i + 1][..i] == cookies[..i];
        if Matches(cookies[i], host, path) {
          matched := matched + [cookies[i].name + "=" + cookies[i].value];
        }
      }
      assert cookies[..|cookies|] == cookies;
    }

    method BuildCookieHeader(host: string, path: string, now: nat) returns (header: Option<string>)
      requires Valid()
      modifies this
      ensures Valid() && history == old(history) + [Build(now)]
      ensures header == Header(cookies, host, path)
      ensures Times(old(history), now) ==>
                header == HeaderText(Chosen(Survivors(old(history), |old(history)|, now), host, path))
    {
      if Times(history, now) {
        HeaderListsCookiesInForce(history, now, host, path);
      }
      RetainUnexpired(now);
      history := history + [Build(now)];
      assert history[..|history| - 1] == old(history);
      if cookies == [] {
        return None;
      }
      var matched := CollectMatching(host, path);
      header := if matched == [] then None else Some(Join(matched, "; "));
    }
  }
}

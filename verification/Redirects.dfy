/**
 * One request's exchanges (src/net/client.cpp, Jar and Client::Impl::run): the
 * cookies of a redirect chain and the redirect loop. The transport's answers,
 * the cancel flag and URL resolution are parameters; headers come split up.
 */
module Redirects {
  import opened Wrappers

  // ---- Names and hosts ----

  function LowerChar(c: char): char { if 'A' <= c <= 'Z' then c - 'A' + 'a' else c }

  predicate IEquals(a: string, b: string)
  {
    |a| == |b| && forall i :: 0 <= i < |a| ==> LowerChar(a[i]) == LowerChar(b[i])
  }

  function AsciiLower(s: string): string { seq(|s|, i requires 0 <= i < |s| => LowerChar(s[i])) }

  /** Names are compared without regard to the case of ASCII letters. */
  lemma IEqualsIs(a: string, b: string)
    ensures IEquals(a, b) <==>
              |a| == |b| && forall i :: 0 <= i < |a| ==>
                a[i] == b[i] || ('A' <= a[i] <= 'Z' && b[i] as int == a[i] as int + 32) || ('A' <= b[i] <= 'Z' && a[i] as int == b[i] as int + 32)
  {
  }

  /** The last '.' among the first `n` characters; -1 when there is none. */
  function LastDot(host: string, n: nat): (i: int)
    requires n <= |host|
    ensures -1 <= i < n && (i >= 0 ==> host[i] == '.')
    ensures forall j :: i < j < n ==> host[j] != '.'
  {
    if n == 0 then -1 else if host[n - 1] == '.' then n - 1 else LastDot(host, n - 1)
  }

  function SiteOf(host: string): string
  {
    var last := LastDot(host, |host|);
    if last <= 0 then host
    else
      var prev := LastDot(host, last);
      if prev < 0 then host else host[prev + 1..]
  }

  predicate DomainMatches(host: string, domain: string, hostOnly: bool)
  {
    if hostOnly then host == domain
    else
      || host == domain
      || (|host| > |domain| && host[|host| - |domain|..] == domain && host[|host| - |domain| - 1] == '.')
  }

  lemma SiteMatches(host: string)
    ensures DomainMatches(host, SiteOf(host), false)
  {
  }

  // ---- Labels ----

  /** A host split at its dots. */
  function Labels(s: string): (r: seq<string>)
    ensures |r| > 0
  {
    if s == "" then [""]
    else
      var n := |s| - 1;
      Pushed(Labels(s[..n]), s[n])
  }

  function Pushed(r: seq<string>, c: char): (ls: seq<string>)
    requires |r| > 0
    ensures |ls| > 0
  {
    if c == '.' then r + [""] else r[..|r| - 1] + [r[|r| - 1] + [c]]
  }

  predicate SuffixOf(a: seq<string>, b: seq<string>) { |a| <= |b| && b[|b| - |a|..] == a }

  function LastTwo(ls: seq<string>): seq<string> { if |ls| <= 2 then ls else ls[|ls| - 2..] }

  /** The host is the domain's own when the cookie is for it alone, else its labels end with the domain's. */
  predicate Within(host: string, domain: string, hostOnly: bool)
  {
    if hostOnly then host == domain else SuffixOf(Labels(domain), Labels(host))
  }

  lemma LabelsPush(s: string, c: char)
    ensures Labels(s + [c]) == Pushed(Labels(s), c)
  {
    assert (s + [c])[..|s|] == s;
  }

  lemma {:induction false} NoDotsOneLabel(s: string)
    requires forall j :: 0 <= j < |s| ==> s[j] != '.'
    ensures Labels(s) == [s]
  {
    if s == "" {
    } else {
      NoDotsOneLabel(s[..|s| - 1]);
      assert s == s[..|s| - 1] + [s[|s| - 1]];
    }
  }

  lemma Regroup<T>(a: seq<T>, b: seq<T>, c: seq<T>)
    ensures a + b + c == a + (b + c)
  {
  }

  lemma PushedToBoth(x: seq<string>, y: seq<string>, c: char)
    requires y != []
    ensures Pushed(x + y, c) == x + Pushed(y, c)
  {
    var z := x + y;
    assert z[..|z| - 1] == x + y[..|y| - 1] && z[|z| - 1] == y[|y| - 1];
  }

  lemma LabelsAt(host: string, i: nat)
    requires i < |host| && host[i] == '.'
    ensures Labels(host) == Labels(host[..i]) + Labels(host[i + 1..])
  {
    hide Labels;
    LabelsSplit(host[..i], host[i + 1..]);
    assert host == host[..i] + "." + host[i + 1..];
  }

  lemma LabelsSplit(a: string, b: string)
    ensures Labels(a + "." + b) == Labels(a) + Labels(b)
  {
    LabelsPush(a, '.');
    assert a + "." == a + ['.'];
    LabelsAfter(a + ".", Labels(a), b);
  }

  lemma {:induction false} LabelsAfter(h: string, ls: seq<string>, b: string)
    requires Labels(h) == ls + [""]
    ensures Labels(h + b) == ls + Labels(b)
  {
    if b == "" {
      assert h + b == h;
    } else {
      var b1, c := b[..|b| - 1], b[|b| - 1];
      LabelsAfter(h, ls, b1);
      hide Labels, Pushed;
      LabelsPush(h + b1, c);
      LabelsPush(b1, c);
      assert b == b1 + [c];
      Regroup(h, b1, [c]);
      PushedToBoth(ls, Labels(b1), c);
    }
  }

  /** Only the empty host has nothing but an empty label. */
  lemma OneEmptyLabel(s: string)
    requires s != ""
    ensures Labels(s) != [""]
  {
    hide Labels;
    LastPart(s);
  }

  lemma SuffixPush(a: seq<string>, b: seq<string>, x: string, y: string)
    ensures SuffixOf(a + [x], b + [y]) <==> x == y && SuffixOf(a, b)
  {
    if |a| <= |b| {
      assert (b + [y])[|b| - |a|..] == b[|b| - |a|..] + [y];
      if SuffixOf(a + [x], b + [y]) {
        assert (a + [x])[|a|] == x && (b[|b| - |a|..] + [y])[|a|] == y;
        assert (a + [x])[..|a|] == a && (b[|b| - |a|..] + [y])[..|a|] == b[|b| - |a|..];
      }
    }
  }

  /** The test on characters is the one on labels. */
  lemma {:induction false} MatchesByLabel(host: string, domain: string)
    ensures DomainMatches(host, domain, false) <==> SuffixOf(Labels(domain), Labels(host))
    decreases |domain|
  {
    hide SuffixOf;
    var h, d := Labels(host), Labels(domain);
    if domain == "" {
      LastLabelEmpty(host);
    } else if host == "" {
      NotInEmpty(domain);
    } else {
      var m, n := |host| - 1, |domain| - 1;
      var h1, d1 := Labels(host[..m]), Labels(domain[..n]);
      var x, y := d[|d| - 1], h[|h| - 1];
      assert h == h[..|h| - 1] + [y] && d == d[..|d| - 1] + [x];
      SuffixPush(d[..|d| - 1], h[..|h| - 1], x, y);
      SuffixPush(d1[..|d1| - 1], h1[..|h1| - 1], d1[|d1| - 1], h1[|h1| - 1]);
      assert h1 == h1[..|h1| - 1] + [h1[|h1| - 1]] && d1 == d1[..|d1| - 1] + [d1[|d1| - 1]];
      MatchesByLabel(host[..m], domain[..n]);
      MatchesWithout(host, domain);
      LastPart(host);
      LastPart(domain);
      if domain[n] != '.' && host[m] != '.' { SameEnds(d1[|d1| - 1], domain[n], h1[|h1| - 1], host[m]); }
    }
  }

  lemma LastPart(s: string)
    requires s != ""
    ensures var n, r, r1 := |s| - 1, Labels(s), Labels(s[..|s| - 1]);
            if s[n] == '.' then r[..|r| - 1] == r1 && r[|r| - 1] == ""
            else r[..|r| - 1] == r1[..|r1| - 1] && r[|r| - 1] == r1[|r1| - 1] + [s[n]]
  {
  }

  lemma SameEnds(a: string, c: char, b: string, d: char)
    ensures a + [c] == b + [d] <==> a == b && c == d
  {
    if a + [c] == b + [d] {
      assert (a + [c])[|a|] == (b + [d])[|b|] && a == (a + [c])[..|a|] == (b + [d])[..|b|] == b;
    }
  }

  lemma LastLabelEmpty(host: string)
    ensures DomainMatches(host, "", false) <==> SuffixOf(Labels(""), Labels(host))
  {
    var h := Labels(host);
    assert h[|h| - 1..] == [h[|h| - 1]];
    if host != "" { LastPart(host); }
  }

  lemma NotInEmpty(domain: string)
    requires domain != ""
    ensures !DomainMatches("", domain, false) && !SuffixOf(Labels(domain), Labels(""))
  {
    if SuffixOf(Labels(domain), Labels("")) {
      assert [""][0..] == [""];
      OneEmptyLabel(domain);
    }
  }

  lemma MatchesWithout(host: string, domain: string)
    requires host != "" && domain != ""
    ensures DomainMatches(host, domain, false) <==>
              host[|host| - 1] == domain[|domain| - 1] && DomainMatches(host[..|host| - 1], domain[..|domain| - 1], false)
  {
    var m, n := |host| - 1, |domain| - 1;
    assert host == host[..m] + [host[m]] && domain == domain[..n] + [domain[n]];
    if |host| > |domain| {
      assert host[|host| - |domain|..] == host[..m][m - n..] + [host[m]];
      SameEnds(host[..m][m - n..], host[m], domain[..n], domain[n]);
    }
  }

  lemma MatchesIs(host: string, domain: string, hostOnly: bool)
    ensures DomainMatches(host, domain, hostOnly) <==> Within(host, domain, hostOnly)
  {
    hide SuffixOf;
    if !hostOnly { MatchesByLabel(host, domain); }
  }

  lemma TwoDots(host: string, i: nat, j: nat)
    requires i < j < |host| && host[i] == '.' && host[j] == '.'
    ensures Labels(host) == Labels(host[..i]) + Labels(host[i + 1..j]) + Labels(host[j + 1..])
    ensures Labels(host[i + 1..]) == Labels(host[i + 1..j]) + Labels(host[j + 1..])
  {
    hide Labels;
    LabelsAt(host, j);
    assert host[..j][..i] == host[..i] && host[..j][i + 1..] == host[i + 1..j];
    LabelsAt(host[..j], i);
    var rest := host[i + 1..];
    assert rest[..j - i - 1] == host[i + 1..j] && rest[j - i..] == host[j + 1..];
    LabelsAt(rest, j - i - 1);
  }

  /** A host's site is its last two labels; it is the host itself when there are no more. */
  lemma SiteIsLastTwo(host: string)
    ensures Labels(SiteOf(host)) == LastTwo(Labels(host))
    ensures |Labels(host)| <= 2 ==> SiteOf(host) == host
  {
    hide Labels;
    var last := LastDot(host, |host|);
    if last < 0 {
      NoDotsOneLabel(host);
    } else {
      LabelsAt(host, last);
      NoDotsOneLabel(host[last + 1..]);
      var prev := LastDot(host, last);
      if prev < 0 {
        NoDotsOneLabel(host[..last]);
      } else {
        TwoDots(host, prev, last);
        NoDotsOneLabel(host[prev + 1..last]);
        var front, mid, tail := Labels(host[..prev]), host[prev + 1..last], host[last + 1..];
        Regroup(front, [mid], [tail]);
        assert (front + [mid, tail])[|front|..] == [mid, tail];
      }
    }
  }

  // ---- Cookies ----

  datatype Cookie = Cookie(name: string, value: string, domain: string, hostOnly: bool)

  datatype Attr = Domain(v: string) | MaxAge(v: string) | Other

  datatype SetCookie = SetCookie(name: string, value: string, attrs: seq<Attr>)

  /** A cookie is known by its name and its domain. */
  predicate Same(c: Cookie, name: string, domain: string) { c.name == name && c.domain == domain }

  ghost predicate Single(cookies: seq<Cookie>)
  {
    forall i, j :: 0 <= i < j < |cookies| ==> !Same(cookies[i], cookies[j].name, cookies[j].domain)
  }

  /** Where the cookie of that name and domain is, at `i` or later; |cookies| when there is none. */
  function PlaceOf(cookies: seq<Cookie>, name: string, domain: string, i: nat): (k: nat)
    requires i <= |cookies|
    ensures i <= k <= |cookies| && (k < |cookies| ==> Same(cookies[k], name, domain))
    ensures forall j :: i <= j < k ==> !Same(cookies[j], name, domain)
    decreases |cookies| - i
  {
    if i == |cookies| || Same(cookies[i], name, domain) then i else PlaceOf(cookies, name, domain, i + 1)
  }

  function WithCookie(cookies: seq<Cookie>, c: Cookie): seq<Cookie>
  {
    var k := PlaceOf(cookies, c.name, c.domain, 0);
    if k < |cookies| then cookies[k := c] else cookies + [c]
  }

  function WithoutCookie(cookies: seq<Cookie>, name: string, domain: string): seq<Cookie>
  {
    var k := PlaceOf(cookies, name, domain, 0);
    if k < |cookies| then cookies[..k] + cookies[k + 1..] else cookies
  }

  /** Setting a cookie replaces the one of its name and domain and leaves every other. */
  lemma WithCookieIs(cookies: seq<Cookie>, c: Cookie)
    requires Single(cookies)
    ensures Single(WithCookie(cookies, c))
    ensures forall x :: x in WithCookie(cookies, c) <==> x == c || (x in cookies && !Same(x, c.name, c.domain))
  {
    var k, r := PlaceOf(cookies, c.name, c.domain, 0), WithCookie(cookies, c);
    assert r[k] == c;
    forall x | x in cookies && !Same(x, c.name, c.domain) ensures x in r {
      var i :| 0 <= i < |cookies| && cookies[i] == x;
      assert r[i] == x;
    }
    forall x | x in r && x != c ensures x in cookies && !Same(x, c.name, c.domain) {
      var i :| 0 <= i < |r| && r[i] == x;
      assert i != k && cookies[i] == x;
    }
  }

  /** Erasing takes out the cookie of that name and domain and leaves every other. */
  lemma WithoutCookieIs(cookies: seq<Cookie>, name: string, domain: string)
    requires Single(cookies)
    ensures Single(WithoutCookie(cookies, name, domain))
    ensures forall x :: x in WithoutCookie(cookies, name, domain) <==> x in cookies && !Same(x, name, domain)
  {
    var k := PlaceOf(cookies, name, domain, 0);
    if k < |cookies| {
      var a, b := cookies[..k], cookies[k + 1..];
      SingleWithout(cookies, k);
      assert cookies == a + [cookies[k]] + b;
      forall x | x in a ensures !Same(x, name, domain) { var i :| 0 <= i < k && a[i] == x; }
      forall x | x in b ensures !Same(x, name, domain) {
        var i :| 0 <= i < |b| && b[i] == x;
        assert cookies[k + 1 + i] == x && !Same(cookies[k], x.name, x.domain);
      }
      hide Single, PlaceOf;
      assert forall x :: x in cookies <==> x in a || x == cookies[k] || x in b;
      assert forall x :: x in a + b <==> x in a || x in b;
    }
  }

  lemma SingleWithout(cookies: seq<Cookie>, k: nat)
    requires Single(cookies) && k < |cookies|
    ensures Single(cookies[..k] + cookies[k + 1..])
  {
    var r := cookies[..k] + cookies[k + 1..];
    forall i, j | 0 <= i < j < |r| ensures !Same(r[i], r[j].name, r[j].domain) {
      assert r[i] == cookies[if i < k then i else i + 1] && r[j] == cookies[if j < k then j else j + 1];
    }
  }

  /** A Domain attribute's domain, when `host` lies in it; none for a foreign one. */
  function OwnDomain(v: string, host: string): Option<string>
  {
    if v == "" then None
    else
      var d := AsciiLower(if v[0] == '.' then v[1..] else v);
      if DomainMatches(host, d, false) then Some(d) else None
  }

  /** The cookie's domain and whether it is for the host alone: the last Domain attribute that is not foreign. */
  function Scope(attrs: seq<Attr>, host: string): (r: (string, bool))
    ensures DomainMatches(host, r.0, r.1)
    ensures r.1 ==> r.0 == host
  {
    if attrs == [] then (host, true)
    else
      var n := |attrs| - 1;
      if attrs[n].Domain? && OwnDomain(attrs[n].v, host).Some? then (OwnDomain(attrs[n].v, host).value, false)
      else Scope(attrs[..n], host)
  }

  /** The last Max-Age decides. */
  predicate Expired(attrs: seq<Attr>)
  {
    attrs != [] &&
    var n := |attrs| - 1;
    if attrs[n].MaxAge? then attrs[n].v != "" && (attrs[n].v[0] == '-' || attrs[n].v == "0") else Expired(attrs[..n])
  }

  /** The last Domain attribute that is not foreign gives the domain, written small and without its dot; else the host alone. */
  lemma {:induction false} ScopeIs(attrs: seq<Attr>, host: string)
    ensures (forall i :: 0 <= i < |attrs| ==> !GivesDomain(attrs[i], host)) ==> Scope(attrs, host) == (host, true)
    ensures forall i ::
      (0 <= i < |attrs| && GivesDomain(attrs[i], host) && forall j :: i < j < |attrs| ==> !GivesDomain(attrs[j], host))
      ==> Scope(attrs, host) == (OwnDomain(attrs[i].v, host).value, false)
  {
    if attrs == [] {
    } else {
      var n := |attrs| - 1;
      var before := attrs[..n];
      ScopeIs(before, host);
      ScopeStep(attrs, host);
      hide Scope, OwnDomain, GivesDomain;
      assert forall j :: 0 <= j < n ==> before[j] == attrs[j];
    }
  }

  predicate GivesDomain(a: Attr, host: string) { a.Domain? && OwnDomain(a.v, host).Some? }

  lemma ScopeStep(attrs: seq<Attr>, host: string)
    requires attrs != []
    ensures var n := |attrs| - 1;
            Scope(attrs, host) == if GivesDomain(attrs[n], host) then (OwnDomain(attrs[n].v, host).value, false) else Scope(attrs[..n], host)
  {
    hide OwnDomain;
  }

  lemma OwnDomainIs(v: string, host: string)
    ensures var d := AsciiLower(if v != "" && v[0] == '.' then v[1..] else v);
            OwnDomain(v, host) == if v != "" && Within(host, d, false) then Some(d) else None
  {
    hide DomainMatches, Within;
    if v != "" { MatchesIs(host, AsciiLower(if v[0] == '.' then v[1..] else v), false); }
  }

  /** A cookie is to go when the last Max-Age is "0" or negative. */
  lemma {:induction false} ExpiredIs(attrs: seq<Attr>)
    ensures (forall i :: 0 <= i < |attrs| ==> !attrs[i].MaxAge?) ==> !Expired(attrs)
    ensures forall i ::
      (0 <= i < |attrs| && attrs[i].MaxAge? && forall j :: i < j < |attrs| ==> !attrs[j].MaxAge?)
      ==> (Expired(attrs) <==> attrs[i].v == "0" || (attrs[i].v != "" && attrs[i].v[0] == '-'))
  {
    if attrs == [] {
    } else {
      var n := |attrs| - 1;
      ExpiredIs(attrs[..n]);
      assert forall j :: 0 <= j < n ==> attrs[..n][j] == attrs[j];
    }
  }

  function CookieOf(sc: SetCookie, host: string): Cookie
  {
    Cookie(sc.name, sc.value, Scope(sc.attrs, host).0, Scope(sc.attrs, host).1)
  }

  /** The jar after one Set-Cookie header of a host's response. */
  function Taken(cookies: seq<Cookie>, sc: SetCookie, host: string): seq<Cookie>
  {
    if sc.name == "" then cookies
    else if Expired(sc.attrs) then WithoutCookie(cookies, sc.name, Scope(sc.attrs, host).0)
    else WithCookie(cookies, CookieOf(sc, host))
  }

  function AllTaken(cookies: seq<Cookie>, scs: seq<SetCookie>, host: string): seq<Cookie>
  {
    if scs == [] then cookies else Taken(AllTaken(cookies, scs[..|scs| - 1], host), scs[|scs| - 1], host)
  }

  function SeedOf(pair: (string, string), host: string): Cookie { Cookie(pair.0, pair.1, SiteOf(host), false) }

  function Seeded(pairs: seq<(string, string)>, host: string): seq<Cookie>
  {
    if pairs == [] then []
    else
      var n := |pairs| - 1;
      if pairs[n].0 == "" then Seeded(pairs[..n], host) else WithCookie(Seeded(pairs[..n], host), SeedOf(pairs[n], host))
  }

  function Matching(cookies: seq<Cookie>, host: string): seq<Cookie>
  {
    if cookies == [] then []
    else
      var n := |cookies| - 1;
      Matching(cookies[..n], host) + if DomainMatches(host, cookies[n].domain, cookies[n].hostOnly) then [cookies[n]] else []
  }

  lemma {:induction false} MatchingIs(cookies: seq<Cookie>, host: string)
    ensures forall c :: c in Matching(cookies, host) <==> c in cookies && Within(host, c.domain, c.hostOnly)
  {
    hide DomainMatches, Within;
    if cookies == [] {
      assert Matching(cookies, host) == [];
    } else {
      var n := |cookies| - 1;
      assert cookies == cookies[..n] + [cookies[n]];
      MatchingIs(cookies[..n], host);
      MatchesIs(host, cookies[n].domain, cookies[n].hostOnly);
    }
  }

  class Jar {
    var cookies: seq<Cookie>

    constructor ()
      ensures cookies == []
    {
      cookies := [];
    }

    method Set(name: string, value: string, domain: string, hostOnly: bool)
      requires Single(cookies)
      modifies this
      ensures cookies == WithCookie(old(cookies), Cookie(name, value, domain, hostOnly)) && Single(cookies)
      ensures forall c :: c in cookies <==>
                c == Cookie(name, value, domain, hostOnly) || (c in old(cookies) && !Same(c, name, domain))
    {
      hide Single;
      WithCookieIs(cookies, Cookie(name, value, domain, hostOnly));
      var i: nat := 0;
      while i < |cookies|
        invariant i <= |cookies| && cookies == old(cookies)
        invariant PlaceOf(cookies, name, domain, 0) == PlaceOf(cookies, name, domain, i)
      {
        if cookies[i].name == name && cookies[i].domain == domain {
          cookies := cookies[i := Cookie(name, value, domain, hostOnly)];
          return;
        }
        i := i + 1;
      }
      cookies := cookies + [Cookie(name, value, domain, hostOnly)];
    }

    method Erase(name: string, domain: string)
      requires Single(cookies)
      modifies this
      ensures cookies == WithoutCookie(old(cookies), name, domain) && Single(cookies)
      ensures forall c :: c in cookies <==> c in old(cookies) && !Same(c, name, domain)
    {
      hide Single;
      WithoutCookieIs(cookies, name, domain);
      var i: nat := 0;
      while i < |cookies|
        invariant i <= |cookies| && cookies == old(cookies)
        invariant PlaceOf(cookies, name, domain, 0) == PlaceOf(cookies, name, domain, i)
      {
        if cookies[i].name == name && cookies[i].domain == domain {
          cookies := cookies[..i] + cookies[i + 1..];
          return;
        }
        i := i + 1;
      }
    }

    /** The caller's own cookies, kept for the request's site. */
    method Seed(pairs: seq<(string, string)>, host: string)
      requires cookies == []
      modifies this
      ensures cookies == Seeded(pairs, host) && Single(cookies)
    {
      hide Single, SiteOf;
      NoCookies();
      var i: nat := 0;
      while i < |pairs|
        invariant i <= |pairs| && cookies == Seeded(pairs[..i], host) && Single(cookies)
      {
        assert pairs[..i + 1][..i] == pairs[..i];
        if pairs[i].0 != "" { Set(pairs[i].0, pairs[i].1, SiteOf(host), false); }
        i := i + 1;
      }
      assert pairs[..i] == pairs;
    }

    /**
     * One Set-Cookie header of `host`'s response: at most one cookie is set or
     * erased, and never for a domain that `host` does not lie in.
     */
    method Take(sc: SetCookie, host: string)
      requires Single(cookies)
      modifies this
      ensures cookies == Taken(old(cookies), sc, host) && Single(cookies)
      ensures forall c :: c in cookies && c !in old(cookies) ==>
                c.name == sc.name && c.value == sc.value && Within(host, c.domain, c.hostOnly)
      ensures forall c :: c in old(cookies) && c !in cookies ==> c.name == sc.name && Within(host, c.domain, false)
      ensures sc.name != "" && !Expired(sc.attrs) ==> CookieOf(sc, host) in cookies
      ensures sc.name != "" && Expired(sc.attrs) ==> forall c :: c in cookies ==> !Same(c, sc.name, Scope(sc.attrs, host).0)
    {
      hide Single, DomainMatches, WithCookie, WithoutCookie, Within;
      if sc.name == "" { return; }
      var domain, hostOnly, expired := host, true, false;
      var i: nat := 0;
      while i < |sc.attrs|
        invariant i <= |sc.attrs| && cookies == old(cookies)
        invariant (domain, hostOnly) == Scope(sc.attrs[..i], host) && expired == Expired(sc.attrs[..i])
      {
        assert sc.attrs[..i + 1][..i] == sc.attrs[..i];
        match sc.attrs[i] {
          case Domain(v0) =>
            if v0 != "" {
              var d := AsciiLower(if v0[0] == '.' then v0[1..] else v0);
              if DomainMatches(host, d, false) { domain, hostOnly := d, false; }
            }
          case MaxAge(v) => expired := v != "" && (v[0] == '-' || v == "0");
          case Other =>
        }
        i := i + 1;
      }
      assert sc.attrs[..i] == sc.attrs;
      ScopeInHost(sc.attrs, host);
      MatchesIs(host, domain, hostOnly);
      MatchesIs(host, domain, false);
      if expired { Erase(sc.name, domain); } else { Set(sc.name, sc.value, domain, hostOnly); }
    }

    /** The cookies a host is sent. */
    method For(host: string) returns (r: seq<Cookie>)
      ensures r == Matching(cookies, host)
      ensures forall c :: c in r <==> c in cookies && Within(host, c.domain, c.hostOnly)
    {
      hide DomainMatches, Within;
      r := [];
      var i: nat := 0;
      while i < |cookies|
        invariant i <= |cookies| && r == Matching(cookies[..i], host)
      {
        assert cookies[..i + 1][..i] == cookies[..i];
        if DomainMatches(host, cookies[i].domain, cookies[i].hostOnly) { r := r + [cookies[i]]; }
        i := i + 1;
      }
      assert cookies[..i] == cookies;
      MatchingIs(cookies, host);
    }
  }

  lemma NoCookies()
    ensures Single([])
  {
  }

  lemma ScopeInHost(attrs: seq<Attr>, host: string)
    ensures DomainMatches(host, Scope(attrs, host).0, false)
  {
  }

  // ---- Requests ----

  datatype Header = Header(name: string, value: string)

  datatype Url = Url(scheme: string, host: string, path: string)

  datatype Request = Request(verb: string, headers: seq<Header>, body: string, maxRedirects: int)

  datatype Response = Response(status: int, error: string, location: string, setCookies: seq<SetCookie>)

  /** What goes out on one hop: the request's headers, and the cookies in a header of their own. */
  datatype Exchange = Exchange(url: Url, verb: string, headers: seq<Header>, body: string, cookies: seq<Cookie>)

  predicate Named(headers: seq<Header>, name: string)
  {
    exists i :: 0 <= i < |headers| && IEquals(headers[i].name, name)
  }

  /** Drops the headers of that name, in place. */
  method EraseNamed(headers0: seq<Header>, name: string) returns (headers: seq<Header>)
    ensures !Named(headers, name)
    ensures forall h :: h in headers <==> h in headers0 && !IEquals(h.name, name)
    ensures forall other :: Named(headers, other) ==> Named(headers0, other)
  {
    headers := headers0;
    var i: nat := 0;
    while i < |headers|
      invariant i <= |headers|
      invariant forall j :: 0 <= j < i ==> !IEquals(headers[j].name, name)
      invariant forall h :: h in headers ==> h in headers0
      invariant forall h :: h in headers0 && !IEquals(h.name, name) ==> h in headers
      decreases |headers| - i
    {
      if IEquals(headers[i].name, name) {
        assert headers == headers[..i] + [headers[i]] + headers[i + 1..];
        headers := headers[..i] + headers[i + 1..];
      } else {
        i := i + 1;
      }
    }
    forall other | Named(headers, other) ensures Named(headers0, other) {
      var k :| 0 <= k < |headers| && IEquals(headers[k].name, other);
      assert headers[k] in headers0;
    }
  }

  predicate Redirecting(r: Response)
  {
    r.error == "" && 300 <= r.status < 400 && r.status != 304 && r.location != ""
  }

  /** What browsers turn into a GET. */
  predicate BecomesGet(r: Response, verb: string)
  {
    r.status == 303 || ((r.status == 301 || r.status == 302) && verb == "POST")
  }

  function Hops(maxRedirects: int): nat { if maxRedirects <= 0 then 1 else maxRedirects + 1 }

  /** No hop at or after a foreign host carries credentials. */
  ghost predicate CredentialsStay(sent: seq<Exchange>, firstHost: string)
  {
    forall i, j :: 0 <= i <= j < |sent| && sent[i].url.host != firstHost ==> !Named(sent[j].headers, "authorization")
  }

  /** The jar before the next hop: the caller's cookies, and then each answer's, in order. */
  function JarAfter(first: Url, seeds: seq<(string, string)>, sent: seq<Exchange>, got: seq<Response>): seq<Cookie>
    requires |got| == |sent|
  {
    if sent == [] then Seeded(seeds, first.host)
    else
      var n := |sent| - 1;
      AllTaken(JarAfter(first, seeds, sent[..n], got[..n]), got[n].setCookies, sent[n].url.host)
  }

  /** The caller gave the cookie; it is kept for the last two labels of the host the request goes to. */
  ghost predicate FromCaller(c: Cookie, first: Url, seeds: seq<(string, string)>)
  {
    && Labels(c.domain) == LastTwo(Labels(first.host)) && !c.hostOnly
    && exists k :: 0 <= k < |seeds| && c == SeedOf(seeds[k], first.host)
  }

  /** Exchange `j`'s answer set the cookie: in its own name and value, for a domain that its host lies in. */
  ghost predicate FromAnswer(c: Cookie, x: Exchange, r: Response)
  {
    && Within(x.url.host, c.domain, c.hostOnly)
    && exists k :: 0 <= k < |r.setCookies| && c.name == r.setCookies[k].name && c.value == r.setCookies[k].value && c == CookieOf(r.setCookies[k], x.url.host) && !Expired(r.setCookies[k].attrs)
  }

  ghost predicate Provenance(c: Cookie, first: Url, seeds: seq<(string, string)>, sent: seq<Exchange>, got: seq<Response>)
    requires |got| == |sent|
  {
    FromCaller(c, first, seeds) || exists j :: 0 <= j < |sent| && FromAnswer(c, sent[j], got[j])
  }

  /**
   * Each hop sends the jar's cookies that match its host, and each of them is
   * the caller's or was set by an earlier answer from a host in its domain.
   */
  ghost predicate CookiesStay(first: Url, seeds: seq<(string, string)>, sent: seq<Exchange>, got: seq<Response>)
    requires |got| == |sent|
  {
    forall i :: 0 <= i < |sent| ==> CookiesAt(first, seeds, sent[..i], got[..i], sent[i])
  }

  ghost predicate CookiesAt(first: Url, seeds: seq<(string, string)>, sent: seq<Exchange>, got: seq<Response>, x: Exchange)
    requires |got| == |sent|
  {
    && x.cookies == Matching(JarAfter(first, seeds, sent, got), x.url.host)
    && forall c :: c in x.cookies ==> Within(x.url.host, c.domain, c.hostOnly) && Provenance(c, first, seeds, sent, got)
  }

  lemma {:induction false} SeededFrom(pairs: seq<(string, string)>, first: Url, c: Cookie)
    requires c in Seeded(pairs, first.host)
    ensures Single(Seeded(pairs, first.host)) && FromCaller(c, first, pairs)
  {
    hide SiteOf, Labels;
    SeededSingle(pairs, first.host);
    SiteIsLastTwo(first.host);
    if pairs == [] {
      assert false;
    } else {
      var n := |pairs| - 1;
      SeededSingle(pairs[..n], first.host);
      WithCookieIs(Seeded(pairs[..n], first.host), SeedOf(pairs[n], first.host));
      if c in Seeded(pairs[..n], first.host) {
        SeededFrom(pairs[..n], first, c);
        var k :| 0 <= k < n && c == SeedOf(pairs[..n][k], first.host);
        assert c == SeedOf(pairs[k], first.host);
      }
    }
  }

  lemma {:induction false} SeededSingle(pairs: seq<(string, string)>, host: string)
    ensures Single(Seeded(pairs, host))
  {
    hide SiteOf;
    if pairs == [] {
      NoCookies();
    } else {
      var n := |pairs| - 1;
      SeededSingle(pairs[..n], host);
      WithCookieIs(Seeded(pairs[..n], host), SeedOf(pairs[n], host));
    }
  }

  lemma TakenIs(cookies: seq<Cookie>, sc: SetCookie, host: string)
    requires Single(cookies)
    ensures Single(Taken(cookies, sc, host))
    ensures forall c :: c in Taken(cookies, sc, host) && c !in cookies ==> c == CookieOf(sc, host) && !Expired(sc.attrs)
  {
    hide Single, WithCookie, WithoutCookie, Scope;
    WithoutCookieIs(cookies, sc.name, Scope(sc.attrs, host).0);
    WithCookieIs(cookies, CookieOf(sc, host));
  }

  lemma {:induction false} AllTakenFrom(cookies: seq<Cookie>, scs: seq<SetCookie>, host: string)
    requires Single(cookies)
    ensures Single(AllTaken(cookies, scs, host))
    ensures forall c :: c in AllTaken(cookies, scs, host) && c !in cookies ==>
              exists k :: 0 <= k < |scs| && c == CookieOf(scs[k], host) && !Expired(scs[k].attrs)
  {
    hide Single, Taken, Scope, Expired;
    if scs == [] {
      assert AllTaken(cookies, scs, host) == cookies;
    } else {
      var n := |scs| - 1;
      var before := AllTaken(cookies, scs[..n], host);
      AllTakenFrom(cookies, scs[..n], host);
      TakenIs(before, scs[n], host);
      forall c | c in AllTaken(cookies, scs, host) && c !in cookies
        ensures exists k :: 0 <= k < |scs| && c == CookieOf(scs[k], host) && !Expired(scs[k].attrs)
      {
        if c in before {
          var k :| 0 <= k < n && c == CookieOf(scs[..n][k], host) && !Expired(scs[..n][k].attrs);
          assert c == CookieOf(scs[k], host) && !Expired(scs[k].attrs);
        } else {
          assert c == CookieOf(scs[n], host);
        }
      }
    }
  }

  /** Every cookie in the jar is the caller's or was set by an answer whose host lies in its domain. */
  lemma {:induction false} JarProvenance(first: Url, seeds: seq<(string, string)>, sent: seq<Exchange>, got: seq<Response>)
    requires |got| == |sent|
    ensures Single(JarAfter(first, seeds, sent, got))
    ensures forall c :: c in JarAfter(first, seeds, sent, got) ==> Provenance(c, first, seeds, sent, got)
    decreases |sent|
  {
    hide Single, FromCaller, DomainMatches, Seeded, AllTaken, FromAnswer;
    var jar := JarAfter(first, seeds, sent, got);
    if sent == [] {
      SeededSingle(seeds, first.host);
      forall c | c in jar ensures Provenance(c, first, seeds, sent, got) { SeededFrom(seeds, first, c); }
    } else {
      var n := |sent| - 1;
      var before := JarAfter(first, seeds, sent[..n], got[..n]);
      JarProvenance(first, seeds, sent[..n], got[..n]);
      AllTakenFrom(before, got[n].setCookies, sent[n].url.host);
      forall c | c in jar ensures Provenance(c, first, seeds, sent, got) {
        if c in before {
          ProvenanceLasts(c, first, seeds, sent, got);
        } else {
          SetByAnswer(c, sent[n], got[n]);
        }
      }
    }
  }

  lemma ProvenanceLasts(c: Cookie, first: Url, seeds: seq<(string, string)>, sent: seq<Exchange>, got: seq<Response>)
    requires |got| == |sent| > 0 && Provenance(c, first, seeds, sent[..|sent| - 1], got[..|sent| - 1])
    ensures Provenance(c, first, seeds, sent, got)
  {
    hide FromCaller, FromAnswer;
    var n := |sent| - 1;
    if !FromCaller(c, first, seeds) {
      var j :| 0 <= j < n && FromAnswer(c, sent[..n][j], got[..n][j]);
      assert FromAnswer(c, sent[j], got[j]);
    }
  }

  lemma SetByAnswer(c: Cookie, x: Exchange, r: Response)
    requires exists k :: 0 <= k < |r.setCookies| && c == CookieOf(r.setCookies[k], x.url.host) && !Expired(r.setCookies[k].attrs)
    ensures FromAnswer(c, x, r)
  {
    hide DomainMatches, Expired, Within;
    MatchesIs(x.url.host, c.domain, c.hostOnly);
  }

  /** Each hop follows the answer before it. */
  ghost predicate Chained(sent: seq<Exchange>, got: seq<Response>, resolve: (Url, string) -> Option<Url>)
    requires |got| == |sent|
  {
    forall k :: 0 <= k < |sent| - 1 ==>
      && Redirecting(got[k])
      && resolve(sent[k].url, got[k].location) == Some(sent[k + 1].url)
      && (if BecomesGet(got[k], sent[k].verb)
          then sent[k + 1].verb == "GET" && sent[k + 1].body == "" && !Named(sent[k + 1].headers, "content-type")
          else sent[k + 1].verb == sent[k].verb && sent[k + 1].body == sent[k].body)
  }

  predicate Foreign(sent: seq<Exchange>, firstHost: string)
  {
    exists i :: 0 <= i < |sent| && sent[i].url.host != firstHost
  }

  /** The caller's credentials, unchanged. */
  ghost predicate SameCredentials(a: seq<Header>, b: seq<Header>)
  {
    forall h: Header :: IEquals(h.name, "authorization") ==> (h in a <==> h in b)
  }

  lemma CookiesStayMore(first: Url, seeds: seq<(string, string)>, sent: seq<Exchange>, got: seq<Response>, x: Exchange, r: Response)
    requires |got| == |sent| && CookiesStay(first, seeds, sent, got)
    requires x.cookies == Matching(JarAfter(first, seeds, sent, got), x.url.host)
    ensures CookiesStay(first, seeds, sent + [x], got + [r])
  {
    JarProvenance(first, seeds, sent, got);
    MatchingIs(JarAfter(first, seeds, sent, got), x.url.host);
    assert CookiesAt(first, seeds, sent, got, x);
    hide CookiesAt;
    var s, g := sent + [x], got + [r];
    forall i | 0 <= i < |s| ensures CookiesAt(first, seeds, s[..i], g[..i], s[i]) {
      if i < |sent| {
        assert s[..i] == sent[..i] && g[..i] == got[..i];
      } else {
        assert s[..i] == sent && g[..i] == got;
      }
    }
  }

  lemma CredentialsStayMore(sent: seq<Exchange>, x: Exchange, firstHost: string)
    requires CredentialsStay(sent, firstHost)
    requires Foreign(sent, firstHost) || x.url.host != firstHost ==> !Named(x.headers, "authorization")
    ensures CredentialsStay(sent + [x], firstHost)
  {
    hide Named;
    var r := sent + [x];
    forall i, j | 0 <= i <= j < |r| && r[i].url.host != firstHost ensures !Named(r[j].headers, "authorization") {
      if j == |sent| && i < j { assert sent[i].url.host != firstHost; }
    }
  }

  /** How hop `|sent|` follows from the one before. */
  ghost predicate Follows(sent: seq<Exchange>, got: seq<Response>, resolve: (Url, string) -> Option<Url>,
                          url: Url, verb: string, body: string, headers: seq<Header>)
    requires |got| == |sent|
  {
    sent != [] ==>
      var k := |sent| - 1;
      && Redirecting(got[k]) && resolve(sent[k].url, got[k].location) == Some(url)
      && (if BecomesGet(got[k], sent[k].verb)
          then verb == "GET" && body == "" && !Named(headers, "content-type")
          else verb == sent[k].verb && body == sent[k].body)
  }

  lemma ChainedMore(sent: seq<Exchange>, got: seq<Response>, resolve: (Url, string) -> Option<Url>, x: Exchange, r: Response)
    requires |got| == |sent| && Chained(sent, got, resolve)
    requires Follows(sent, got, resolve, x.url, x.verb, x.body, x.headers)
    ensures Chained(sent + [x], got + [r], resolve)
  {
    hide Named, Redirecting, BecomesGet;
    var s, g := sent + [x], got + [r];
    forall k | 0 <= k < |s| - 1
      ensures Redirecting(g[k]) && resolve(s[k].url, g[k].location) == Some(s[k + 1].url)
      ensures if BecomesGet(g[k], s[k].verb)
              then s[k + 1].verb == "GET" && s[k + 1].body == "" && !Named(s[k + 1].headers, "content-type")
              else s[k + 1].verb == s[k].verb && s[k + 1].body == s[k].body
    {
      assert s[k] == sent[k] && g[k] == got[k];
      if k < |sent| - 1 { assert s[k + 1] == sent[k + 1]; }
    }
  }

  /** How the loop may end: with the last answer, or with its own error after the last hop allowed. */
  predicate EndsWith(resp: Response, last: Response, hops: nat, maxRedirects: int)
  {
    || resp == last
    || (&& resp == last.(status := 0, error := "too_many_redirects") && Redirecting(last)
        && hops == maxRedirects + 1 && maxRedirects > 0)
  }

  /** What the exchanges so far keep. */
  ghost predicate Kept(sent: seq<Exchange>, got: seq<Response>, first: Url, req: Request, seeds: seq<(string, string)>,
                       perform: (nat, Exchange) -> Response, resolve: (Url, string) -> Option<Url>)
  {
    && |got| == |sent|
    && (forall k :: 0 <= k < |sent| ==> got[k] == perform(k, sent[k]))
    && CredentialsStay(sent, first.host) && CookiesStay(first, seeds, sent, got) && Chained(sent, got, resolve)
    && (forall k :: 0 <= k < |sent| && !Foreign(sent[..k + 1], first.host) ==> SameCredentials(sent[k].headers, req.headers))
    && (sent != [] ==> sent[0].url == first && sent[0].verb == req.verb && sent[0].body == req.body)
  }

  /** What the next hop is about to send. */
  ghost predicate Ready(sent: seq<Exchange>, got: seq<Response>, first: Url, req: Request, resolve: (Url, string) -> Option<Url>,
                        url: Url, verb: string, body: string, headers: seq<Header>)
    requires |got| == |sent|
  {
    && Follows(sent, got, resolve, url, verb, body, headers)
    && (if Foreign(sent, first.host) then !Named(headers, "authorization") else SameCredentials(headers, req.headers))
    && (sent == [] ==> url == first && verb == req.verb && body == req.body)
  }

  lemma AfterHop(sent: seq<Exchange>, got: seq<Response>, first: Url, req: Request, seeds: seq<(string, string)>,
                 perform: (nat, Exchange) -> Response, resolve: (Url, string) -> Option<Url>, was: seq<Header>, x: Exchange)
    requires Kept(sent, got, first, req, seeds, perform, resolve)
    requires Ready(sent, got, first, req, resolve, x.url, x.verb, x.body, was)
    requires if x.url.host == first.host then x.headers == was
             else !Named(x.headers, "authorization") && forall other :: Named(x.headers, other) ==> Named(was, other)
    requires x.cookies == Matching(JarAfter(first, seeds, sent, got), x.url.host)
    ensures Kept(sent + [x], got + [perform(|sent|, x)], first, req, seeds, perform, resolve)
    ensures Foreign(sent + [x], first.host) ==> !Named(x.headers, "authorization")
    ensures !Foreign(sent + [x], first.host) ==> SameCredentials(x.headers, req.headers)
  {
    hide Named, CookiesStay, CredentialsStay, Chained, SameCredentials, Foreign, BecomesGet, Redirecting, JarAfter, Matching;
    ChainedMore(sent, got, resolve, x, perform(|sent|, x));
    CredentialsSame(sent, x, first.host, req.headers);
    CredentialsStayMore(sent, x, first.host);
    CookiesStayMore(first, seeds, sent, got, x, perform(|sent|, x));
  }

  /** A redirect's next hop, after its rewriting of the request. */
  method Rewritten(ghost sent: seq<Exchange>, ghost got: seq<Response>, ghost first: Url, ghost req: Request,
                   ghost resolve: (Url, string) -> Option<Url>, ghost x: Exchange, r: Response,
                   ghost next: Url, verb0: string, body0: string, headers0: seq<Header>)
    returns (verb: string, body: string, headers: seq<Header>)
    requires |got| == |sent| > 0 && sent[|sent| - 1] == x && got[|got| - 1] == r
    requires x.verb == verb0 && x.body == body0 && x.headers == headers0
    requires Redirecting(r) && resolve(x.url, r.location) == Some(next)
    requires Foreign(sent, first.host) ==> !Named(x.headers, "authorization")
    requires !Foreign(sent, first.host) ==> SameCredentials(x.headers, req.headers)
    ensures Ready(sent, got, first, req, resolve, next, verb, body, headers)
  {
    hide Named, Foreign, IEquals;
    verb, body, headers := verb0, body0, headers0;
    if BecomesGet(r, verb) {
      verb, body := "GET", "";
      headers := EraseNamed(headers, "content-type");
      OtherNames();
    }
  }

  /** The request's headers without its cookies, which go into the jar, and with an agent. */
  method Prepared(req: Request, agent: string) returns (headers: seq<Header>)
    ensures SameCredentials(headers, req.headers) && !Named(headers, "cookie")
  {
    hide IEquals;
    headers := EraseNamed(req.headers, "cookie");
    OtherNames();
    AgentIsNoCookie();
    if !Named(headers, "user-agent") {
      ghost var was := headers;
      headers := headers + [Header("User-Agent", agent)];
      forall i | 0 <= i < |headers| ensures !IEquals(headers[i].name, "cookie") { assert i < |was| ==> headers[i] == was[i]; }
    }
  }

  lemma AgentIsNoCookie()
    ensures !IEquals("User-Agent", "cookie")
  {
  }

  /**
   * Sends a request and follows redirects. No more than maxRedirects + 1
   * exchanges; credentials go to the first host only, and not to it again once
   * another was visited; every cookie sent was the caller's or set by an earlier
   * answer from a host in its domain, and goes to hosts in its domain only.
   */
  method Run(first: Url, req: Request, seeds: seq<(string, string)>, agent: string,
             perform: (nat, Exchange) -> Response, cancelled: nat -> bool, resolve: (Url, string) -> Option<Url>)
    returns (resp: Option<Response>, sent: seq<Exchange>, got: seq<Response>)
    ensures Kept(sent, got, first, req, seeds, perform, resolve) && |sent| <= (if req.maxRedirects <= 0 then 1 else req.maxRedirects + 1)
    ensures forall i, c :: 0 <= i < |sent| && c in sent[i].cookies ==> Within(sent[i].url.host, c.domain, c.hostOnly)
    ensures forall k :: 0 <= k < |sent| - 1 ==> Followed(sent[k], got[k], sent[k + 1], resolve)
    ensures resp.None? ==> cancelled(|sent|)
    ensures resp.Some? ==> sent != [] && EndsWith(resp.value, got[|got| - 1], |sent|, req.maxRedirects)
    ensures resp.Some? && resp.value == got[|got| - 1] && Redirecting(resp.value) ==>
      req.maxRedirects <= 0 || resolve(sent[|sent| - 1].url, resp.value.location).None?
  {
    hide Named, DomainMatches, Single, CookiesStay, CredentialsStay, Chained, IEquals, Ready, Foreign, SameCredentials, BecomesGet, JarAfter, Matching,
      Seeded, AllTaken, Within, Followed;
    sent, got := [], [];
    var jar := new Jar();
    var url, verb, body := first, req.verb, req.body;
    jar.Seed(seeds, url.host);
    var headers := Prepared(req, agent);
    NothingSent(first, req, seeds, perform, resolve, headers);
    while true
      invariant Kept(sent, got, first, req, seeds, perform, resolve) && (sent == [] || |sent| <= req.maxRedirects)
      invariant Ready(sent, got, first, req, resolve, url, verb, body, headers)
      invariant fresh(jar) && jar.cookies == JarAfter(first, seeds, sent, got) && Single(jar.cookies)
      decreases Hops(req.maxRedirects) - |sent|
    {
      var hop := |sent|;
      KeptMeans(sent, got, first, req, seeds, perform, resolve);
      ghost var was := headers;
      if url.host != first.host { headers := EraseNamed(headers, "authorization"); }
      if cancelled(hop) { return None, sent, got; }
      var cookies := jar.For(url.host);
      var x := Exchange(url, verb, headers, body, cookies);
      var r := perform(hop, x);
      AfterHop(sent, got, first, req, seeds, perform, resolve, was, x);
      AnswerTaken(first, seeds, sent, got, x, r);
      sent, got := sent + [x], got + [r];
      KeptMeans(sent, got, first, req, seeds, perform, resolve);
      if r.error != "" || r.status < 300 || r.status >= 400 || r.status == 304 { return Some(r), sent, got; }
      if r.location == "" || req.maxRedirects <= 0 { return Some(r), sent, got; }
      if hop >= req.maxRedirects {
        return Some(r.(status := 0, error := "too_many_redirects")), sent, got;
      }
      TakeAll(jar, r.setCookies, url.host);
      var next := resolve(url, r.location);
      if next.None? { return Some(r), sent, got; }
      verb, body, headers := Rewritten(sent, got, first, req, resolve, x, r, next.value, verb, body, headers);
      url := next.value;
    }
  }

  /** What browsers do with an answer of 300 to 399, but for 304, that names a place to go to. */
  ghost predicate Followed(x: Exchange, r: Response, y: Exchange, resolve: (Url, string) -> Option<Url>)
  {
    && r.error == "" && 300 <= r.status <= 399 && r.status != 304 && r.location != ""
    && resolve(x.url, r.location) == Some(y.url)
    && (if r.status == 303 || (x.verb == "POST" && r.status in {301, 302})
        then y.verb == "GET" && y.body == "" && !Named(y.headers, "content-type")
        else y.verb == x.verb && y.body == x.body)
  }

  lemma KeptMeans(sent: seq<Exchange>, got: seq<Response>, first: Url, req: Request, seeds: seq<(string, string)>,
                  perform: (nat, Exchange) -> Response, resolve: (Url, string) -> Option<Url>)
    requires Kept(sent, got, first, req, seeds, perform, resolve)
    ensures forall i, c :: 0 <= i < |sent| && c in sent[i].cookies ==> Within(sent[i].url.host, c.domain, c.hostOnly)
    ensures forall k :: 0 <= k < |sent| - 1 ==> Followed(sent[k], got[k], sent[k + 1], resolve)
  {
    hide Named, Within, JarAfter, Matching, Provenance, CredentialsStay;
    forall i, c | 0 <= i < |sent| && c in sent[i].cookies ensures Within(sent[i].url.host, c.domain, c.hostOnly) {
      assert CookiesAt(first, seeds, sent[..i], got[..i], sent[i]);
    }
  }

  lemma AnswerTaken(first: Url, seeds: seq<(string, string)>, sent: seq<Exchange>, got: seq<Response>, x: Exchange, r: Response)
    requires |got| == |sent|
    ensures JarAfter(first, seeds, sent + [x], got + [r])
            == AllTaken(JarAfter(first, seeds, sent, got), r.setCookies, x.url.host)
  {
    hide AllTaken;
    assert (sent + [x])[..|sent|] == sent && (got + [r])[..|got|] == got;
  }

  method TakeAll(jar: Jar, scs: seq<SetCookie>, host: string)
    requires Single(jar.cookies)
    modifies jar
    ensures jar.cookies == AllTaken(old(jar.cookies), scs, host) && Single(jar.cookies)
  {
    hide Single, Taken;
    var i: nat := 0;
    while i < |scs|
      invariant i <= |scs| && jar.cookies == AllTaken(old(jar.cookies), scs[..i], host) && Single(jar.cookies)
    {
      assert scs[..i + 1][..i] == scs[..i];
      jar.Take(scs[i], host);
      i := i + 1;
    }
    assert scs[..i] == scs;
  }

  lemma NothingSent(first: Url, req: Request, seeds: seq<(string, string)>, perform: (nat, Exchange) -> Response,
                    resolve: (Url, string) -> Option<Url>, headers: seq<Header>)
    requires SameCredentials(headers, req.headers)
    ensures Kept([], [], first, req, seeds, perform, resolve) && Ready([], [], first, req, resolve, first, req.verb, req.body, headers)
    ensures JarAfter(first, seeds, [], []) == Seeded(seeds, first.host)
  {
    hide SameCredentials;
  }

  lemma OtherNames()
    ensures forall name :: IEquals(name, "authorization") ==>
      !IEquals(name, "cookie") && !IEquals(name, "content-type") && name != "User-Agent"
  {
  }

  lemma CredentialsSame(sent: seq<Exchange>, x: Exchange, firstHost: string, headers: seq<Header>)
    requires forall k :: 0 <= k < |sent| && !Foreign(sent[..k + 1], firstHost) ==> SameCredentials(sent[k].headers, headers)
    requires !Foreign(sent, firstHost) && x.url.host == firstHost ==> SameCredentials(x.headers, headers)
    ensures forall k :: 0 <= k < |sent + [x]| && !Foreign((sent + [x])[..k + 1], firstHost) ==> SameCredentials((sent + [x])[k].headers, headers)
    ensures Foreign(sent + [x], firstHost) <==> Foreign(sent, firstHost) || x.url.host != firstHost
  {
    hide SameCredentials;
    var r := sent + [x];
    forall i | 0 <= i < |sent| ensures r[i] == sent[i] {}
    assert r[|sent|] == x;
    forall k | 0 <= k < |r| && !Foreign(r[..k + 1], firstHost) ensures SameCredentials(r[k].headers, headers) {
      if k < |sent| { assert r[..k + 1] == sent[..k + 1]; } else { assert r[..k + 1] == r; }
    }
  }
}

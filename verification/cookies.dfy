/** The session's cookie jar, as far as the account uses it: a cookie per
    (name, domain), set in place or appended, read back by name and domain,
    and copied to Steam's three web domains
    (steam-inventory-manager/classes/account.py `_transfer_cookie`). */
module Cookies {
  import opened Wrappers

  datatype Cookie = Cookie(name: string, domain: string, value: string)

  /** Jar contents: one cookie per (name, domain), in the order the slots
      were first set. That order is only storage: `list(session.cookies)`
      walks the jar in `Listing` order instead. */
  type Jar = seq<Cookie>

  const StoreDomain := "store.steampowered.com"
  const HelpDomain := "help.steampowered.com"
  const CommunityDomain := "steamcommunity.com"

  /** The domains `_transfer_cookie` writes, in the order it writes them. */
  const SteamDomains: seq<string> := [StoreDomain, HelpDomain, CommunityDomain]

  /** No two cookies share a name and a domain. */
  predicate Wf(jar: Jar) {
    forall i, j :: 0 <= i < j < |jar| ==>
      jar[i].name != jar[j].name || jar[i].domain != jar[j].domain
  }

  /** `jar.get(name, domain=domain)`. */
  function Get(jar: Jar, name: string, domain: string): (r: Option<string>)
    ensures r.Some? <==> exists i :: 0 <= i < |jar| && jar[i].name == name && jar[i].domain == domain
    ensures r.Some? ==> exists i :: 0 <= i < |jar| && jar[i] == Cookie(name, domain, r.value)
  {
    if |jar| == 0 then None
    else if jar[0].name == name && jar[0].domain == domain then Some(jar[0].value)
    else
      var r := Get(jar[1..], name, domain);
      assert forall i :: 1 <= i < |jar| ==> jar[1..][i - 1] == jar[i];
      r
  }

  /** `jar.set(name, value, domain=domain)`: the existing cookie is replaced
      where it stands, a new one goes at the end. */
  function Set(jar: Jar, name: string, domain: string, value: string): (r: Jar)
    ensures |r| == |jar| || |r| == |jar| + 1
    ensures forall i :: 0 <= i < |jar| ==> r[i].name == jar[i].name && r[i].domain == jar[i].domain
    ensures |r| == |jar| + 1 ==> r[|jar|] == Cookie(name, domain, value)
  {
    if |jar| == 0 then [Cookie(name, domain, value)]
    else if jar[0].name == name && jar[0].domain == domain then [Cookie(name, domain, value)] + jar[1..]
    else [jar[0]] + Set(jar[1..], name, domain, value)
  }

  /** A set makes the new value visible. */
  lemma {:induction false} SetGetSame(jar: Jar, name: string, domain: string, value: string)
    ensures Get(Set(jar, name, domain, value), name, domain) == Some(value)
  {
    if |jar| > 0 && !(jar[0].name == name && jar[0].domain == domain) {
      var rest := Set(jar[1..], name, domain, value);
      SetGetSame(jar[1..], name, domain, value);
      assert ([jar[0]] + rest)[1..] == rest;
    }
  }

  /** A set changes no other cookie. */
  lemma {:induction false} SetGetOther(jar: Jar, name: string, domain: string, value: string, n: string, d: string)
    requires n != name || d != domain
    ensures Get(Set(jar, name, domain, value), n, d) == Get(jar, n, d)
  {
    if |jar| > 0 {
      if jar[0].name == name && jar[0].domain == domain {
        assert ([Cookie(name, domain, value)] + jar[1..])[1..] == jar[1..];
      } else {
        var rest := Set(jar[1..], name, domain, value);
        SetGetOther(jar[1..], name, domain, value, n, d);
        assert ([jar[0]] + rest)[1..] == rest;
      }
    }
  }

  /** A set keeps the jar free of duplicates. */
  lemma {:induction false} SetWf(jar: Jar, name: string, domain: string, value: string)
    requires Wf(jar)
    ensures Wf(Set(jar, name, domain, value))
  {
    if |jar| > 0 {
      var tail := jar[1..];
      assert Wf(tail) by {
        forall i, j | 0 <= i < j < |tail| ensures tail[i].name != tail[j].name || tail[i].domain != tail[j].domain {
          assert tail[i] == jar[i + 1] && tail[j] == jar[j + 1];
        }
      }
      if jar[0].name == name && jar[0].domain == domain {
        forall k | 0 <= k < |tail| ensures tail[k].name != name || tail[k].domain != domain {
          assert tail[k] == jar[k + 1];
        }
        WfCons(Cookie(name, domain, value), tail);
      } else {
        var rest := Set(tail, name, domain, value);
        SetWf(tail, name, domain, value);
        forall k | 0 <= k < |rest| ensures rest[k].name != jar[0].name || rest[k].domain != jar[0].domain {
          if k < |tail| {
            assert rest[k].name == jar[k + 1].name && rest[k].domain == jar[k + 1].domain;
          }
        }
        WfCons(jar[0], rest);
      }
    }
  }

  /** A cookie whose name and domain are new can go in front of a well-formed jar. */
  lemma WfCons(c: Cookie, jar: Jar)
    requires Wf(jar)
    requires forall k :: 0 <= k < |jar| ==> jar[k].name != c.name || jar[k].domain != c.domain
    ensures Wf([c] + jar)
  {
    var r := [c] + jar;
    forall i, j | 0 <= i < j < |r| ensures r[i].name != r[j].name || r[i].domain != r[j].domain {
      assert r[j] == jar[j - 1];
      if i > 0 {
        assert r[i] == jar[i - 1];
      }
    }
  }

  /** `_transfer_cookie(name, value)`: the cookie on each Steam domain. */
  function Transfer(jar: Jar, name: string, value: string): (r: Jar)
    ensures |jar| <= |r| <= |jar| + 3
    ensures forall i :: 0 <= i < |jar| ==> r[i].name == jar[i].name && r[i].domain == jar[i].domain
  {
    Set(Set(Set(jar, name, StoreDomain, value), name, HelpDomain, value), name, CommunityDomain, value)
  }

  lemma DomainsDistinct()
    ensures StoreDomain != HelpDomain && StoreDomain != CommunityDomain && HelpDomain != CommunityDomain
  {
    assert |StoreDomain| == 22 && |HelpDomain| == 21 && |CommunityDomain| == 18;
  }

  /** After a transfer the three Steam domains carry the value, and nothing
      else in the jar changed. */
  lemma TransferSpec(jar: Jar, name: string, value: string)
    requires Wf(jar)
    ensures Wf(Transfer(jar, name, value))
    ensures forall d :: d in SteamDomains ==> Get(Transfer(jar, name, value), name, d) == Some(value)
    ensures forall n, d :: n != name || d !in SteamDomains ==>
      Get(Transfer(jar, name, value), n, d) == Get(jar, n, d)
  {
    TransferWf(jar, name, value);
    TransferSetsDomains(jar, name, value);
    TransferKeepsOthers(jar, name, value);
  }

  lemma TransferWf(jar: Jar, name: string, value: string)
    requires Wf(jar)
    ensures Wf(Transfer(jar, name, value))
  {
    var j1 := Set(jar, name, StoreDomain, value);
    var j2 := Set(j1, name, HelpDomain, value);
    SetWf(jar, name, StoreDomain, value);
    SetWf(j1, name, HelpDomain, value);
    SetWf(j2, name, CommunityDomain, value);
  }

  lemma TransferSetsDomains(jar: Jar, name: string, value: string)
    ensures forall d :: d in SteamDomains ==> Get(Transfer(jar, name, value), name, d) == Some(value)
  {
    var j1 := Set(jar, name, StoreDomain, value);
    var j2 := Set(j1, name, HelpDomain, value);
    var j3 := Set(j2, name, CommunityDomain, value);
    assert Transfer(jar, name, value) == j3;
    DomainsDistinct();
    forall d | d in SteamDomains
      ensures Get(j3, name, d) == Some(value)
    {
      if d == StoreDomain {
        SetGetSame(jar, name, StoreDomain, value);
        SetGetOther(j1, name, HelpDomain, value, name, StoreDomain);
        SetGetOther(j2, name, CommunityDomain, value, name, StoreDomain);
      } else if d == HelpDomain {
        SetGetSame(j1, name, HelpDomain, value);
        SetGetOther(j2, name, CommunityDomain, value, name, HelpDomain);
      } else {
        assert d == CommunityDomain;
        SetGetSame(j2, name, CommunityDomain, value);
      }
    }
  }

  lemma TransferKeepsOthers(jar: Jar, name: string, value: string)
    ensures forall n, d :: n != name || d !in SteamDomains ==>
      Get(Transfer(jar, name, value), n, d) == Get(jar, n, d)
  {
    var j1 := Set(jar, name, StoreDomain, value);
    var j2 := Set(j1, name, HelpDomain, value);
    forall n, d | n != name || d !in SteamDomains
      ensures Get(Transfer(jar, name, value), n, d) == Get(jar, n, d)
    {
      assert n != name || (d != StoreDomain && d != HelpDomain && d != CommunityDomain);
      SetGetOther(jar, name, StoreDomain, value, n, d);
      SetGetOther(j1, name, HelpDomain, value, n, d);
      SetGetOther(j2, name, CommunityDomain, value, n, d);
    }
  }

  // ---------------------------------------------------------------------------
  // list(session.cookies)
  // ---------------------------------------------------------------------------

  /** Python's `<` on strings: code point by code point, a proper prefix
      before the longer string. */
  predicate Below(x: string, y: string)
    decreases |x|
  {
    if |x| == 0 then |y| > 0
    else |y| > 0 && (x[0] < y[0] || (x[0] == y[0] && Below(x[1..], y[1..])))
  }

  lemma {:induction false} BelowIrreflexive(x: string)
    ensures !Below(x, x)
    decreases |x|
  {
    if |x| > 0 {
      BelowIrreflexive(x[1..]);
    }
  }

  lemma {:induction false} BelowTransitive(x: string, y: string, z: string)
    requires Below(x, y) && Below(y, z)
    ensures Below(x, z)
    decreases |x|
  {
    if |x| > 0 && x[0] == y[0] && y[0] == z[0] {
      BelowTransitive(x[1..], y[1..], z[1..]);
    }
  }

  /** Of two different strings one is below the other. */
  lemma {:induction false} BelowTotal(x: string, y: string)
    requires x != y
    ensures Below(x, y) || Below(y, x)
    decreases |x|
  {
    if |x| > 0 && |y| > 0 && x[0] == y[0] {
      assert x == [x[0]] + x[1..] && y == [y[0]] + y[1..];
      BelowTotal(x[1..], y[1..]);
    }
  }

  /** The order `http.cookiejar.CookieJar` iterates in: its cookies are
      nested by domain, path and name, and each level is walked in sorted
      order. Every cookie here has the path "/", so the order is by domain,
      then by name. */
  predicate Before(c: Cookie, d: Cookie) {
    Below(c.domain, d.domain) || (c.domain == d.domain && Below(c.name, d.name))
  }

  /** `Before` read as "not after": a total preorder on cookies. */
  lemma NotBeforeTransitive(x: Cookie, y: Cookie, z: Cookie)
    requires !Before(y, x) && !Before(z, y)
    ensures !Before(z, x)
  {
    if x.domain != y.domain { BelowTotal(x.domain, y.domain); }
    if y.domain != z.domain { BelowTotal(y.domain, z.domain); }
    if x.name != y.name { BelowTotal(x.name, y.name); }
    if y.name != z.name { BelowTotal(y.name, z.name); }
    if Before(z, x) {
      if Below(z.domain, x.domain) {
        if Below(x.domain, y.domain) { BelowTransitive(z.domain, x.domain, y.domain); }
        if Below(y.domain, z.domain) { BelowTransitive(y.domain, z.domain, x.domain); }
        if x.domain == y.domain { BelowIrreflexive(y.domain); }
        if y.domain == z.domain { BelowIrreflexive(z.domain); }
      } else {
        if Below(x.domain, y.domain) { BelowTransitive(z.domain, x.domain, y.domain); }
        if Below(y.domain, z.domain) { BelowTransitive(y.domain, z.domain, x.domain); }
        if Below(x.name, y.name) { BelowTransitive(z.name, x.name, y.name); }
        if Below(y.name, z.name) { BelowTransitive(y.name, z.name, x.name); }
      }
      assert false;
    }
  }

  lemma BeforeAsymmetric(x: Cookie, y: Cookie)
    requires Before(x, y)
    ensures !Before(y, x)
  {
    if Before(y, x) {
      BelowIrreflexive(x.domain);
      BelowIrreflexive(x.name);
      if Below(x.domain, y.domain) && Below(y.domain, x.domain) {
        BelowTransitive(x.domain, y.domain, x.domain);
      }
      if x.domain == y.domain && Below(x.name, y.name) && Below(y.name, x.name) {
        BelowTransitive(x.name, y.name, x.name);
      }
      assert false;
    }
  }

  predicate Sorted(s: seq<Cookie>) {
    forall i, j :: 0 <= i < j < |s| ==> !Before(s[j], s[i])
  }

  /** `c` put into a sorted listing after every cookie that comes before it. */
  function Insert(c: Cookie, s: seq<Cookie>): (r: seq<Cookie>)
    requires Sorted(s)
    ensures Sorted(r)
    ensures multiset(r) == multiset(s) + multiset{c}
    decreases |s|
  {
    if |s| == 0 then [c]
    else if Before(s[0], c) then
      var rest := Insert(c, s[1..]);
      assert s == [s[0]] + s[1..];
      InsertAfter(s[0], c, s[1..], rest);
      [s[0]] + rest
    else
      forall j | 0 <= j < |s| ensures !Before(s[j], c) {
        if j > 0 { NotBeforeTransitive(c, s[0], s[j]); }
      }
      [c] + s
  }

  /** The step of `Insert` that keeps the head in front. */
  lemma InsertAfter(h: Cookie, c: Cookie, tail: seq<Cookie>, rest: seq<Cookie>)
    requires Sorted([h] + tail) && Before(h, c) && Sorted(rest)
    requires multiset(rest) == multiset(tail) + multiset{c}
    ensures Sorted([h] + rest)
  {
    var s := [h] + tail;
    forall k | 0 <= k < |rest| ensures !Before(rest[k], h) {
      assert rest[k] in multiset(rest);
      if rest[k] == c {
        BeforeAsymmetric(h, c);
      } else {
        assert rest[k] in multiset(tail);
        assert rest[k] in tail;
        var j :| 0 <= j < |tail| && tail[j] == rest[k];
        assert s[0] == h && s[j + 1] == rest[k];
      }
    }
    var r := [h] + rest;
    forall i, j | 0 <= i < j < |r| ensures !Before(r[j], r[i]) {
      assert r[j] == rest[j - 1];
      if i > 0 { assert r[i] == rest[i - 1]; }
    }
  }

  /** `list(jar)`: the jar's cookies in the order the cookie jar walks them. */
  function Listing(jar: Jar): (r: seq<Cookie>)
    ensures Sorted(r)
    ensures multiset(r) == multiset(jar)
    decreases |jar|
  {
    if |jar| == 0 then []
    else
      assert jar == [jar[0]] + jar[1..];
      Insert(jar[0], Listing(jar[1..]))
  }

  /** `TransferKeepsOthers` for one cookie. */
  lemma TransferGetOther(jar: Jar, name: string, value: string, n: string, d: string)
    requires n != name || d !in SteamDomains
    ensures Get(Transfer(jar, name, value), n, d) == Get(jar, n, d)
  {
    assert n != name || (d != StoreDomain && d != HelpDomain && d != CommunityDomain);
    var j1 := Set(jar, name, StoreDomain, value);
    var j2 := Set(j1, name, HelpDomain, value);
    SetGetOther(jar, name, StoreDomain, value, n, d);
    SetGetOther(j1, name, HelpDomain, value, n, d);
    SetGetOther(j2, name, CommunityDomain, value, n, d);
  }

  /** The value of the last cookie called `name` in `cookies`. */
  function LastNamed(cookies: seq<Cookie>, name: string): (r: Option<string>)
    ensures r.Some? ==>
      exists i :: 0 <= i < |cookies| && cookies[i].name == name && cookies[i].value == r.value &&
        (forall j :: i < j < |cookies| ==> cookies[j].name != name)
    ensures r.None? <==> forall i :: 0 <= i < |cookies| ==> cookies[i].name != name
  {
    if |cookies| == 0 then None
    else if cookies[|cookies| - 1].name == name then Some(cookies[|cookies| - 1].value)
    else
      var init := cookies[..|cookies| - 1];
      var r := LastNamed(init, name);
      assert forall i :: 0 <= i < |init| ==> init[i] == cookies[i];
      r
  }

  /** `jar[i]` is the cookie called `name` on the greatest domain. */
  predicate OnGreatestDomain(jar: Jar, name: string, i: int) {
    && 0 <= i < |jar| && jar[i].name == name
    && forall j :: 0 <= j < |jar| && jar[j].name == name && j != i ==> Below(jar[j].domain, jar[i].domain)
  }

  /** In the jar's listing, the last cookie called `name` is the one on the
      greatest domain. */
  lemma ListingLastNamed(jar: Jar, name: string)
    requires Wf(jar)
    ensures LastNamed(Listing(jar), name).None? <==> forall i :: 0 <= i < |jar| ==> jar[i].name != name
    ensures LastNamed(Listing(jar), name).Some? ==>
      exists i :: OnGreatestDomain(jar, name, i) && jar[i].value == LastNamed(Listing(jar), name).value
  {
    var l := Listing(jar);
    ListingSameCookies(jar);
    var v := LastNamed(l, name);
    if v.Some? {
      var k :| 0 <= k < |l| && l[k].name == name && l[k].value == v.value &&
        (forall j :: k < j < |l| ==> l[j].name != name);
      var i :| 0 <= i < |jar| && jar[i] == l[k];
      SortedLastOnGreatest(jar, l, k, i);
    }
  }

  /** The last cookie of a sorted listing of the jar with a given name is
      that name's cookie on the greatest domain. */
  lemma SortedLastOnGreatest(jar: Jar, l: seq<Cookie>, k: int, i: int)
    requires Wf(jar) && Sorted(l) && forall j :: 0 <= j < |jar| ==> jar[j] in l
    requires 0 <= k < |l| && forall j :: k < j < |l| ==> l[j].name != l[k].name
    requires 0 <= i < |jar| && jar[i] == l[k]
    ensures OnGreatestDomain(jar, l[k].name, i)
  {
    forall j | 0 <= j < |jar| && jar[j].name == jar[i].name && j != i
      ensures Below(jar[j].domain, jar[i].domain)
    {
      var kj :| 0 <= kj < |l| && l[kj] == jar[j];
      SortedLastIsGreatest(l, k, kj);
      assert jar[j].domain != jar[i].domain;
      BelowTotal(jar[j].domain, jar[i].domain);
    }
  }

  /** Copying the jar's own listing (the loop of `login`): each name ends up
      on the three Steam domains with its value on the greatest domain it
      has; a name the jar lacks stays absent; other domains are untouched. */
  lemma CopyListing(jar: Jar, name: string, d: string)
    requires Wf(jar)
    ensures var copied := TransferAll(jar, Listing(jar));
      && (d !in SteamDomains ==> Get(copied, name, d) == Get(jar, name, d))
      && (d in SteamDomains && (forall i :: 0 <= i < |jar| ==> jar[i].name != name) ==> Get(copied, name, d) == None)
      && (d in SteamDomains && (exists i :: 0 <= i < |jar| && jar[i].name == name) ==>
            exists i :: OnGreatestDomain(jar, name, i) && Get(copied, name, d) == Some(jar[i].value))
  {
    TransferAllGet(jar, Listing(jar), name, d);
    ListingLastNamed(jar, name);
  }

  lemma ListingSameCookies(jar: Jar)
    ensures forall i :: 0 <= i < |jar| ==> jar[i] in Listing(jar)
    ensures forall k :: 0 <= k < |Listing(jar)| ==> Listing(jar)[k] in jar
  {
    var l := Listing(jar);
    forall i | 0 <= i < |jar| ensures jar[i] in l {
      assert jar[i] in multiset(jar);
    }
    forall k | 0 <= k < |l| ensures l[k] in jar {
      assert l[k] in multiset(l);
    }
  }

  /** A cookie of a sorted listing with the name of a later one, where no
      later cookie has that name, sits on a domain no greater. */
  lemma SortedLastIsGreatest(l: seq<Cookie>, k: int, kj: int)
    requires Sorted(l) && 0 <= k < |l| && 0 <= kj < |l| && l[kj].name == l[k].name
    requires forall j :: k < j < |l| ==> l[j].name != l[k].name
    ensures !Below(l[k].domain, l[kj].domain)
  {
    if kj == k {
      BelowIrreflexive(l[k].domain);
    } else {
      assert kj < k;
      assert !Before(l[k], l[kj]);
    }
  }

  /** `for cookie in cookies: _transfer_cookie(cookie.name, cookie.value)`. */
  function TransferAll(jar: Jar, cookies: seq<Cookie>): (r: Jar)
    ensures |jar| <= |r| <= |jar| + 3 * |cookies|
    ensures forall i :: 0 <= i < |jar| ==> r[i].name == jar[i].name && r[i].domain == jar[i].domain
    decreases |cookies|
  {
    if |cookies| == 0 then jar
    else TransferAll(Transfer(jar, cookies[0].name, cookies[0].value), cookies[1..])
  }

  /** Copying a listing: each name listed ends up on the three Steam domains
      with its last listed value; everything else is as before. */
  lemma TransferAllSpec(jar: Jar, cookies: seq<Cookie>)
    requires Wf(jar)
    ensures Wf(TransferAll(jar, cookies))
    ensures forall n, d :: LastNamed(cookies, n).Some? && d in SteamDomains ==>
      Get(TransferAll(jar, cookies), n, d) == LastNamed(cookies, n)
    ensures forall n, d :: LastNamed(cookies, n).None? || d !in SteamDomains ==>
      Get(TransferAll(jar, cookies), n, d) == Get(jar, n, d)
  {
    TransferAllWf(jar, cookies);
    forall n, d ensures Get(TransferAll(jar, cookies), n, d) ==
      if LastNamed(cookies, n).Some? && d in SteamDomains then LastNamed(cookies, n) else Get(jar, n, d)
    {
      TransferAllGet(jar, cookies, n, d);
    }
  }

  lemma {:induction false} TransferAllWf(jar: Jar, cookies: seq<Cookie>)
    requires Wf(jar)
    ensures Wf(TransferAll(jar, cookies))
    decreases |cookies|
  {
    if |cookies| > 0 {
      TransferWf(jar, cookies[0].name, cookies[0].value);
      TransferAllWf(Transfer(jar, cookies[0].name, cookies[0].value), cookies[1..]);
    }
  }

  /** One cookie of the jar after copying a listing. */
  lemma {:induction false} TransferAllGet(jar: Jar, cookies: seq<Cookie>, n: string, d: string)
    ensures Get(TransferAll(jar, cookies), n, d) ==
      if LastNamed(cookies, n).Some? && d in SteamDomains then LastNamed(cookies, n) else Get(jar, n, d)
    decreases |cookies|
  {
    if |cookies| > 0 {
      var c := cookies[|cookies| - 1];
      var init := cookies[..|cookies| - 1];
      assert init + [c] == cookies;
      TransferAllSnoc(jar, init, c);
      var before := TransferAll(jar, init);
      if n == c.name {
        assert LastNamed(cookies, n) == Some(c.value);
        if d in SteamDomains {
          TransferSetsDomains(before, c.name, c.value);
        } else {
          TransferKeepsOthers(before, c.name, c.value);
          TransferAllGet(jar, init, n, d);
        }
      } else {
        assert LastNamed(cookies, n) == LastNamed(init, n);
        TransferKeepsOthers(before, c.name, c.value);
        TransferAllGet(jar, init, n, d);
      }
    }
  }

  lemma {:induction false} TransferAllSnoc(jar: Jar, init: seq<Cookie>, c: Cookie)
    ensures TransferAll(jar, init + [c]) == Transfer(TransferAll(jar, init), c.name, c.value)
    decreases |init|
  {
    if |init| == 0 {
      assert (init + [c])[1..] == [];
    } else {
      assert (init + [c])[1..] == init[1..] + [c];
      TransferAllSnoc(Transfer(jar, init[0].name, init[0].value), init[1..], c);
    }
  }
}

/**
 The cache of authentication tokens. Tokens are filed under one string made of region, host, port and user; `log`
 remembers every token ever generated and for whom.
 */
module TokenCache {

  import opened Wrappers
  import opened Text

  /** An unsigned int of 32 bits. */
  type Port = n: nat | n < 0x1_0000_0000

  datatype Request = Request(region: string, host: string, port: Port, user: string)

  function CacheKey(r: Request): string {
    r.region + ":" + r.host + ":" + Decimal(r.port) + ":" + r.user
  }

  predicate ColonFree(r: Request) {
    ':' !in r.region && ':' !in r.host
  }

  /** Without colons in region and host two different requests never share a key; the user may be any string. */
  lemma KeyIsInjective(x: Request, y: Request)
    requires ColonFree(x) && ColonFree(y) && CacheKey(x) == CacheKey(y)
    ensures x == y
  {
    var px, py := Decimal(x.port), Decimal(y.port);
    DecimalRoundTrip(x.port);
    DecimalRoundTrip(y.port);
    var ux, uy := px + ":" + x.user, py + ":" + y.user;
    var hx, hy := x.host + ":" + ux, y.host + ":" + uy;
    assert CacheKey(x) == x.region + [':'] + hx && CacheKey(y) == y.region + [':'] + hy;
    FirstCutIsUnique(x.region, hx, y.region, hy, ':');
    FirstCutIsUnique(x.host, ux, y.host, uy, ':');
    FirstCutIsUnique(px, x.user, py, y.user, ':');
  }

  lemma SameHead(x: Request, y: Request)
    requires ColonFree(x) && y.port == x.port && y.user == x.user && CacheKey(y) == CacheKey(x)
    ensures y == x
  {
    var tail := ":" + Decimal(x.port) + ":" + x.user;
    var hx, hy := x.region + [':'] + x.host, y.region + [':'] + y.host;
    assert CacheKey(x) == hx + tail && CacheKey(y) == hy + tail;
    assert hx == CacheKey(x)[..|CacheKey(x)| - |tail|] && hy == CacheKey(y)[..|CacheKey(y)| - |tail|];
    var i := IndexOf(y.region, ':');
    FirstIndex(y.region, ':');
    if i < |y.region| {
      var rest := y.region[i + 1..] + [':'] + y.host;
      assert hy == y.region[..i] + [':'] + rest;
      assert rest[|y.region[i + 1..]|] == ':' && ':' in rest;
      FirstCutIsUnique(x.region, x.host, y.region[..i], rest, ':');
      assert false;
    }
    assert y.region[..i] == y.region;
    FirstCutIsUnique(x.region, x.host, y.region, y.host, ':');
  }

  /** Another request with the same key: a colon of region or host moves the border between the two. */
  function Shifted(x: Request): (y: Request)
    requires !ColonFree(x)
    ensures y != x && y.port == x.port && y.user == x.user
    ensures y.region + ":" + y.host == x.region + ":" + x.host
    ensures CacheKey(y) == CacheKey(x)
  {
    if ':' in x.region then
      var i := IndexOf(x.region, ':');
      FirstIndex(x.region, ':');
      var y := x.(region := x.region[..i], host := x.region[i + 1..] + ":" + x.host);
      assert x.region == y.region + ":" + x.region[i + 1..];
      assert y.region + ":" + y.host == x.region + ":" + x.host;
      y
    else
      var i := IndexOf(x.host, ':');
      FirstIndex(x.host, ':');
      var y := x.(region := x.region + ":" + x.host[..i], host := x.host[i + 1..]);
      assert x.host == x.host[..i] + ":" + y.host;
      assert y.region + ":" + y.host == x.region + ":" + x.host;
      assert |y.region| > |x.region|;
      y
  }

  /**
   Exactly when: the key pins down region and host of a request for its port and user if and only if neither
   contains a colon.
   */
  lemma KeyPinsRegionAndHost(x: Request)
    ensures (forall y: Request | y.port == x.port && y.user == x.user && CacheKey(y) == CacheKey(x) :: y == x)
            <==> ColonFree(x)
  {
    if ColonFree(x) {
      forall y: Request | y.port == x.port && y.user == x.user && CacheKey(y) == CacheKey(x)
        ensures y == x
      {
        SameHead(x, y);
      }
    } else {
      var y := Shifted(x);
      assert y != x && CacheKey(y) == CacheKey(x);
    }
  }

  // ----- among all requests

  function Colons(s: string): nat {
    if s == "" then 0 else Colons(s[..|s| - 1]) + (if s[|s| - 1] == ':' then 1 else 0)
  }

  lemma {:induction false} ColonsConcat(s: string, t: string)
    ensures Colons(s + t) == Colons(s) + Colons(t)
  {
    if t == "" {
      assert s + t == s;
    } else {
      ColonsConcat(s, t[..|t| - 1]);
      assert (s + t)[..|s + t| - 1] == s + t[..|t| - 1];
    }
  }

  lemma {:induction false} NoColons(s: string)
    ensures Colons(s) == 0 <==> ':' !in s
  {
    if s != "" {
      NoColons(s[..|s| - 1]);
      assert s == s[..|s| - 1] + [s[|s| - 1]];
    }
  }

  /** The user reads as the rest of a host, a port and another user. */
  predicate Divides(user: string, rest: string, port: Port, other: string) {
    && (rest == "" || rest[|rest| - 1] == ':')
    && user == rest + Decimal(port) + ":" + other
  }

  /** A segment of the user that is a decimal number is followed by a colon. */
  ghost predicate HidesPort(user: string) {
    exists rest: string, port: Port, other: string :: Divides(user, rest, port, other)
  }

  /** Everything before the user: region, host and port, each with its colon. */
  function Head(r: Request): string {
    r.region + ":" + r.host + ":" + Decimal(r.port) + ":"
  }

  function Place(r: Request): string {
    r.region + ":" + r.host + ":"
  }

  lemma ColonsOfPlace(r: Request)
    ensures Colons(Place(r)) == Colons(r.region) + Colons(r.host) + 2
  {
    NoColons("");
    assert ":"[..0] == "" && Colons(":") == 1;
    ColonsConcat(r.region, ":");
    ColonsConcat(r.region + ":", r.host);
    ColonsConcat(r.region + ":" + r.host, ":");
  }

  lemma KeyParts(r: Request)
    ensures CacheKey(r) == Head(r) + r.user
    ensures CacheKey(r) == Place(r) + (Decimal(r.port) + ":" + r.user)
    ensures Head(r) == Place(r) + Decimal(r.port) + ":"
  {
  }

  /** Of two cuts of a string the later one begins with the earlier one. */
  lemma LaterCut(a: string, s: string, b: string, t: string)
    requires a + s == b + t && |a| <= |b|
    ensures b == a + b[|a|..] && s == b[|a|..] + t
  {
    assert b[..|a|] == (b + t)[..|a|] == (a + s)[..|a|] == a;
    assert s == (a + s)[|a|..] == (b + t)[|a|..];
  }

  lemma ColonsOfCuts(a: string, s: string, b: string, t: string)
    requires a + s == b + t && |a| <= |b|
    ensures Colons(a) <= Colons(b)
  {
    LaterCut(a, s, b, t);
    ColonsConcat(a, b[|a|..]);
  }

  /** A region or host with a colon reaches to the user of the colon-free request at least: up there it has two colons. */
  lemma PlaceCoversHead(x: Request, y: Request)
    requires ColonFree(x) && !ColonFree(y) && CacheKey(x) == CacheKey(y)
    ensures |Place(y)| >= |Head(x)|
  {
    var px := Decimal(x.port);
    DecimalRoundTrip(x.port);
    NoColons(x.region);
    NoColons(x.host);
    NoColons(px);
    NoColons(y.region);
    NoColons(y.host);
    ColonsOfPlace(x);
    ColonsOfPlace(y);
    ColonsConcat(Place(x), px);
    KeyParts(x);
    KeyParts(y);
    var inner := Place(x) + px;
    if |Place(y)| <= |inner| {
      Regroup(inner, ":", x.user);
      ColonsOfCuts(Place(y), Decimal(y.port) + ":" + y.user, inner, ":" + x.user);
      assert false;
    }
  }

  /** Another request with the key of a colon-free one takes a part of its user for the rest of its host and its port. */
  lemma OtherDividesUser(x: Request, y: Request) returns (rest: string)
    requires ColonFree(x) && !ColonFree(y) && CacheKey(x) == CacheKey(y)
    ensures Divides(x.user, rest, y.port, y.user)
  {
    PlaceCoversHead(x, y);
    KeyParts(x);
    KeyParts(y);
    rest := Place(y)[|Head(x)|..];
    LaterCut(Head(x), x.user, Place(y), Decimal(y.port) + ":" + y.user);
    Regroup(rest, Decimal(y.port), ":" + y.user);
    assert rest != "" ==> rest[|rest| - 1] == Place(y)[|Place(y)| - 1] == ':';
  }

  /** The other request, made from the parts of the user. */
  function Dividing(x: Request, rest: string, port: Port, other: string): Request
  {
    x.(host := x.host + ":" + Decimal(x.port) + (if rest == "" then "" else ":" + rest[..|rest| - 1]), port := port, user := other)
  }

  lemma DividingHasTheKey(x: Request, rest: string, port: Port, other: string)
    requires Divides(x.user, rest, port, other)
    ensures CacheKey(Dividing(x, rest, port, other)) == CacheKey(x) && Dividing(x, rest, port, other) != x
  {
    var y := Dividing(x, rest, port, other);
    if rest == "" {
      assert Place(y) == Head(x) + rest;
    } else {
      assert rest == rest[..|rest| - 1] + ":";
      assert Place(y) == Head(x) + rest;
    }
    assert CacheKey(y) == Place(y) + (Decimal(port) + ":" + other);
    assert CacheKey(x) == Head(x) + x.user;
    assert x.user == rest + (Decimal(port) + ":" + other);
    Regroup(Head(x), rest, Decimal(port) + ":" + other);
    assert |y.host| > |x.host|;
  }

  /**
   Exactly when, among all requests: a key belongs to one request only if and only if region and host contain no colon
   and no decimal number in the user is set off by colons or the user's beginning before a colon.
   */
  lemma KeyPinsRequest(x: Request)
    ensures (forall y: Request | CacheKey(y) == CacheKey(x) :: y == x) <==> ColonFree(x) && !HidesPort(x.user)
  {
    if !ColonFree(x) {
      var y := Shifted(x);
      assert y != x && CacheKey(y) == CacheKey(x);
    } else if HidesPort(x.user) {
      var rest, port, other :| Divides(x.user, rest, port, other);
      DividingHasTheKey(x, rest, port, other);
    } else {
      forall y: Request | CacheKey(y) == CacheKey(x)
        ensures y == x
      {
        if ColonFree(y) {
          KeyIsInjective(x, y);
        } else {
          var rest := OtherDividesUser(x, y);
          assert false;
        }
      }
    }
  }

  // ----- the log

  datatype Token = Token(text: string, expiry: int)

  datatype Entry = Entry(request: Request, token: Token)

  /** The token generated last under a key. */
  function Latest(log: seq<Entry>, key: string): Option<Token> {
    if log == [] then None
    else if CacheKey(log[|log| - 1].request) == key then Some(log[|log| - 1].token)
    else Latest(log[..|log| - 1], key)
  }

  /** The token generated last for a request. */
  function LatestFor(log: seq<Entry>, request: Request): Option<Token> {
    if log == [] then None
    else if log[|log| - 1].request == request then Some(log[|log| - 1].token)
    else LatestFor(log[..|log| - 1], request)
  }

  /** What the two searches of the log find: the entry that is the last of its key, or of its request. */
  lemma {:induction false} LatestIsTheLast(log: seq<Entry>, key: string, request: Request)
    ensures Latest(log, key).None? <==> forall e | e in log :: CacheKey(e.request) != key
    ensures forall k | 0 <= k < |log| && CacheKey(log[k].request) == key
                       && (forall j | k < j < |log| :: CacheKey(log[j].request) != key) ::
              Latest(log, key) == Some(log[k].token)
    ensures LatestFor(log, request).None? <==> forall e | e in log :: e.request != request
    ensures forall k | 0 <= k < |log| && log[k].request == request && (forall j | k < j < |log| :: log[j].request != request) ::
              LatestFor(log, request) == Some(log[k].token)
  {
    if log != [] {
      LatestIsTheLast(log[..|log| - 1], key, request);
      assert log == log[..|log| - 1] + [log[|log| - 1]];
    }
  }

  /** Filing under keys loses nothing as long as no region or host contains a colon. */
  lemma {:induction false} KeysSeparateRequests(log: seq<Entry>, request: Request)
    requires ColonFree(request) && forall e | e in log :: ColonFree(e.request)
    ensures Latest(log, CacheKey(request)) == LatestFor(log, request)
  {
    if log != [] {
      var last := log[|log| - 1];
      assert last in log;
      if CacheKey(last.request) == CacheKey(request) {
        KeyIsInjective(last.request, request);
      }
      KeysSeparateRequests(log[..|log| - 1], request);
    }
  }

  /** A collision in action: a token generated for one cluster is what the other one's key finds. */
  lemma CollidingRequestsShareTokens(x: Request, token: Token)
    requires !ColonFree(x)
    ensures LatestFor([Entry(x, token)], Shifted(x)) == None
    ensures Latest([Entry(x, token)], CacheKey(Shifted(x))) == Some(token)
  {
    assert [Entry(x, token)][..0] == [];
  }

  predicate Expired(token: Token, now: int) {
    now > token.expiry
  }

  function OrEmpty(s: Option<string>): string {
    if s.None? then "" else s.value
  }

  class Cache {
    var tokens: map<string, Token>
    ghost var log: seq<Entry>

    ghost predicate Valid()
      reads this
    {
      forall key :: (key in tokens <==> Latest(log, key).Some?) && (key in tokens ==> Latest(log, key).value == tokens[key])
    }

    constructor ()
      ensures Valid() && log == []
    {
      tokens := map[];
      log := [];
    }

    /**
     `generated` is what the generator would answer, `now` the time of the expiry test and `stamp` the time the new
     token is stamped with; the wall clock need not be monotone. A cached token is returned exactly when none is
     forced and the last token generated for this very request is still good.
     */
    method GetAuthToken(host: Option<string>, region: Option<string>, port: Port, user: Option<string>,
                        lifetime: nat, force: bool, generated: string, now: int, stamp: int)
      returns (token: string, cached: bool)
      requires Valid()
      modifies this
      ensures Valid()
      ensures var request := Request(OrEmpty(region), OrEmpty(host), port, OrEmpty(user));
              && (cached <==> !force && Latest(old(log), CacheKey(request)).Some?
                              && now <= Latest(old(log), CacheKey(request)).value.expiry)
              && (cached ==> log == old(log) && token == Latest(old(log), CacheKey(request)).value.text)
              && (!cached ==> token == generated
                              && log == old(log) + [Entry(request, Token(generated, stamp + lifetime))])
              && (ColonFree(request) && (forall e | e in old(log) :: ColonFree(e.request)) ==>
                    && (cached <==> !force && LatestFor(old(log), request).Some?
                                    && now <= LatestFor(old(log), request).value.expiry)
                    && (cached ==> token == LatestFor(old(log), request).value.text))
    {
      var request := Request(OrEmpty(region), OrEmpty(host), port, OrEmpty(user));
      var key := CacheKey(request);
      if ColonFree(request) && forall e | e in log :: ColonFree(e.request) {
        KeysSeparateRequests(log, request);
      }
      if force {
        tokens := tokens - {key};
      } else if key in tokens {
        if Expired(tokens[key], now) {
          tokens := tokens - {key};
        } else {
          return tokens[key].text, true;
        }
      }
      token := generated;
      tokens := tokens[key := Token(token, stamp + lifetime)];
      log := log + [Entry(request, Token(token, stamp + lifetime))];
      assert log[..|log| - 1] == old(log);
      cached := false;
    }
  }
}

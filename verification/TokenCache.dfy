/**
 * The admin client's bearer token: minted once, reused until it nears expiry, dropped when the
 * namespace scope changes.
 *
 * A token is modelled by the claims it carries; signing is not part of this model. Wall clock
 * readings are signed 64-bit seconds, monotonic readings are nanoseconds.
 */
module TokenCache {
  import opened Wrappers
  import opened FirstSeen
  import opened MachineIntegers
  import opened Ordering

  const NANOS_PER_SECOND := 1_000_000_000
  /** The latest monotonic instant that can be represented. */
  const LATEST_INSTANT := I64_MAX * NANOS_PER_SECOND + NANOS_PER_SECOND - 1
  const JWT_REFRESH_MARGIN_SECS := 300
  const DEFAULT_JWT_TTL_SECS := 3600

  newtype i64 = x: int | I64_MIN <= x <= I64_MAX
  newtype Instant = x: int | 0 <= x <= LATEST_INSTANT

  datatype ClockReading = ClockReading(wall: i64, monotonic: Instant)

  // ---- Machine arithmetic ----

  function SaturatingSub(a: i64, b: i64): (r: i64)
    ensures I64_MIN <= a as int - b as int <= I64_MAX ==> r as int == a as int - b as int
  {
    var d := a as int - b as int;
    if d < I64_MIN then I64_MIN as i64 else if d > I64_MAX then I64_MAX as i64 else d as i64
  }

  function CheckedAdd(a: i64, b: i64): Option<i64> {
    var sum := a as int + b as int;
    if I64_MIN <= sum <= I64_MAX then Some(sum as i64) else None
  }

  /** Division by two that truncates toward zero. */
  function Half(a: i64): i64 {
    (if a >= 0 then a as int / 2 else -(-(a as int) / 2)) as i64
  }

  // ---- Minting ----

  /** `ns` is the claim a gateway reads as the token's namespace bound. */
  datatype Claims = Claims(iat: i64, nbf: i64, exp: i64, jti: nat, ns: Option<seq<string>>)
  datatype MintedJwt = MintedJwt(token: Claims, issuedAt: i64, expiresAt: i64)
  datatype TokenError = TtlTooLarge | SigningFailed | RegistrationRefused

  /** The part of the options that changes, and the lifetime that was configured. */
  datatype JwtOptions = JwtOptions(namespaces: seq<string>, ttlSecs: i64)

  function Ttl(options: JwtOptions): (ttl: i64)
    ensures ttl > 0
  {
    if options.ttlSecs > 0 then options.ttlSecs else DEFAULT_JWT_TTL_SECS as i64
  }

  function NamespaceClaim(options: JwtOptions): Option<seq<string>> {
    if options.namespaces == [] then None else Some(options.namespaces)
  }

  function MintJwtAt(options: JwtOptions, now: i64, jti: nat, signs: bool): Result<MintedJwt, TokenError> {
    match CheckedAdd(now, Ttl(options))
    case None => Err(TtlTooLarge)
    case Some(exp) =>
      if !signs then Err(SigningFailed)
      else Ok(MintedJwt(Claims(now, now, exp, jti, NamespaceClaim(options)), now, exp))
  }

  /** A scope drops empty names and repeats, keeping first-seen order. */
  function Scope(namespaces: seq<string>): seq<string> {
    var named := Filter(namespaces, (n: string) => n != "");
    Distinct(named, |named|)
  }

  /** The scope names exactly the non-empty namespaces asked for, each once. */
  lemma ScopeIsExact(namespaces: seq<string>)
    ensures forall n :: n in Scope(namespaces) <==> n in namespaces && n != ""
    ensures forall i, j :: 0 <= i < j < |Scope(namespaces)| ==> Scope(namespaces)[i] != Scope(namespaces)[j]
  {
    var named := Filter(namespaces, (n: string) => n != "");
    DistinctIsDistinct(named, |named|);
    forall n ensures n in Scope(namespaces) <==> n in namespaces && n != "" {
      FilterMember(namespaces, (n: string) => n != "", n);
      assert Seen(named, |named|, n) <==> n in named;
    }
  }

  // ---- The cache ----

  datatype CachedJwt = CachedJwt(minted: MintedJwt, reuseUntil: Instant)

  function RefreshMargin(minted: MintedJwt): i64 {
    var lifetime := SaturatingSub(minted.expiresAt, minted.issuedAt);
    if Half(lifetime) < JWT_REFRESH_MARGIN_SECS as i64 then Half(lifetime) else JWT_REFRESH_MARGIN_SECS as i64
  }

  predicate Reusable(cached: CachedJwt, now: ClockReading) {
    && cached.minted.issuedAt <= now.wall
    && now.wall < SaturatingSub(cached.minted.expiresAt, RefreshMargin(cached.minted))
    && now.monotonic < cached.reuseUntil
  }

  /** A span the monotonic clock cannot represent is not reused at all. */
  function ReuseUntil(minted: MintedJwt, now: Instant): Instant {
    var span := SaturatingSub(SaturatingSub(minted.expiresAt, minted.issuedAt), RefreshMargin(minted)) as int;
    var until := now as int + span * NANOS_PER_SECOND;
    if span >= 0 && until <= LATEST_INSTANT then until as Instant else now
  }

  /** What a client remembers between requests. */
  datatype Client = Client(options: JwtOptions, cache: Option<CachedJwt>)

  /** The clock, the fresh token id, and the two outcomes the client does not control. */
  datatype Request = Request(now: ClockReading, jti: nat, signs: bool, registers: bool)

  predicate Reuses(c: Client, r: Request) {
    c.cache.Some? && Reusable(c.cache.value, r.now)
  }

  function TokenFor(c: Client, r: Request): Result<Claims, TokenError> {
    if Reuses(c, r) then
      if r.registers then Ok(c.cache.value.minted.token) else Err(RegistrationRefused)
    else
      match MintJwtAt(c.options, r.now.wall, r.jti, r.signs)
      case Err(error) => Err(error)
      case Ok(minted) => if r.registers then Ok(minted.token) else Err(RegistrationRefused)
  }

  /** Only a fresh token that was minted and registered is remembered. */
  function AfterToken(c: Client, r: Request): Client {
    if Reuses(c, r) || TokenFor(c, r).Err? then c
    else
      var minted := MintJwtAt(c.options, r.now.wall, r.jti, r.signs).value;
      c.(cache := Some(CachedJwt(minted, ReuseUntil(minted, r.now.monotonic))))
  }

  function AfterScope(c: Client, namespaces: seq<string>): Client {
    Client(c.options.(namespaces := Scope(namespaces)), None)
  }

  class AdminClient {
    var namespaces: seq<string>
    const ttlSecs: i64
    var tokenCache: Option<CachedJwt>

    ghost function State(): Client
      reads this
    {
      Client(JwtOptions(namespaces, ttlSecs), tokenCache)
    }

    constructor (ttlSecs: i64, namespaces: seq<string>)
      ensures State() == Client(JwtOptions(namespaces, ttlSecs), None)
    {
      this.ttlSecs := ttlSecs;
      this.namespaces := namespaces;
      tokenCache := None;
    }

    /** Narrow the namespace claim. A token minted under the old scope is never sent again. */
    method SetNamespaceScope(requested: seq<string>)
      modifies this
      ensures State() == AfterScope(old(State()), requested)
    {
      var named := Filter(requested, (n: string) => n != "");
      namespaces := DropRepeats(named);
      tokenCache := None;
    }

    method TokenAt(r: Request) returns (token: Result<Claims, TokenError>)
      modifies this
      ensures token == TokenFor(old(State()), r)
      ensures State() == AfterToken(old(State()), r)
    {
      if tokenCache.Some? {
        var minted := tokenCache.value.minted;
        var margin := RefreshMargin(minted);
        if && minted.issuedAt <= r.now.wall
           && r.now.wall < SaturatingSub(minted.expiresAt, margin)
           && r.now.monotonic < tokenCache.value.reuseUntil
        {
          return if r.registers then Ok(minted.token) else Err(RegistrationRefused);
        }
      }
      var minted := MintJwtAt(JwtOptions(namespaces, ttlSecs), r.now.wall, r.jti, r.signs);
      if minted.Err? {
        return Err(minted.error);
      }
      if !r.registers {
        return Err(RegistrationRefused);
      }
      var reuseUntil := ReuseUntil(minted.value, r.now.monotonic);
      tokenCache := Some(CachedJwt(minted.value, reuseUntil));
      return Ok(minted.value.token);
    }
  }

  // ---- Every run ----

  datatype Event = SetScope(namespaces: seq<string>) | AskToken(request: Request)

  function After(c: Client, event: Event): Client {
    match event
    case SetScope(namespaces) => AfterScope(c, namespaces)
    case AskToken(request) => AfterToken(c, request)
  }

  /** The client before event `n`. */
  function ClientAt(start: Client, events: seq<Event>, n: nat): Client
    requires n <= |events|
    decreases n
  {
    if n == 0 then start else After(ClientAt(start, events, n - 1), events[n - 1])
  }

  /** `minted` was minted by event `j` for the scope in force there. */
  predicate MintedAt(start: Client, events: seq<Event>, j: nat, minted: MintedJwt)
    requires j < |events|
  {
    && events[j].AskToken?
    && MintJwtAt(ClientAt(start, events, j).options, events[j].request.now.wall,
                 events[j].request.jti, events[j].request.signs) == Ok(minted)
  }

  predicate NoScopeChange(events: seq<Event>, from: nat, to: nat)
    requires to <= |events|
  {
    forall i :: from <= i < to ==> events[i].AskToken?
  }

  predicate CachedSince(start: Client, events: seq<Event>, j: nat, n: nat, cached: CachedJwt)
    requires j < n <= |events|
  {
    && MintedAt(start, events, j, cached.minted)
    && cached.reuseUntil == ReuseUntil(cached.minted, events[j].request.now.monotonic)
    && NoScopeChange(events, j, n)
    && ClientAt(start, events, j).options == ClientAt(start, events, n).options
  }

  /** Whatever is cached was minted by an earlier request of this run, under the scope still in force. */
  lemma {:induction false} CacheHasOrigin(start: Client, events: seq<Event>, n: nat) returns (j: nat)
    requires n <= |events| && start.cache.None?
    requires ClientAt(start, events, n).cache.Some?
    ensures j < n && CachedSince(start, events, j, n, ClientAt(start, events, n).cache.value)
    decreases n
  {
    var before := ClientAt(start, events, n - 1);
    assert events[n - 1].AskToken?;
    if ClientAt(start, events, n).cache == before.cache {
      j := CacheHasOrigin(start, events, n - 1);
    } else {
      j := n - 1;
    }
  }

  /** A minted token's arithmetic: it outlives its margin, and reuse ends that margin before it does. */
  lemma MintedLifetime(options: JwtOptions, now: i64, jti: nat, signs: bool, mono: Instant)
    requires MintJwtAt(options, now, jti, signs).Ok?
    ensures var minted := MintJwtAt(options, now, jti, signs).value;
            var lifetime := minted.expiresAt as int - minted.issuedAt as int;
            && lifetime == Ttl(options) as int
            && RefreshMargin(minted) as int == (if lifetime / 2 < 300 then lifetime / 2 else 300)
            && SaturatingSub(minted.expiresAt, RefreshMargin(minted)) as int
               == minted.expiresAt as int - RefreshMargin(minted) as int
            && ReuseUntil(minted, mono) as int
               <= mono as int + (lifetime - RefreshMargin(minted) as int) * NANOS_PER_SECOND
  {}

  /** The lifetime that was configured, or an hour. */
  function Lifetime(start: Client): int {
    if start.options.ttlSecs as int > 0 then start.options.ttlSecs as int else 3600
  }

  /** The last change of scope before event `k` was event `i`. */
  predicate LastScope(events: seq<Event>, i: nat, k: nat)
    requires k <= |events|
  {
    i < k && events[i].SetScope? && forall j :: i < j < k ==> events[j].AskToken?
  }

  /** `m` is asked for somewhere before `n` is. */
  ghost predicate FirstBefore(asked: seq<string>, m: string, n: string) {
    exists x :: 0 <= x < |asked| && asked[x] == m && n !in asked[..x]
  }

  /** `list` names what was asked for, in this order: the non-empty names, each once, as first seen. */
  ghost predicate NamesExactly(list: seq<string>, asked: seq<string>) {
    && (forall n :: n in list <==> n in asked && n != "")
    && (forall a, b :: 0 <= a < b < |list| ==> list[a] != list[b])
    && forall a, b :: 0 <= a < b < |list| ==> FirstBefore(asked, list[a], list[b])
  }

  /**
   * The claim of event `k`: the names last asked for, or those the client started with; and no claim
   * at all, which a gateway reads as unbounded, only if there are none.
   */
  ghost predicate ClaimsScope(start: Client, events: seq<Event>, k: nat, claim: Option<seq<string>>)
    requires k <= |events|
  {
    && claim != Some([])
    && (NoScopeChange(events, 0, k) ==>
          if start.options.namespaces == [] then claim.None? else claim == Some(start.options.namespaces))
    && forall i: nat :: LastScope(events, i, k) ==>
         match claim
         case None => forall n :: n in events[i].namespaces ==> n == ""
         case Some(list) => NamesExactly(list, events[i].namespaces)
  }

  /** Seconds a token may still be used for when it stops being handed out. */
  function Margin(token: Claims): int {
    var lifetime := token.exp as int - token.iat as int;
    if lifetime / 2 < 300 then lifetime / 2 else 300
  }

  /** `token` was minted by event `j`, and is young enough at event `k` on both clocks. */
  ghost predicate Current(start: Client, events: seq<Event>, j: nat, k: nat, token: Claims)
    requires j <= k < |events| && events[k].AskToken?
  {
    var now := events[k].request.now;
    && events[j].AskToken?
    && token.jti == events[j].request.jti
    && token.iat == token.nbf == events[j].request.now.wall
    && token.exp as int == token.iat as int + Lifetime(start)
    && ClaimsScope(start, events, k, token.ns)
    && token.iat <= now.wall
    && token.exp as int - now.wall as int > Margin(token)
    && NoScopeChange(events, j, k)
    && (j < k ==>
          now.monotonic as int - events[j].request.now.monotonic as int
            < (token.exp as int - token.iat as int - Margin(token)) * NANOS_PER_SECOND)
  }

  lemma ScopeGrows(asked: seq<string>, name: string)
    ensures Scope(asked + [name])
            == if name == "" || name in asked then Scope(asked) else Scope(asked) + [name]
  {
    var keep := (n: string) => n != "";
    var named := Filter(asked, keep);
    FilterAppends(asked, name, keep);
    if name != "" {
      DistinctPrefix(named, [name], |named|);
      FilterMember(asked, keep, name);
      assert Seen(named, |named|, name) <==> name in named;
      assert Seen(named + [name], |named|, name) <==> Seen(named, |named|, name) by {
        assert forall k :: 0 <= k < |named| ==> (named + [name])[k] == named[k];
      }
    }
  }

  lemma FirstStaysBefore(asked: seq<string>, m: string, n: string, name: string)
    requires FirstBefore(asked, m, n)
    ensures FirstBefore(asked + [name], m, n)
  {
    var x :| 0 <= x < |asked| && asked[x] == m && n !in asked[..x];
    assert (asked + [name])[x] == m && (asked + [name])[..x] == asked[..x];
  }

  lemma NewComesLast(asked: seq<string>, m: string, name: string)
    requires m in asked && name !in asked
    ensures FirstBefore(asked + [name], m, name)
  {
    var x :| 0 <= x < |asked| && asked[x] == m;
    assert (asked + [name])[x] == m && (asked + [name])[..x] == asked[..x];
  }

  lemma NamesGrow(list: seq<string>, asked: seq<string>, name: string)
    requires NamesExactly(list, asked)
    ensures NamesExactly(if name == "" || name in asked then list else list + [name], asked + [name])
  {
    var longer := if name == "" || name in asked then list else list + [name];
    var more := asked + [name];
    forall n ensures n in longer <==> n in more && n != "" { assert n in list <==> n in asked && n != ""; }
    forall a, b | 0 <= a < b < |longer| ensures longer[a] != longer[b] {
      if b == |list| { assert list[a] in list; }
    }
    forall a, b | 0 <= a < b < |longer| ensures FirstBefore(more, longer[a], longer[b]) {
      if b < |list| {
        assert FirstBefore(asked, list[a], list[b]);
        FirstStaysBefore(asked, list[a], list[b], name);
      } else {
        assert list[a] in list;
        NewComesLast(asked, list[a], name);
      }
    }
  }

  lemma {:induction false} ScopeNames(asked: seq<string>)
    ensures NamesExactly(Scope(asked), asked)
    decreases |asked|
  {
    if asked != [] {
      var last := |asked| - 1;
      ScopeNames(asked[..last]);
      assert asked == asked[..last] + [asked[last]];
      ScopeGrows(asked[..last], asked[last]);
      NamesGrow(Scope(asked[..last]), asked[..last], asked[last]);
    }
  }

  lemma {:induction false} ScopeInForce(start: Client, events: seq<Event>, k: nat)
    requires k <= |events|
    ensures NoScopeChange(events, 0, k) ==> ClientAt(start, events, k).options.namespaces == start.options.namespaces
    ensures forall i: nat :: LastScope(events, i, k) ==>
              ClientAt(start, events, k).options.namespaces == Scope(events[i].namespaces)
    decreases k
  {
    if k > 0 {
      ScopeInForce(start, events, k - 1);
      forall i: nat | LastScope(events, i, k)
        ensures ClientAt(start, events, k).options.namespaces == Scope(events[i].namespaces)
      {
        if i < k - 1 { assert LastScope(events, i, k - 1); }
      }
    }
  }

  lemma ClaimIsScope(start: Client, events: seq<Event>, k: nat)
    requires k <= |events|
    ensures ClaimsScope(start, events, k, NamespaceClaim(ClientAt(start, events, k).options))
  {
    ScopeInForce(start, events, k);
    var claim := NamespaceClaim(ClientAt(start, events, k).options);
    forall i: nat | LastScope(events, i, k)
      ensures match claim
              case None => forall n :: n in events[i].namespaces ==> n == ""
              case Some(list) => NamesExactly(list, events[i].namespaces)
    {
      ScopeNames(events[i].namespaces);
    }
  }

  lemma {:induction false} TtlIsFixed(start: Client, events: seq<Event>, n: nat)
    requires n <= |events|
    ensures ClientAt(start, events, n).options.ttlSecs == start.options.ttlSecs
    decreases n
  {
    if n > 0 { TtlIsFixed(start, events, n - 1); }
  }

  /**
   * Every token a client hands out, over every sequence of clock readings and scope changes: it has
   * more than its margin left by the wall clock, setting that clock back cannot keep a reused one
   * past the same span of real time, and its claim is the scope in force.
   */
  lemma TokensAreCurrent(start: Client, events: seq<Event>, k: nat) returns (j: nat)
    requires start.cache.None?
    requires k < |events| && events[k].AskToken?
    requires TokenFor(ClientAt(start, events, k), events[k].request).Ok?
    ensures j <= k
    ensures Current(start, events, j, k, TokenFor(ClientAt(start, events, k), events[k].request).value)
  {
    var client, request := ClientAt(start, events, k), events[k].request;
    j := k;
    if Reuses(client, request) { j := CacheHasOrigin(start, events, k); }
    var minter := events[j].request;
    TtlIsFixed(start, events, j);
    ClaimIsScope(start, events, k);
    MintedLifetime(ClientAt(start, events, j).options, minter.now.wall, minter.jti, minter.signs,
                   minter.now.monotonic);
  }

  // ---- When a token is reused, and when there is none ----

  /** Is the span a token is reused for one the monotonic clock can represent from `minted`? */
  predicate Representable(minted: Instant, span: int) {
    minted as int + span * 1_000_000_000 <= 9_223_372_036_854_775_807_999_999_999
  }

  /**
   * A cached token is reused exactly while it is neither from the future nor within its margin by the
   * wall clock, and less than the same span has gone by on the monotonic clock since it was minted.
   */
  lemma ReusedExactly(start: Client, events: seq<Event>, n: nat, now: ClockReading) returns (j: nat)
    requires n <= |events| && start.cache.None? && ClientAt(start, events, n).cache.Some?
    ensures j < n && events[j].AskToken?
    ensures
      var cached := ClientAt(start, events, n).cache.value;
      var token, minted := cached.minted.token, events[j].request.now.monotonic;
      var span := token.exp as int - token.iat as int - Margin(token);
      Reusable(cached, now) <==>
        && token.iat <= now.wall
        && now.wall as int < token.exp as int - Margin(token)
        && (if Representable(minted, span)
            then now.monotonic as int - minted as int < span * NANOS_PER_SECOND
            else now.monotonic < minted)
  {
    j := CacheHasOrigin(start, events, n);
    var minter := events[j].request;
    MintedLifetime(ClientAt(start, events, j).options, minter.now.wall, minter.jti, minter.signs,
                   minter.now.monotonic);
  }

  /**
   * What one request gives: the cached token while it may be reused, else a fresh one, and no token if
   * the lifetime leaves the clock's range, signing fails, or the display sink refuses it.
   */
  lemma TokenExactly(c: Client, r: Request)
    ensures
      var token := TokenFor(c, r);
      var overflows := r.now.wall as int + Lifetime(c) > I64_MAX;
      if c.cache.Some? && Reusable(c.cache.value, r.now) then
        token == if r.registers then Ok(c.cache.value.minted.token) else Err(RegistrationRefused)
      else if overflows then token == Err(TtlTooLarge)
      else if !r.signs then token == Err(SigningFailed)
      else if !r.registers then token == Err(RegistrationRefused)
      else token.Ok? && token.value.jti == r.jti
  {}

  /** A request leaves the token it gave in the cache, and a request that gave none leaves the cache alone. */
  lemma CacheHoldsTheToken(c: Client, r: Request)
    ensures AfterToken(c, r).options == c.options
    ensures match TokenFor(c, r)
            case Ok(token) => AfterToken(c, r).cache.Some? && AfterToken(c, r).cache.value.minted.token == token
            case Err(_) => AfterToken(c, r) == c
  {}
}

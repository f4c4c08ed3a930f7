/** The credential cache and the client that fills it (secrets/src/types.rs, secrets/src/cache.rs,
    secrets/src/client.rs). The clock is a parameter of every operation that reads it, in nanoseconds, and may
    run backwards. */
module Credentials {
  import opened Options
  import opened Bytes

  datatype DbCredential = DbCredential(username: string, password: string, engine: Option<string>,
                                       host: Option<string>, port: Option<nat>, dbName: Option<string>)

  /** `ttl` is a u64 number of seconds. */
  datatype CachedCredential = CachedCredential(credential: DbCredential, arn: string, version: string,
                                               cachedAt: int, ttl: nat)

  // ---------- expiry ----------

  /** `num_seconds`: whole seconds, truncated toward zero. */
  function WholeSeconds(nanos: int): int {
    if nanos >= 0 then nanos / 1_000_000_000 else -(-nanos / 1_000_000_000)
  }

  /** `age as u64` */
  function AsU64(x: int): nat {
    x % 0x1_0000_0000_0000_0000
  }

  predicate IsExpired(c: CachedCredential, now: int) {
    AsU64(WholeSeconds(now - c.cachedAt)) >= c.ttl
  }

  /** Less than the ttl has passed since the entry was stored; a clock that ran back by less than a second counts
      as no time. In nanoseconds. */
  predicate IsFresh(c: CachedCredential, now: int) {
    c.ttl > 0 && -1_000_000_000 < now - c.cachedAt < c.ttl * 1_000_000_000
  }

  /** The whole seconds between the first and the last reading of the clock, `Utc::now` of chrono 0.4: it panics
      before 1970, and its last instant is the end of the year 262142. */
  const CLOCK_SPAN := 8210266876799

  const SAFE_TTL := 0xFFFF_F888_65F5_9481  // 2^64 - CLOCK_SPAN

  /** At most `span` whole seconds either way. */
  predicate InClockRange(nanos: int, span: nat) {
    -(span as int + 1) * 1_000_000_000 < nanos < (span + 1) * 1_000_000_000
  }

  lemma WholeSecondsCases(nanos: int)
    ensures var k := WholeSeconds(nanos);
            if nanos >= 0 then k >= 0 && k * 1_000_000_000 <= nanos < (k + 1) * 1_000_000_000
            else k <= 0 && (k - 1) * 1_000_000_000 < nanos <= k * 1_000_000_000
  {
  }

  /** "Not expired" means less than the ttl since storing, at every pair of clock readings up to `span` seconds
      apart. */
  ghost predicate ExpiryIsFreshness(ttl: nat, span: nat) {
    forall c: CachedCredential, now: int | c.ttl == ttl && InClockRange(now - c.cachedAt, span) ::
      !IsExpired(c, now) <==> IsFresh(c, now)
  }

  lemma NotExpiredIsFresh(c: CachedCredential, now: int, span: nat)
    requires span <= 0x8000_0000_0000_0000 && c.ttl <= 0x1_0000_0000_0000_0000 - span
    requires InClockRange(now - c.cachedAt, span)
    ensures !IsExpired(c, now) <==> IsFresh(c, now)
  {
    WholeSecondsCases(now - c.cachedAt);
    AsU64Cases(WholeSeconds(now - c.cachedAt));
  }

  /** The exact line, for a clock whose readings lie up to `span` seconds apart: above it the cast of the most
      negative age stays below the ttl. */
  lemma ExpiryIsFreshnessIff(ttl: nat, span: nat)
    requires ttl < U64 && span <= 0x8000_0000_0000_0000
    ensures ExpiryIsFreshness(ttl, span) <==> ttl <= 0x1_0000_0000_0000_0000 - span
  {
    if ttl <= 0x1_0000_0000_0000_0000 - span {
      forall c: CachedCredential, now: int | c.ttl == ttl && InClockRange(now - c.cachedAt, span)
        ensures !IsExpired(c, now) <==> IsFresh(c, now)
      {
        NotExpiredIsFresh(c, now, span);
      }
    } else {
      var c := CachedCredential(DbCredential("", "", None, None, None, None), "", "", 0, ttl);
      var now := -(span as int) * 1_000_000_000;
      WholeSecondsOfSeconds(span);
      AsU64Cases(-(span as int));
      assert InClockRange(now - c.cachedAt, span) && !(!IsExpired(c, now) <==> IsFresh(c, now));
    }
  }

  /** At the clock the program uses: every ttl up to 2^64 - 8210266876799 seconds is safe, and no larger one. */
  lemma SafeTtls(ttl: nat)
    requires ttl < U64
    ensures ExpiryIsFreshness(ttl, CLOCK_SPAN) <==> ttl <= SAFE_TTL
  {
    ExpiryIsFreshnessIff(ttl, CLOCK_SPAN);
  }

  lemma WholeSecondsOfSeconds(n: nat)
    ensures WholeSeconds(-(n as int) * 1_000_000_000) == -(n as int)
  {
  }

  lemma AsU64Cases(x: int)
    requires -0x8000_0000_0000_0000 <= x <= 0x8000_0000_0000_0000
    ensures AsU64(x) == if x >= 0 then x else x + U64
  {
  }

  // ---------- the cache ----------

  type Store = map<string, CachedCredential>

  /** A zero ttl becomes the default. */
  function WithDefault(c: CachedCredential, defaultTtl: nat): CachedCredential {
    if c.ttl == 0 then c.(ttl := defaultTtl) else c
  }

  function Lookup(store: Store, id: string, now: int): Option<CachedCredential> {
    if id in store && !IsExpired(store[id], now) then Some(store[id]) else None
  }

  /** A lookup hits exactly while less than the ttl has passed since the entry was stored, in nanoseconds. */
  lemma HitsUntilTheTtl(store: Store, id: string, now: int)
    requires id in store && store[id].ttl <= SAFE_TTL && InClockRange(now - store[id].cachedAt, CLOCK_SPAN)
    requires now >= store[id].cachedAt
    ensures Lookup(store, id, now) == Some(store[id]) <==> now - store[id].cachedAt < store[id].ttl * 1_000_000_000
    ensures Lookup(store, id, now) == None <==> now - store[id].cachedAt >= store[id].ttl * 1_000_000_000
  {
    NotExpiredIsFresh(store[id], now, CLOCK_SPAN);
  }

  class CredentialCache {
    var store: Store
    const defaultTtl: nat

    constructor (defaultTtl: nat)
      ensures store == map[] && this.defaultTtl == defaultTtl
    {
      store := map[];
      this.defaultTtl := defaultTtl;
    }

    /** An expired entry is removed and missed. */
    method Get(id: string, now: int) returns (found: Option<CachedCredential>)
      modifies this
      ensures found == Lookup(old(store), id, now)
      ensures store == if found.None? then old(store) - {id} else old(store)
    {
      if id !in store {
        assert store - {id} == store;
        return None;
      }
      var entry := store[id];
      if IsExpired(entry, now) {
        store := store - {id};
        return None;
      }
      found := Some(entry);
    }

    method Set(id: string, cred: CachedCredential)
      modifies this
      ensures store == old(store)[id := WithDefault(cred, defaultTtl)]
    {
      var c := cred;
      if c.ttl == 0 {
        c := c.(ttl := defaultTtl);
      }
      store := store[id := c];
    }

    method Invalidate(id: string)
      modifies this
      ensures store == old(store) - {id}
    {
      store := store - {id};
    }

    method InvalidateAll()
      modifies this
      ensures store == map[]
    {
      store := map[];
    }
  }

  // ---------- the client ----------

  datatype SecretsError = NotFound | AwsError | ParseError

  datatype Secret = Secret(credential: DbCredential, arn: string, version: string)

  /** What one call to AWS Secrets Manager yields. */
  datatype Fetched = Ok(secret: Secret) | Err(error: SecretsError)

  datatype Answer = Given(credential: DbCredential) | Refused(error: SecretsError)

  datatype RotationStatus = Stable | Rotating

  function AnswerOf(fetched: Fetched): Answer {
    match fetched
    case Ok(secret) => Given(secret.credential)
    case Err(error) => Refused(error)
  }

  function Entry(secret: Secret, now: int, ttl: nat): CachedCredential {
    CachedCredential(secret.credential, secret.arn, secret.version, now, ttl)
  }

  class SecretsClient {
    const cache: CredentialCache
    const cacheTtl: nat

    constructor (cache: CredentialCache, cacheTtl: nat)
      ensures this.cache == cache && this.cacheTtl == cacheTtl
    {
      this.cache := cache;
      this.cacheTtl := cacheTtl;
    }

    /** What caching a fetched secret at `now` does to the store. */
    ghost function Stored(store: Store, id: string, fetched: Fetched, now: int): Store {
      match fetched
      case Ok(secret) => store[id := WithDefault(Entry(secret, now, cacheTtl), cache.defaultTtl)]
      case Err(_) => store
    }

    method FetchAndCache(id: string, fetched: Fetched, now: int) returns (answer: Answer)
      modifies cache
      ensures answer == AnswerOf(fetched)
      ensures cache.store == Stored(old(cache.store), id, fetched, now)
    {
      match fetched {
        case Err(error) => answer := Refused(error);
        case Ok(secret) =>
          cache.Set(id, Entry(secret, now, cacheTtl));
          answer := Given(secret.credential);
      }
    }

    /** Cache first: an answer is the unexpired entry, or else the result of a fetch. */
    method GetDbCredential(id: string, now: int, fetched: Fetched, later: int) returns (answer: Answer)
      modifies cache
      ensures match Lookup(old(cache.store), id, now)
              case Some(c) => answer == Given(c.credential) && cache.store == old(cache.store)
              case None => answer == AnswerOf(fetched)
                           && cache.store == Stored(old(cache.store) - {id}, id, fetched, later)
      ensures forall other :: Slot(cache.store, other)
                == NextHeld(cache.defaultTtl, cacheTtl, other, Slot(old(cache.store), other),
                            Get(id, now, fetched, later))
    {
      var cached := cache.Get(id, now);
      if cached.Some? {
        return Given(cached.value.credential);
      }
      answer := FetchAndCache(id, fetched, later);
    }

    /** Invalidate, then fetch: a failed refresh leaves the id absent. */
    method RefreshCredential(id: string, fetched: Fetched, now: int) returns (answer: Answer)
      modifies cache
      ensures answer == AnswerOf(fetched)
      ensures cache.store == Stored(old(cache.store) - {id}, id, fetched, now)
      ensures fetched.Err? ==> id !in cache.store
      ensures forall other | other != id :: Lookup(cache.store, other, now) == Lookup(old(cache.store), other, now)
      ensures forall other :: Slot(cache.store, other)
                == NextHeld(cache.defaultTtl, cacheTtl, other, Slot(old(cache.store), other), Refresh(id, fetched, now))
    {
      cache.Invalidate(id);
      answer := FetchAndCache(id, fetched, now);
    }

    /** The entry goes exactly when the secret is rotating; an unknown status changes nothing. */
    method WatchRotation(id: string, status: Option<RotationStatus>) returns (rotated: Option<bool>)
      modifies cache
      ensures rotated == if status.None? then None else Some(status.value == Rotating)
      ensures cache.store == if status == Some(Rotating) then old(cache.store) - {id} else old(cache.store)
      ensures status == Some(Rotating) ==>
                forall other :: Slot(cache.store, other)
                  == NextHeld(cache.defaultTtl, cacheTtl, other, Slot(old(cache.store), other), Forget(id))
    {
      if status.None? {
        return None;
      }
      if status.value == Rotating {
        cache.Invalidate(id);
        return Some(true);
      }
      rotated := Some(false);
    }
  }

  // ---------- many tasks on one cache ----------

  /** AWS has answered the fetch and its result is not stored yet. `asked` is the number of operations before the
      question, kept as history: no operation reads it. */
  datatype Fetch = Fetch(id: string, secret: Secret, ttl: nat, asked: nat)

  /** Cache operations as the tasks interleave. `Get` on an expired entry looks first and removes later, so
      others may run in between: a `Look` that finds an expired entry leaves a `Sweep` of that id to come. A
      fetch that succeeds has its answer at `Ask` and stores it at a later `Keep`; one that fails stores nothing
      and is no operation. A refresh is a `Drop` and then a fetch. */
  datatype Op =
    | Look(id: string, now: int)
    | Sweep(i: nat)
    | Ask(id: string, secret: Secret, ttl: nat)
    | Keep(i: nat, now: int)
    | Drop(id: string)
    | Clear

  datatype State = State(store: Store, sweeps: seq<string>, fetches: seq<Fetch>, time: nat)

  /** The entry a fetch leaves when it finishes at `now`. */
  function EntryOf(defaultTtl: nat, f: Fetch, now: int): CachedCredential {
    WithDefault(Entry(f.secret, now, f.ttl), defaultTtl)
  }

  function Apply(defaultTtl: nat, s: State, op: Op): State {
    var t := s.(time := s.time + 1);
    match op
    case Look(id, now) =>
      if id in s.store && IsExpired(s.store[id], now) then t.(sweeps := s.sweeps + [id]) else t
    case Sweep(i) =>
      if i < |s.sweeps| then t.(store := s.store - {s.sweeps[i]}, sweeps := s.sweeps[..i] + s.sweeps[i + 1..]) else t
    case Ask(id, secret, ttl) => t.(fetches := s.fetches + [Fetch(id, secret, ttl, s.time)])
    case Keep(i, now) =>
      if i < |s.fetches| then
        t.(store := s.store[s.fetches[i].id := EntryOf(defaultTtl, s.fetches[i], now)],
           fetches := s.fetches[..i] + s.fetches[i + 1..])
      else t
    case Drop(id) => t.(store := s.store - {id})
    case Clear => t.(store := map[])
  }

  function Run(defaultTtl: nat, ops: seq<Op>): (s: State)
    ensures s.time == |ops|
  {
    if ops == [] then State(map[], [], [], 0) else Apply(defaultTtl, Run(defaultTtl, ops[..|ops| - 1]), ops[|ops| - 1])
  }

  /** A fetch and the clock reading at which its result was stored. */
  datatype Kept = Kept(fetch: Fetch, now: int)

  predicate Invalidates(op: Op, id: string) {
    op == Drop(id) || op == Clear
  }

  /** The fetch that was last stored under the id, unless the id was invalidated since. Expiry and sweeping play
      no part. */
  function LastKept(defaultTtl: nat, ops: seq<Op>, id: string): Option<Kept> {
    if ops == [] then None
    else
      var before, op := ops[..|ops| - 1], ops[|ops| - 1];
      var fetches := Run(defaultTtl, before).fetches;
      if Invalidates(op, id) then None
      else if op.Keep? && op.i < |fetches| && fetches[op.i].id == id then Some(Kept(fetches[op.i], op.now))
      else LastKept(defaultTtl, before, id)
  }

  /** In every interleaving the cache holds nothing but what was last stored. */
  lemma {:induction false} CacheHoldsTheLast(defaultTtl: nat, ops: seq<Op>)
    ensures forall id | id in Run(defaultTtl, ops).store ::
              match LastKept(defaultTtl, ops, id)
              case None => false
              case Some(k) => k.fetch.id == id && Run(defaultTtl, ops).store[id] == EntryOf(defaultTtl, k.fetch, k.now)
  {
    if ops != [] {
      CacheHoldsTheLast(defaultTtl, ops[..|ops| - 1]);
    }
  }

  /** Fetches carry what was asked, in the place where it was asked. */
  predicate WasAsked(ops: seq<Op>, f: Fetch) {
    f.asked < |ops| && ops[f.asked] == Ask(f.id, f.secret, f.ttl)
  }

  lemma {:induction false} FetchesWereAsked(defaultTtl: nat, ops: seq<Op>)
    ensures forall f | f in Run(defaultTtl, ops).fetches :: WasAsked(ops, f)
    ensures forall id :: LastKept(defaultTtl, ops, id).Some? ==>
              WasAsked(ops, LastKept(defaultTtl, ops, id).value.fetch)
  {
    if ops != [] {
      var before := ops[..|ops| - 1];
      FetchesWereAsked(defaultTtl, before);
      assert forall f | WasAsked(before, f) :: WasAsked(ops, f);
    }
  }

  /** Over all timed, interleaved runs, whatever the clock does: a credential the cache returns is the one most
      recently stored for that id and not invalidated since; it is what AWS answered to a question of this run
      about that id; and less than its ttl, the default for a zero one, has passed since it was stored. The late
      removals can only turn a hit into a miss. */
  lemma {:induction false} HitsAreNeverStale(defaultTtl: nat, ops: seq<Op>, id: string, now: int)
    ensures match Lookup(Run(defaultTtl, ops).store, id, now)
            case None => true
            case Some(c) =>
              match LastKept(defaultTtl, ops, id)
              case None => false
              case Some(k) =>
                && WasAsked(ops, k.fetch) && k.fetch.id == id
                && c.credential == k.fetch.secret.credential
                && c.arn == k.fetch.secret.arn && c.version == k.fetch.secret.version
                && c.ttl == (if k.fetch.ttl == 0 then defaultTtl else k.fetch.ttl)
                && (InClockRange(now - k.now, CLOCK_SPAN) && c.ttl <= SAFE_TTL ==>
                      -1_000_000_000 < now - k.now < c.ttl * 1_000_000_000)
  {
    hide Run, LastKept;
    CacheHoldsTheLast(defaultTtl, ops);
    FetchesWereAsked(defaultTtl, ops);
    var c := Lookup(Run(defaultTtl, ops).store, id, now);
    if c.Some? && InClockRange(now - c.value.cachedAt, CLOCK_SPAN) && c.value.ttl <= SAFE_TTL {
      NotExpiredIsFresh(c.value, now, CLOCK_SPAN);
    }
  }

  /** What the cache holds for the id after `ops` was answered by AWS at operation `since` or later. */
  ghost predicate HeldSince(defaultTtl: nat, ops: seq<Op>, id: string, since: nat) {
    id in Run(defaultTtl, ops).store ==>
      match LastKept(defaultTtl, ops, id)
      case None => false
      case Some(k) => k.fetch.asked >= since
  }

  /** The exact line for rotation: after an invalidation the cache never again, in any continuation, holds what
      AWS said before it, if and only if no fetch of that id was waiting to be stored when it ran. */
  lemma InvalidationIsFinalIff(defaultTtl: nat, ops: seq<Op>, op: Op, id: string)
    requires Invalidates(op, id)
    ensures (forall more: seq<Op> :: HeldSince(defaultTtl, ops + [op] + more, id, |ops|))
            <==> forall f | f in Run(defaultTtl, ops).fetches :: f.id != id
  {
    hide IsExpired, EntryOf;
    var s := Run(defaultTtl, ops);
    assert (ops + [op])[..|ops|] == ops;
    if forall f | f in s.fetches :: f.id != id {
      forall more: seq<Op> ensures HeldSince(defaultTtl, ops + [op] + more, id, |ops|) {
        NothingOlder(defaultTtl, ops, op, id, more);
      }
    } else {
      var i :| 0 <= i < |s.fetches| && s.fetches[i].id == id;
      var late := ops + [op] + [Keep(i, 0)];
      assert late[..|late| - 1] == ops + [op] && late[|late| - 1] == Keep(i, 0);
      FetchesWereAsked(defaultTtl, ops);
      assert WasAsked(ops, s.fetches[i]);
      assert Run(defaultTtl, ops + [op]).fetches == s.fetches;
      assert LastKept(defaultTtl, late, id) == Some(Kept(s.fetches[i], 0));
      assert !HeldSince(defaultTtl, late, id, |ops|);
    }
  }

  lemma {:induction false} NothingOlder(defaultTtl: nat, ops: seq<Op>, op: Op, id: string, more: seq<Op>)
    requires Invalidates(op, id) && forall f | f in Run(defaultTtl, ops).fetches :: f.id != id
    ensures var all := ops + [op] + more;
            && HeldSince(defaultTtl, all, id, |ops|)
            && forall f | f in Run(defaultTtl, all).fetches :: f.id == id ==> f.asked >= |ops|
  {
    hide IsExpired, EntryOf;
    var all := ops + [op] + more;
    if more == [] {
      assert all == ops + [op] && all[..|all| - 1] == ops;
    } else {
      var before := ops + [op] + more[..|more| - 1];
      assert all[..|all| - 1] == before && all[|all| - 1] == more[|more| - 1];
      NothingOlder(defaultTtl, ops, op, id, more[..|more| - 1]);
    }
  }

  /** A late removal hit the id after the last store under it. */
  predicate SweptSince(ops: seq<Op>, defaultTtl: nat, id: string) {
    ops != [] &&
    (var before, op := ops[..|ops| - 1], ops[|ops| - 1];
     var s := Run(defaultTtl, before);
     if op.Keep? && op.i < |s.fetches| && s.fetches[op.i].id == id then false
     else (op.Sweep? && op.i < |s.sweeps| && s.sweeps[op.i] == id) || SweptSince(before, defaultTtl, id))
  }

  /** The cache agrees with "the last one stored" exactly, except for ids that a late removal hit in between. */
  lemma {:induction false} MissesAreExplained(defaultTtl: nat, ops: seq<Op>, id: string)
    ensures id in Run(defaultTtl, ops).store
            <==> LastKept(defaultTtl, ops, id).Some? && !SweptSince(ops, defaultTtl, id)
  {
    if ops != [] {
      MissesAreExplained(defaultTtl, ops[..|ops| - 1], id);
    }
  }

  /** Only ids whose entry a lookup has seen expired are ever swept. */
  lemma {:induction false} SweepsWereExpired(defaultTtl: nat, ops: seq<Op>, id: string)
    requires id in Run(defaultTtl, ops).sweeps
    ensures exists i, now :: 0 <= i < |ops| && ops[i] == Look(id, now)
              && id in Run(defaultTtl, ops[..i]).store && IsExpired(Run(defaultTtl, ops[..i]).store[id], now)
  {
    var before, op := ops[..|ops| - 1], ops[|ops| - 1];
    var s := Run(defaultTtl, before);
    if id in s.sweeps {
      SweepsWereExpired(defaultTtl, before, id);
      var i, now :| 0 <= i < |before| && before[i] == Look(id, now)
        && id in Run(defaultTtl, before[..i]).store && IsExpired(Run(defaultTtl, before[..i]).store[id], now);
      assert ops[i] == Look(id, now) && ops[..i] == before[..i];
    } else {
      assert op.Look?;
      assert ops[..|ops| - 1] == before;
    }
  }

  // ---------- one client ----------

  /** What a client is asked to do, for any ids: a lookup (the clock at the lookup, what AWS would answer then, the
      clock after the fetch), a refresh, or an invalidation by hand or on rotation. */
  datatype Call =
    | Get(id: string, now: int, fetched: Fetched, later: int)
    | Refresh(id: string, fetched: Fetched, later: int)
    | Forget(id: string)

  function Slot(store: Store, id: string): Option<CachedCredential> {
    if id in store then Some(store[id]) else None
  }

  function Fill(defaultTtl: nat, ttl: nat, fetched: Fetched, later: int): Option<CachedCredential> {
    match fetched
    case Ok(secret) => Some(WithDefault(Entry(secret, later, ttl), defaultTtl))
    case Err(_) => None
  }

  /** What one call leaves in the slot of an id. */
  function NextHeld(defaultTtl: nat, ttl: nat, id: string, held: Option<CachedCredential>, call: Call)
    : Option<CachedCredential>
  {
    if call.id != id then held
    else
      match call
      case Get(_, now, fetched, later) =>
        if held.Some? && !IsExpired(held.value, now) then held else Fill(defaultTtl, ttl, fetched, later)
      case Refresh(_, fetched, later) => Fill(defaultTtl, ttl, fetched, later)
      case Forget(_) => None
  }

  function Held(defaultTtl: nat, ttl: nat, id: string, calls: seq<Call>): Option<CachedCredential> {
    if calls == [] then None
    else NextHeld(defaultTtl, ttl, id, Held(defaultTtl, ttl, id, calls[..|calls| - 1]), calls[|calls| - 1])
  }

  /** The answer to the lookup `call` after `calls`. */
  function AnswerAfter(defaultTtl: nat, ttl: nat, calls: seq<Call>, call: Call): Answer
    requires call.Get?
  {
    var held := Held(defaultTtl, ttl, call.id, calls);
    if held.Some? && !IsExpired(held.value, call.now) then Given(held.value.credential) else AnswerOf(call.fetched)
  }

  predicate Fetches(call: Call, id: string) {
    call.id == id && !call.Forget? && call.fetched.Ok?
  }

  predicate Forgets(call: Call, id: string) {
    call.id == id && !call.Get?
  }

  /** Caching agrees with fetching every time, up to the ttl, over any sequence of lookups, refreshes and
      invalidations of any ids: an answer is what AWS says at this call, or what it said at an earlier call for
      the id whose fetch finished less than the ttl ago, with no refresh or invalidation of the id since. */
  lemma {:induction false} CachingIsFetchingUpToTtl(defaultTtl: nat, ttl: nat, calls: seq<Call>, call: Call)
    requires call.Get? && ttl <= SAFE_TTL && defaultTtl <= SAFE_TTL
    requires forall c | c in calls && !c.Forget? :: InClockRange(call.now - c.later, CLOCK_SPAN)
    ensures AnswerAfter(defaultTtl, ttl, calls, call) == AnswerOf(call.fetched)
            || exists i :: 0 <= i < |calls| && Fetches(calls[i], call.id)
                           && AnswerAfter(defaultTtl, ttl, calls, call) == AnswerOf(calls[i].fetched)
                           && -1_000_000_000 < call.now - calls[i].later
                           && call.now - calls[i].later < (if ttl == 0 then defaultTtl else ttl) * 1_000_000_000
                           && forall j | i < j < |calls| :: !Forgets(calls[j], call.id)
  {
    var held := Held(defaultTtl, ttl, call.id, calls);
    if held.Some? && !IsExpired(held.value, call.now) {
      var i := HeldWasFetched(defaultTtl, ttl, call.id, calls);
      NotExpiredIsFresh(held.value, call.now, CLOCK_SPAN);
    }
  }

  lemma {:induction false} HeldWasFetched(defaultTtl: nat, ttl: nat, id: string, calls: seq<Call>) returns (i: nat)
    requires Held(defaultTtl, ttl, id, calls).Some?
    ensures i < |calls| && Fetches(calls[i], id)
    ensures Held(defaultTtl, ttl, id, calls) == Fill(defaultTtl, ttl, calls[i].fetched, calls[i].later)
    ensures forall j | i < j < |calls| :: !Forgets(calls[j], id)
  {
    hide IsExpired;
    var before, call := calls[..|calls| - 1], calls[|calls| - 1];
    var held := Held(defaultTtl, ttl, id, before);
    if call.id != id || (call.Get? && held.Some? && !IsExpired(held.value, call.now)) {
      i := HeldWasFetched(defaultTtl, ttl, id, before);
      assert calls[i] == before[i];
      forall j | i < j < |calls| ensures !Forgets(calls[j], id) {
        if j < |before| { assert calls[j] == before[j]; }
      }
    } else {
      i := |calls| - 1;
    }
  }
}

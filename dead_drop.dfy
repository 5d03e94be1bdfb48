/** The values a dead-drop node works with, and the pure rules its operations
    follow: how a TTL becomes an expiry instant, when a drop may be handed out,
    which peer answer is relayed, and what one sweep of the store keeps.
    The class in node.dfy is proved against these functions. */
module DeadDrop {

  /** Go's `int`/`int64`: the TTL field of a drop request. */
  type Int64 = x: int | -0x8000_0000_0000_0000 <= x < 0x8000_0000_0000_0000

  /** A caller-chosen identifier, taken verbatim from the request. */
  type Id = string

  /** Raw bytes: a decoded payload, or a peer's response body. */
  type Bytes = seq<bv8>

  /** A stored payload and the absolute instant (nanoseconds) it expires. */
  datatype Drop = Drop(payload: Bytes, expiresAt: int)

  /** What one `GET <peer>/receive/<id>` produced: a transport error, or a
      response with a status code and a body. */
  datatype PeerOutcome = NetError | Status(code: int, body: Bytes)

  /** An entry found in the store, or none (Go's comma-ok lookup). */
  datatype Option<T> = None | Some(value: T)

  /** What a receive delivers to its caller. */
  datatype Receipt = LocalHit(payload: Bytes) | Relayed(body: Bytes) | NotFound

  const NanosPerSecond: int := 1_000_000_000
  const StatusOK: int := 200
  const TwoTo63: int := 0x8000_0000_0000_0000
  const TwoTo64: int := 0x1_0000_0000_0000_0000

  /** The largest number of seconds whose `time.Duration` does not overflow. */
  const MaxTtlSeconds: int := 9_223_372_036

  /** Two's-complement wrap-around of a 64-bit signed product. */
  function Wrap64(x: int): (r: int)
    ensures -TwoTo63 <= r < TwoTo63
    ensures (x - r) % TwoTo64 == 0
    ensures -TwoTo63 <= x < TwoTo63 ==> r == x
  {
    (x + TwoTo63) % TwoTo64 - TwoTo63
  }

  /** `time.Duration(ttl) * time.Second`, in nanoseconds, as Go computes it:
      an int64 multiplication that wraps on overflow. */
  function Duration(ttl: Int64): (d: int)
    ensures -TwoTo63 <= d < TwoTo63
    ensures -MaxTtlSeconds <= ttl <= MaxTtlSeconds ==> d == ttl * NanosPerSecond
    ensures -MaxTtlSeconds <= ttl <= MaxTtlSeconds ==> (d > 0 <==> ttl > 0)
  {
    Wrap64(ttl * NanosPerSecond)
  }

  /** The drop a put at `now` stores: `now.Add(Duration(ttl))`. */
  function NewDrop(payload: Bytes, ttl: Int64, now: int): Drop {
    Drop(payload, now + Duration(ttl))
  }

  /** The receive-side test `now.Before(expiresAt)`: strictly before. */
  predicate Deliverable(d: Drop, now: int) {
    now < d.expiresAt
  }

  /** The sweep-side test `now.After(expiresAt)`: strictly after. */
  predicate Expired(d: Drop, now: int) {
    now > d.expiresAt
  }

  /** A peer answer that stops the walk: a response with status 200. */
  predicate IsSuccess(o: PeerOutcome) {
    o.Status? && o.code == StatusOK
  }

  /** Index of the first successful peer answer, or |replies| when none is. */
  function FirstSuccess(replies: seq<PeerOutcome>): (k: nat)
    ensures k <= |replies|
    ensures forall j :: 0 <= j < k ==> !IsSuccess(replies[j])
    ensures k < |replies| ==> IsSuccess(replies[k])
  {
    if replies == [] then 0
    else if IsSuccess(replies[0]) then 0
    else 1 + FirstSuccess(replies[1..])
  }

  /** What the walk over the peers delivers: the first 200 body, or NotFound. */
  function Relay(replies: seq<PeerOutcome>): Receipt {
    var k := FirstSuccess(replies);
    if k < |replies| then Relayed(replies[k].body) else NotFound
  }

  /** How many peers the walk asks: up to and including the first success. */
  function Contacted(replies: seq<PeerOutcome>): nat {
    var k := FirstSuccess(replies);
    if k < |replies| then k + 1 else |replies|
  }

  /** The URL a node requests from `peer` on behalf of `id`. */
  function PeerUrl(peer: string, id: Id): string {
    peer + "/receive/" + id
  }

  /** The URLs of the first `n` peers, in list order. */
  function Requests(peers: seq<string>, id: Id, n: nat): (urls: seq<string>)
    requires n <= |peers|
    ensures |urls| == n
    ensures forall j :: 0 <= j < n ==> urls[j] == PeerUrl(peers[j], id)
  {
    if n == 0 then [] else Requests(peers, id, n - 1) + [PeerUrl(peers[n - 1], id)]
  }

  /** Whether a receive of `id` at `now` is answered from `store` itself. */
  predicate LocalHitIn(store: map<Id, Drop>, id: Id, now: int) {
    id in store && Deliverable(store[id], now)
  }

  /** What a receive of `id` at `now` delivers, given the store before it and
      the answers the peers would give. */
  function Lookup(store: map<Id, Drop>, id: Id, now: int, replies: seq<PeerOutcome>): Receipt {
    if LocalHitIn(store, id, now) then LocalHit(store[id].payload) else Relay(replies)
  }

  /** How many peers a receive of `id` at `now` asks. */
  function Consulted(store: map<Id, Drop>, id: Id, now: int, replies: seq<PeerOutcome>): nat {
    if LocalHitIn(store, id, now) then 0 else Contacted(replies)
  }

  /** The store after one sweep at `now`: the entries not expired at `now`. */
  function Swept(store: map<Id, Drop>, now: int): (s: map<Id, Drop>)
    ensures s.Keys <= store.Keys
    ensures forall id :: id in s ==> s[id] == store[id]
    ensures forall id :: id in store ==> (id in s <==> store[id].expiresAt >= now)
  {
    map id | id in store && !Expired(store[id], now) :: store[id]
  }

  // ---------------------------------------------------------------------
  // Forwarding

  /** The walk relays the body of the smallest index whose answer is a 200,
      every earlier peer having failed, and asks exactly the peers up to it. */
  lemma RelayIsFirstSuccess(replies: seq<PeerOutcome>, i: nat)
    requires i < |replies| && IsSuccess(replies[i])
    requires forall j :: 0 <= j < i ==> !IsSuccess(replies[j])
    ensures Relay(replies) == Relayed(replies[i].body)
    ensures Contacted(replies) == i + 1
  {
  }

  /** The walk delivers NotFound exactly when no peer answered 200, and then it
      has asked every peer. */
  lemma RelayNotFound(replies: seq<PeerOutcome>)
    ensures Relay(replies) == NotFound <==> forall j :: 0 <= j < |replies| ==> !IsSuccess(replies[j])
    ensures Relay(replies) == NotFound ==> Contacted(replies) == |replies|
  {
  }

  /** A relayed body is always the body of some peer's 200 answer; the walk
      never makes one up. */
  lemma RelayedComesFromAPeer(replies: seq<PeerOutcome>, b: Bytes)
    requires Relay(replies) == Relayed(b)
    ensures exists i :: 0 <= i < |replies| && replies[i] == Status(StatusOK, b)
  {
  }

  /** Failing peers ahead of the rest change nothing about what is relayed;
      they only add to the number of peers asked. */
  lemma {:induction false} RelaySkipsFailures(failed: seq<PeerOutcome>, rest: seq<PeerOutcome>)
    requires forall j :: 0 <= j < |failed| ==> !IsSuccess(failed[j])
    ensures Relay(failed + rest) == Relay(rest)
    ensures Contacted(failed + rest) == |failed| + Contacted(rest)
  {
    if failed != [] {
      assert (failed + rest)[0] == failed[0];
      assert (failed + rest)[1..] == failed[1..] + rest;
      RelaySkipsFailures(failed[1..], rest);
    } else {
      assert failed + rest == rest;
    }
  }

  /** Once a peer has answered 200, the peers after it neither matter nor are asked. */
  lemma {:induction false} RelayStopsAtSuccess(head: seq<PeerOutcome>, rest: seq<PeerOutcome>)
    requires exists j :: 0 <= j < |head| && IsSuccess(head[j])
    ensures Relay(head + rest) == Relay(head)
    ensures Contacted(head + rest) == Contacted(head)
  {
    if IsSuccess(head[0]) {
      assert (head + rest)[0] == head[0];
    } else {
      var j :| 0 <= j < |head| && IsSuccess(head[j]);
      assert j > 0 && IsSuccess(head[1..][j - 1]);
      assert (head + rest)[0] == head[0];
      assert (head + rest)[1..] == head[1..] + rest;
      RelayStopsAtSuccess(head[1..], rest);
    }
  }

  // ---------------------------------------------------------------------
  // Put and receive

  /** A non-positive TTL whose duration does not overflow stores a drop that a
      receive at the same instant does not hand out: the lookup falls through
      to the peers. */
  lemma NonPositiveTtlNotDelivered(store: map<Id, Drop>, id: Id, p: Bytes, ttl: Int64, now: int,
                                   replies: seq<PeerOutcome>)
    requires -MaxTtlSeconds <= ttl <= 0
    ensures !Deliverable(NewDrop(p, ttl, now), now)
    ensures Lookup(store[id := NewDrop(p, ttl, now)], id, now, replies) == Relay(replies)
  {
  }

  /** Go's duration product wraps: a TTL of -10^10 seconds yields a drop that
      is deliverable for centuries, although the TTL is negative. */
  lemma LargeNegativeTtlWraps(p: Bytes, now: int)
    ensures Duration(-10_000_000_000) == 8_446_744_073_709_551_616
    ensures Deliverable(NewDrop(p, -10_000_000_000, now), now)
  {
  }

  /** Go's duration product wraps on the positive side too: a TTL of
      9223372037 seconds, one past the bound, yields a negative duration, so
      the drop is not deliverable even at the instant it was put. */
  lemma LargePositiveTtlWraps(p: Bytes, now: int)
    ensures Duration(9_223_372_037) < 0
    ensures !Deliverable(NewDrop(p, 9_223_372_037, now), now)
  {
  }

  /** The bound on the round trip below is tight: every TTL above it yields a
      duration shorter than `ttl` seconds, so some instant inside the nominal
      lifetime already misses the drop; `later` is such an instant. */
  lemma LongTtlCutsLifetimeShort(store: map<Id, Drop>, id: Id, p: Bytes, ttl: Int64, now: int)
    returns (later: int)
    requires ttl > MaxTtlSeconds
    ensures Duration(ttl) < ttl * NanosPerSecond
    ensures now <= later < now + ttl * NanosPerSecond
    ensures !LocalHitIn(store[id := NewDrop(p, ttl, now)], id, later)
  {
    assert ttl * NanosPerSecond >= (MaxTtlSeconds + 1) * NanosPerSecond;
    later := if Duration(ttl) < 0 then now else now + Duration(ttl);
  }

  /** Round trip: a drop put with a positive TTL is handed out, payload intact
      and without asking any peer, by a receive at any instant before the TTL
      has run out. */
  lemma PutThenReceive(store: map<Id, Drop>, id: Id, p: Bytes, ttl: Int64, now: int, later: int,
                       replies: seq<PeerOutcome>)
    requires 0 < ttl <= MaxTtlSeconds
    requires now <= later < now + ttl * NanosPerSecond
    ensures Lookup(store[id := NewDrop(p, ttl, now)], id, later, replies) == LocalHit(p)
    ensures Consulted(store[id := NewDrop(p, ttl, now)], id, later, replies) == 0
  {
  }

  /** Overwrite: of two puts to the same id, only the second can be received. */
  lemma LastPutWins(store: map<Id, Drop>, id: Id, a: Bytes, b: Bytes, ttl1: Int64, ttl2: Int64,
                    t1: int, t2: int, now: int, replies: seq<PeerOutcome>)
    ensures var s := store[id := NewDrop(a, ttl1, t1)][id := NewDrop(b, ttl2, t2)];
            Lookup(s, id, now, replies) == Lookup(store[id := NewDrop(b, ttl2, t2)], id, now, replies)
    ensures var s := store[id := NewDrop(a, ttl1, t1)][id := NewDrop(b, ttl2, t2)];
            Lookup(s, id, now, replies) != LocalHit(a) || a == b
  {
  }

  /** A drop whose expiry is at or before `now` is never handed out; with no
      peers configured such a receive is NotFound. */
  lemma ExpiredNotDelivered(store: map<Id, Drop>, id: Id, now: int, replies: seq<PeerOutcome>)
    requires id in store && store[id].expiresAt <= now
    ensures Lookup(store, id, now, replies) == Relay(replies)
    ensures Lookup(store, id, now, []) == NotFound
  {
  }

  /** Single shot: once a receive has removed `id`, a second receive is never
      a local hit; with no peers it is NotFound. So two receives in a row with
      no peers give at most one hit. */
  lemma SecondReceiveMisses(store: map<Id, Drop>, id: Id, now1: int, now2: int,
                            replies: seq<PeerOutcome>)
    ensures Lookup(store - {id}, id, now2, replies) == Relay(replies)
    ensures Lookup(store - {id}, id, now2, []) == NotFound
    ensures Lookup(store, id, now1, []).LocalHit? || Lookup(store, id, now1, []) == NotFound
  {
  }

  // ---------------------------------------------------------------------
  // Sweep

  /** Take and sweep commute: deleting an id and sweeping give the same store
      in either order, so a sweep that finds an id already taken, or a take
      that finds an id already swept, is harmless. */
  lemma TakeAndSweepCommute(store: map<Id, Drop>, id: Id, now: int)
    ensures Swept(store - {id}, now) == Swept(store, now) - {id}
  {
  }

  /** Sweeping twice at the same instant is sweeping once; a later sweep
      subsumes an earlier one. */
  lemma SweepIdempotent(store: map<Id, Drop>, earlier: int, later: int)
    requires earlier <= later
    ensures Swept(Swept(store, later), later) == Swept(store, later)
    ensures Swept(Swept(store, earlier), later) == Swept(store, later)
  {
  }

  /** The two boundaries differ: a drop expiring exactly at `now` is not
      deliverable at `now`, yet a sweep at `now` keeps it. */
  lemma ExpiryBoundary(store: map<Id, Drop>, id: Id, now: int)
    requires id in store && store[id].expiresAt == now
    ensures !LocalHitIn(store, id, now)
    ensures id in Swept(store, now) && Swept(store, now)[id] == store[id]
  {
  }

  /** A sweep never removes a deliverable drop: at and after the sweep's
      instant every receive delivers what it would have without the sweep. */
  lemma SweepInvisibleToReceive(store: map<Id, Drop>, swept: int, id: Id, now: int,
                                replies: seq<PeerOutcome>)
    requires swept <= now
    ensures Lookup(Swept(store, swept), id, now, replies) == Lookup(store, id, now, replies)
    ensures Consulted(Swept(store, swept), id, now, replies) == Consulted(store, id, now, replies)
  {
  }

  /** Liveness of the sweeper: a sweep at any instant after a drop's expiry
      removes it. */
  lemma SweepRemovesExpired(store: map<Id, Drop>, id: Id, now: int)
    requires id in store && Expired(store[id], now)
    ensures id !in Swept(store, now)
  {
  }
}

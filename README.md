# Dead-drop relay node, modelled in Dafny

A dead-drop node keeps small binary payloads ("drops") under caller-chosen ids
for a limited time. A receive consumes a drop: the entry is removed whether or
not it is still valid, and its payload is handed out only if the receive comes
strictly before the drop's expiry. On a local miss the node asks its peers one
after another, in the order fixed at construction, and relays the body of the
first peer that answers 200. A periodic sweep deletes drops whose expiry lies
strictly in the past.

The project has three modules:

- `DeadDrop` (`dead_drop.dfy`): the values (`Drop`, `PeerOutcome`, `Receipt`),
  Go's TTL arithmetic, and the pure rules the node follows: `Deliverable`
  (`now.Before(expiresAt)`), `Expired` (`now.After(expiresAt)`), `Relay` (the
  first-200 walk), `Lookup` (what a receive delivers), `Swept` (what one sweep
  keeps). The lemmas about them state the properties of the store.
- `Nodes` (`node.dfy`): the `Node` class with its constant peer list and its
  `store` map, and the methods `Put`, `Take`, `Forward`, `Receive` and `Sweep`
  that update the map in place. Each is proved against the functions above.
- `NodeScenarios` (`node_scenarios.dfy`): the repository's two unit tests and
  a few further concrete runs (overwrite, forwarding past an unreachable peer,
  TTL 0, sweep timing), written as runs of a `Node`, proved for every start
  instant.

Time is an integer count of nanoseconds, passed in as `now`. A TTL is Go's
`int`. Its duration is computed as Go computes `time.Duration(ttl) * time.Second`:
an int64 product that wraps on overflow (`Wrap64`, `Duration`). The peers'
answers are an input `replies`, one `PeerOutcome` per peer in list order.
`Receive` and `Forward` also return the list of URLs they requested, so it is
visible which peers were asked.

Two behaviours of the code that one might not expect:

- One might expect a sweep to remove entries expiring at or before `now`. The
  code removes only those expiring strictly before it (main.go:108). So an
  entry whose expiry equals `now` is not deliverable at `now` and yet survives
  a sweep at `now` (`ExpiryBoundary`). It is never delivered later either,
  because its expiry is at or before every later instant
  (`ExpiredNotDelivered`).
- One might expect a zero or negative TTL to make the entry immediately
  expired. In the code this is guaranteed only while `ttl * 10^9` fits in
  int64, that is for `|ttl| <= 9223372036` seconds
  (`NonPositiveTtlNotDelivered`). Beyond that the product wraps and the outcome
  depends on the TTL: `-10^10` seconds gives a duration of about +267 years
  (`LargeNegativeTtlWraps`), while `-2^63` seconds gives 0. On the positive
  side, `9223372037` seconds wraps to a negative duration
  (`LargePositiveTtlWraps`), and every TTL above the bound yields a lifetime
  shorter than asked (`LongTtlCutsLifetimeShort`). So the round trip of a
  positive TTL (`PutThenReceive`) holds exactly for TTLs up to that bound.

## Model

| member | source | states |
|---|---|---|
| `DeadDrop.Wrap64` | main.go:59 | the result lies in the int64 range, is congruent to its argument modulo 2^64, and equals it when the argument is already in range |
| `DeadDrop.Duration` | main.go:59 | the duration of a TTL is an int64; for TTLs of at most 9223372036 seconds in size it is exactly `ttl * 10^9` nanoseconds and positive exactly when the TTL is |
| `DeadDrop.FirstSuccess` | main.go:84-96 | the index at which the peer walk stops: every earlier answer is a transport error or non-200, and the answer there (if any) is a 200 |
| `DeadDrop.Requests` | main.go:84-85 | the first `n` requested URLs are `peer + "/receive/" + id` for the first `n` peers, in list order |
| `DeadDrop.Swept` | main.go:107-111 | one sweep keeps a subset of the store, with values unchanged, holding exactly the entries whose expiry is at or after `now` |
| `DeadDrop.RelayIsFirstSuccess` | main.go:84-96 | if peer `i` answers 200 and every earlier peer failed, the walk relays peer `i`'s body and has asked exactly `i + 1` peers |
| `DeadDrop.RelayNotFound` | main.go:84-98 | the walk ends in NotFound if and only if no peer answered 200, and then it has asked every peer |
| `DeadDrop.RelayedComesFromAPeer` | main.go:91-94 | a relayed body is the body of some peer's 200 answer |
| `DeadDrop.RelaySkipsFailures` | main.go:85-88 | failing peers ahead of the rest leave the relayed result unchanged and only add to the count of peers asked |
| `DeadDrop.RelayStopsAtSuccess` | main.go:91-95 | peers after a 200 answer affect neither the result nor the peers asked |
| `DeadDrop.NonPositiveTtlNotDelivered` | main.go:56-82 | a put with a non-positive TTL (no overflow) stores a drop that a receive at the same instant does not hand out; the receive falls through to the peers |
| `DeadDrop.LargeNegativeTtlWraps` | main.go:59 | a TTL of -10^10 seconds wraps to a positive duration, so that drop is deliverable at the instant it was put |
| `DeadDrop.LargePositiveTtlWraps` | main.go:59 | a TTL of 9223372037 seconds wraps to a negative duration, so that drop is not deliverable even at the instant it was put |
| `DeadDrop.LongTtlCutsLifetimeShort` | main.go:59 | for every TTL above 9223372036 seconds the duration is shorter than `ttl` seconds, and the returned instant inside the nominal lifetime is not a local hit |
| `DeadDrop.PutThenReceive` | main.go:56-81 | a drop put with a TTL of 1 to 9223372036 seconds (where Go's `time.Duration(ttl) * time.Second` does not wrap) is handed out with the same payload, asking no peer, by a receive at any instant before the TTL runs out |
| `DeadDrop.LastPutWins` | main.go:57-60 | after two puts to one id a receive behaves as if only the second had happened, and the first payload is never handed out unless it equals the second |
| `DeadDrop.ExpiredNotDelivered` | main.go:76-98 | a drop whose expiry is at or before `now` is never handed out; with no peers the receive is NotFound |
| `DeadDrop.SecondReceiveMisses` | main.go:69-74 | once a receive has removed the id, a further receive is never a local hit and is NotFound without peers; without peers a receive is a local hit or NotFound |
| `DeadDrop.TakeAndSweepCommute` | main.go:104-111 | deleting an id and sweeping give the same store in either order, so a take and a sweep that both reach one id never conflict |
| `DeadDrop.SweepIdempotent` | main.go:104-111 | sweeping twice at the same instant equals sweeping once, and a later sweep subsumes an earlier one |
| `DeadDrop.ExpiryBoundary` | main.go:104-110 | a drop expiring exactly at `now` is not deliverable at `now` but is kept by a sweep at `now` |
| `DeadDrop.SweepInvisibleToReceive` | main.go:104-111 | a sweep never changes what a receive at or after the sweep's instant delivers, nor which peers it asks |
| `DeadDrop.SweepRemovesExpired` | main.go:108-109 | a sweep at an instant strictly after a drop's expiry removes it |
| `Nodes.Node.constructor` | main.go:25-30 | a new node has the given peer list and an empty store |
| `Nodes.Node.Put` | main.go:56-61 | the store maps `id` to `Drop(payload, now + Duration(ttl))`, any earlier drop for `id` is gone, every other entry is unchanged |
| `Nodes.Node.Take` | main.go:69-74 | returns the stored drop for `id` if there was one and removes `id` from the store in every case, nothing else changing |
| `Nodes.Node.Forward` | main.go:84-98 | relays the first 200 body or NotFound (`Relay`), having requested exactly the peers up to the first 200, or all of them |
| `Nodes.Node.Receive` | main.go:66-98 | removes `id` whatever its state; delivers `Lookup` of the old store (local payload if strictly before expiry, otherwise the peer walk); asks no peer on a local hit |
| `Nodes.Node.Sweep` | main.go:101-111 | the new store is `Swept(old store, now)`: entries expired strictly before `now` deleted, all others unchanged |
| `NodeScenarios.DropAndReceive` | node_test.go:13-45 | put "hello" with TTL 5 and receive it: the payload comes back, as the test asserts; a repeat receive, which the test does not make, is NotFound because of the delete at main.go:72 |
| `NodeScenarios.ReceiveExpired` | node_test.go:48-64 | a drop that expired one second ago is NotFound and is no longer stored afterwards |
| `NodeScenarios.ForwardPastUnreachablePeer` | main.go:84-95 | with an unreachable first peer and a second peer answering 200, the second peer's body is relayed after asking both in order |
| `NodeScenarios.OverwriteThenReceive` | main.go:57-60 | of two puts to one id, the receive hands out the second payload |
| `NodeScenarios.ZeroTtlFallsThrough` | main.go:56-87 | a TTL-0 drop is not handed out, the peer's answer is relayed instead, and the drop is removed |
| `NodeScenarios.SweepAfterExpiry` | main.go:101-111 | a sweep at a drop's exact expiry keeps it; a sweep after it removes it without any receive |

## Left out

- JSON and base64 decoding of the drop request and encoding of the receive
  response (main.go:44-54, main.go:77-80): standard-library codecs. Payloads are
  the already-decoded bytes, and a local hit returns those bytes.
- HTTP wiring: the method check and its 405, the 400 answers, `WriteHeader`,
  `io.Copy`, path parsing with `strings.TrimPrefix`, `http.NotFound`
  (main.go:38-43, main.go:63, main.go:67, main.go:92-93, main.go:98). These are
  network plumbing; the model returns a `Receipt` instead of writing a response.
- `http.Get` and its timeouts, redirects and body handling, including the
  deferred `resp.Body.Close()` that only runs when the handler returns
  (main.go:85-89): network I/O. Each peer's answer is an input `PeerOutcome`.
- The mutex, the `CleanupLoop` goroutine and its 10-second `time.Sleep`
  (main.go:22, main.go:56, main.go:69, main.go:101-103, main.go:122): they exist
  for concurrency. Every operation is modelled as one atomic step, and `Sweep`
  is one iteration of the loop.
- `time.Now()`: replaced by the parameter `now`. Go's monotonic-clock details
  and the range limits of `time.Time` are not modelled; instants are unbounded
  integers of nanoseconds.
- Go's map iteration order is unspecified; `Sweep` visits keys in an arbitrary
  order, and its result does not depend on that order.
- `main` and logging (main.go:116-129): process startup.
- Go's `int` is taken to be 64 bits wide, as on 64-bit targets. On a 32-bit
  target the TTL cannot exceed about 2.1e9 seconds, so the duration product
  never wraps there; that case is not modelled separately.
- Ids are Dafny strings (sequences of Unicode scalar values), whereas Go map
  keys are byte strings. An id whose bytes are not valid UTF-8 (a path
  segment decoded from `%FF`, say) cannot be represented in the model.

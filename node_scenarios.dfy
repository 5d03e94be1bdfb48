/** Concrete runs of a node, built from its own methods: the two unit tests of
    the repository and a few further runs (overwrite, forwarding past an
    unreachable peer, TTL 0, sweep timing), each proved for every starting
    instant. */
module NodeScenarios {
  import opened DeadDrop
  import opened Nodes

  /** The bytes of "hello". */
  const Hello: Bytes := [0x68, 0x65, 0x6c, 0x6c, 0x6f]

  /** Put "x1" with a 5 second TTL on a node without peers, then receive it
      twice: the first receive hands out the payload, the repeat is NotFound. */
  method DropAndReceive(now: int) returns (first: Receipt, second: Receipt)
    ensures first == LocalHit(Hello)
    ensures second == NotFound
  {
    var node := new Node([]);
    node.Put("x1", Hello, 5, now);
    var asked;
    first, asked := node.Receive("x1", now, []);
    second, asked := node.Receive("x1", now, []);
  }

  /** A drop placed in the store with an expiry one second in the past is
      NotFound on a node without peers, and is gone from the store afterwards. */
  method ReceiveExpired(now: int) returns (r: Receipt, held: bool)
    ensures r == NotFound
    ensures !held
  {
    var node := new Node([]);
    node.store := node.store["exp" := Drop([0x78], now - NanosPerSecond)];
    var asked;
    r, asked := node.Receive("exp", now, []);
    held := "exp" in node.store;
  }

  /** With peers [P1, P2], where P1 cannot be reached and P2 answers 200, a
      local miss relays P2's body after asking both, in order. */
  method ForwardPastUnreachablePeer(body: Bytes, now: int) returns (r: Receipt, asked: seq<string>)
    ensures r == Relayed(body)
    ensures asked == ["http://p1/receive/k", "http://p2/receive/k"]
  {
    var node := new Node(["http://p1", "http://p2"]);
    var replies := [NetError, Status(StatusOK, body)];
    RelayIsFirstSuccess(replies, 1);
    r, asked := node.Receive("k", now, replies);
    assert asked == [PeerUrl("http://p1", "k"), PeerUrl("http://p2", "k")];
    assert PeerUrl("http://p1", "k") == "http://p1/receive/k";
    assert PeerUrl("http://p2", "k") == "http://p2/receive/k";
  }

  /** Two puts to one id, then a receive: the second payload is handed out. */
  method OverwriteThenReceive(a: Bytes, b: Bytes, now: int) returns (r: Receipt)
    ensures r == LocalHit(b)
  {
    var node := new Node(["http://p1"]);
    node.Put("id", a, 60, now);
    node.Put("id", b, 30, now);
    var asked;
    r, asked := node.Receive("id", now, [Status(StatusOK, a)]);
  }

  /** A put with TTL 0 is caught by the next receive: not handed out, relayed
      from the only peer instead, and removed from the store. */
  method ZeroTtlFallsThrough(p: Bytes, body: Bytes, now: int) returns (r: Receipt, held: bool)
    ensures r == Relayed(body)
    ensures !held
  {
    var node := new Node(["http://p1"]);
    node.Put("z", p, 0, now);
    var asked;
    r, asked := node.Receive("z", now, [Status(StatusOK, body)]);
    held := "z" in node.store;
  }

  /** A sweep ten seconds after a 5 second drop removes it without any
      receive; a sweep at its exact expiry instant keeps it. */
  method SweepAfterExpiry(p: Bytes, now: int) returns (keptAtExpiry: bool, keptLater: bool)
    ensures keptAtExpiry
    ensures !keptLater
  {
    var node := new Node([]);
    node.Put("s", p, 5, now);
    node.Sweep(now + 5 * NanosPerSecond);
    keptAtExpiry := "s" in node.store;
    node.Sweep(now + 10 * NanosPerSecond);
    keptLater := "s" in node.store;
  }
}

/** The node of a dead-drop relay: a store of drops keyed by id, updated in
    place by put, take and sweep, and a fixed, ordered list of peers that a
    receive asks, one after another, when the store cannot answer. Time is
    the explicit parameter `now` (nanoseconds); the peers' answers are the
    explicit parameter `replies`, one per peer in list order. */
module Nodes {
  import opened DeadDrop

  class Node {
    /** Base URLs of the peers, in the order given at construction. */
    const peers: seq<string>
    /** The drops held by this node, by id. */
    var store: map<Id, Drop>

    /** A node with the given peers and an empty store. */
    constructor (peers: seq<string>)
      ensures this.peers == peers
      ensures store == map[]
    {
      this.peers := peers;
      store := map[];
    }

    /** Store `payload` under `id` until `now + ttl` seconds, replacing any
        earlier drop for `id`; every other entry is left alone. */
    method Put(id: Id, payload: Bytes, ttl: Int64, now: int)
      modifies this`store
      ensures store == old(store)[id := NewDrop(payload, ttl, now)]
    {
      store := store[id := NewDrop(payload, ttl, now)];
    }

    /** Remove and return the entry for `id`, whether or not it has expired. */
    method Take(id: Id) returns (found: Option<Drop>)
      modifies this`store
      ensures found == if id in old(store) then Some(old(store)[id]) else None
      ensures store == old(store) - {id}
      ensures id !in store
    {
      if id in store {
        found := Some(store[id]);
        store := store - {id};
      } else {
        found := None;
      }
    }

    /** Ask the peers in list order, skipping transport errors and non-200
        answers, and relay the body of the first 200 answer; NotFound when
        every peer failed. `asked` lists the URLs requested. */
    method Forward(id: Id, replies: seq<PeerOutcome>) returns (r: Receipt, asked: seq<string>)
      requires |replies| == |peers|
      ensures r == Relay(replies)
      ensures asked == Requests(peers, id, Contacted(replies))
    {
      asked := [];
      var i := 0;
      while i < |peers|
        invariant 0 <= i <= |peers|
        invariant forall j :: 0 <= j < i ==> !IsSuccess(replies[j])
        invariant asked == Requests(peers, id, i)
      {
        asked := asked + [PeerUrl(peers[i], id)];
        var outcome := replies[i];
        if outcome.NetError? {
          i := i + 1;
          continue;
        }
        if outcome.code == StatusOK {
          RelayIsFirstSuccess(replies, i);
          r := Relayed(outcome.body);
          return;
        }
        i := i + 1;
      }
      RelayNotFound(replies);
      r := NotFound;
    }

    /** Take the entry for `id`; hand out its payload if `now` is strictly
        before its expiry, and otherwise forward to the peers. The entry is
        gone afterwards in every case. */
    method Receive(id: Id, now: int, replies: seq<PeerOutcome>) returns (r: Receipt, asked: seq<string>)
      requires |replies| == |peers|
      modifies this`store
      ensures store == old(store) - {id}
      ensures r == Lookup(old(store), id, now, replies)
      ensures asked == Requests(peers, id, Consulted(old(store), id, now, replies))
    {
      var found := Take(id);
      if found.Some? && Deliverable(found.value, now) {
        r, asked := LocalHit(found.value.payload), [];
        return;
      }
      r, asked := Forward(id, replies);
    }

    /** One pass of the cleanup loop: delete every entry that expired strictly
        before `now`, keep the rest unchanged. */
    method Sweep(now: int)
      modifies this`store
      ensures store == Swept(old(store), now)
    {
      var pending := store.Keys;
      while pending != {}
        invariant pending <= old(store).Keys
        invariant store.Keys <= old(store).Keys
        invariant forall k :: k in store ==> store[k] == old(store)[k]
        invariant forall k :: k in old(store) ==>
                    (k in store <==> k in pending || !Expired(old(store)[k], now))
        decreases pending
      {
        var id :| id in pending;
        if Expired(store[id], now) {
          store := store - {id};
        }
        pending := pending - {id};
      }
      assert store.Keys == Swept(old(store), now).Keys;
    }
  }
}

/**
 * The video grid's peer bookkeeping: `peersRef` (every peer connection made) and `peers`
 * (the displayed list), updated by the signalling events. Peer connections are opaque
 * handles, numbered in creation order; signalling a peer and destroying it are recorded.
 */
module ClassroomGrid {
  import opened Wrappers

  datatype PeerEntry = PeerEntry(peerID: string, peer: nat)
  datatype Signal = Signal(peer: nat, data: string)

  /** The position of the first entry with `id`, or the length. */
  function FirstIndex(entries: seq<PeerEntry>, id: string): (k: nat)
    ensures k <= |entries|
    ensures k < |entries| ==> entries[k].peerID == id
    ensures forall j :: 0 <= j < k ==> entries[j].peerID != id
  {
    if entries == [] then 0 else if entries[0].peerID == id then 0 else 1 + FirstIndex(entries[1..], id)
  }

  /** `entries.find(p => p.peerID === id)`: the first entry with that id. */
  function FindFirst(entries: seq<PeerEntry>, id: string): (r: Option<PeerEntry>)
    ensures r.None? <==> forall k :: 0 <= k < |entries| ==> entries[k].peerID != id
    ensures r.Some? ==> exists k :: 0 <= k < |entries| && entries[k] == r.value && r.value.peerID == id
                                    && forall j :: 0 <= j < k ==> entries[j].peerID != id
  {
    var k := FirstIndex(entries, id);
    if k == |entries| then None else Some(entries[k])
  }

  /** `entries.filter(p => p.peerID !== id)`. */
  function RemoveAll(entries: seq<PeerEntry>, id: string): (r: seq<PeerEntry>)
    ensures |r| <= |entries|
    ensures forall k :: 0 <= k < |r| ==> r[k].peerID != id && r[k] in entries
  {
    if entries == [] then [] else (if entries[0].peerID == id then [] else [entries[0]]) + RemoveAll(entries[1..], id)
  }

  /** Removal keeps everything else, in order: it distributes over concatenation, keeps an
      entry with another id and drops one with this id. */
  lemma {:induction false} RemoveAllAppend(a: seq<PeerEntry>, b: seq<PeerEntry>, id: string)
    ensures RemoveAll(a + b, id) == RemoveAll(a, id) + RemoveAll(b, id)
  {
    if a == [] {
      assert a + b == b;
    } else {
      assert (a + b)[0] == a[0] && (a + b)[1..] == a[1..] + b;
      RemoveAllAppend(a[1..], b, id);
    }
  }

  lemma RemoveAllSingle(e: PeerEntry, id: string)
    ensures RemoveAll([e], id) == if e.peerID == id then [] else [e]
  {
    assert [e][1..] == [];
  }

  /** Removing the same id twice is removing it once, and a list without that id is kept whole. */
  lemma {:induction false} RemoveAllIdempotent(entries: seq<PeerEntry>, id: string)
    ensures RemoveAll(RemoveAll(entries, id), id) == RemoveAll(entries, id)
  {
    var r := RemoveAll(entries, id);
    RemoveAllAbsent(r, id);
  }

  lemma {:induction false} RemoveAllAbsent(entries: seq<PeerEntry>, id: string)
    requires forall k :: 0 <= k < |entries| ==> entries[k].peerID != id
    ensures RemoveAll(entries, id) == entries
  {
    if entries != [] {
      RemoveAllAbsent(entries[1..], id);
    }
  }

  /** The entries made for an `all-users` batch whose handles start at `base`. */
  function Batch(users: seq<string>, base: nat): (r: seq<PeerEntry>)
    ensures |r| == |users|
    ensures forall k :: 0 <= k < |r| ==> r[k] == PeerEntry(users[k], base + k)
  {
    seq(|users|, k requires 0 <= k < |users| => PeerEntry(users[k], base + k))
  }

  /** The handles of a list of entries, in order. */
  function HandlesOf(entries: seq<PeerEntry>): (hs: seq<nat>)
    ensures |hs| == |entries| && forall k :: 0 <= k < |hs| ==> hs[k] == entries[k].peer
  {
    seq(|entries|, k requires 0 <= k < |entries| => entries[k].peer)
  }

  class PeerGrid {
    var peersRef: seq<PeerEntry>
    var peers: seq<PeerEntry>
    /** The next handle a new peer connection gets. */
    var nextHandle: nat
    /** Every `peer.signal(...)` call, in order. */
    var signals: seq<Signal>
    /** Every `peer.destroy()` call, in order. */
    var destroyed: seq<nat>

    /** Every listed handle was created already. */
    ghost predicate Valid()
      reads this
    {
      (forall k :: 0 <= k < |peersRef| ==> peersRef[k].peer < nextHandle)
      && (forall k :: 0 <= k < |peers| ==> peers[k].peer < nextHandle)
    }

    constructor ()
      ensures Valid()
      ensures peersRef == [] && peers == [] && nextHandle == 0 && signals == [] && destroyed == []
    {
      peersRef := [];
      peers := [];
      nextHandle := 0;
      signals := [];
      destroyed := [];
    }

    /** `all-users`: one new peer per listed id, in order, appended to `peersRef` without
        removing repeats; the displayed list becomes that batch alone. */
    method AllUsers(users: seq<string>)
      requires Valid()
      modifies this
      ensures Valid()
      ensures peersRef == old(peersRef) + Batch(users, old(nextHandle))
      ensures peers == Batch(users, old(nextHandle))
      ensures nextHandle == old(nextHandle) + |users|
      ensures signals == old(signals) && destroyed == old(destroyed)
    {
      var peersList: seq<PeerEntry> := [];
      var i := 0;
      while i < |users|
        invariant 0 <= i <= |users|
        invariant nextHandle == old(nextHandle) + i
        invariant peersList == Batch(users[..i], old(nextHandle))
        invariant peersRef == old(peersRef) + peersList
        invariant signals == old(signals) && destroyed == old(destroyed) && peers == old(peers)
      {
        var entry := PeerEntry(users[i], nextHandle);
        nextHandle := nextHandle + 1;
        peersRef := peersRef + [entry];
        peersList := peersList + [entry];
        assert users[..i + 1] == users[..i] + [users[i]];
        i := i + 1;
      }
      assert users[..i] == users;
      peers := peersList;
    }

    /** `offer`: a new answering peer for the caller, signalled with the offer, appended to both
        lists. */
    method Offer(callerId: string, offer: string)
      requires Valid()
      modifies this
      ensures Valid()
      ensures peersRef == old(peersRef) + [PeerEntry(callerId, old(nextHandle))]
      ensures peers == old(peers) + [PeerEntry(callerId, old(nextHandle))]
      ensures signals == old(signals) + [Signal(old(nextHandle), offer)]
      ensures nextHandle == old(nextHandle) + 1 && destroyed == old(destroyed)
    {
      var peer := nextHandle;
      nextHandle := nextHandle + 1;
      signals := signals + [Signal(peer, offer)];
      peersRef := peersRef + [PeerEntry(callerId, peer)];
      peers := peers + [PeerEntry(callerId, peer)];
    }

    /** `answer`: the first peer with the responder's id is signalled; no match is ignored. */
    method Answer(responderId: string, answer: string)
      requires Valid()
      modifies this
      ensures Valid()
      ensures var item := FindFirst(old(peersRef), responderId);
              signals == if item.Some? then old(signals) + [Signal(item.value.peer, answer)] else old(signals)
      ensures peersRef == old(peersRef) && peers == old(peers)
      ensures nextHandle == old(nextHandle) && destroyed == old(destroyed)
    {
      var item := FindFirst(peersRef, responderId);
      if item.Some? {
        signals := signals + [Signal(item.value.peer, answer)];
      }
    }

    /** `ice-candidate`: like `answer`, and a missing candidate is ignored as well. */
    method IceCandidate(senderId: string, candidate: string)
      requires Valid()
      modifies this
      ensures Valid()
      ensures var item := FindFirst(old(peersRef), senderId);
              signals == if item.Some? && candidate != "" then old(signals) + [Signal(item.value.peer, candidate)]
                         else old(signals)
      ensures peersRef == old(peersRef) && peers == old(peers)
      ensures nextHandle == old(nextHandle) && destroyed == old(destroyed)
    {
      var item := FindFirst(peersRef, senderId);
      if item.Some? && candidate != "" {
        signals := signals + [Signal(item.value.peer, candidate)];
      }
    }

    /** `user-left`: the first peer with that id is destroyed, and every entry with that id
        leaves both lists. */
    method UserLeft(id: string)
      requires Valid()
      modifies this
      ensures Valid()
      ensures var first := FindFirst(old(peersRef), id);
              destroyed == if first.Some? then old(destroyed) + [first.value.peer] else old(destroyed)
      ensures peersRef == RemoveAll(old(peersRef), id) && peers == RemoveAll(old(peers), id)
      ensures nextHandle == old(nextHandle) && signals == old(signals)
    {
      var peerObj := FindFirst(peersRef, id);
      if peerObj.Some? {
        destroyed := destroyed + [peerObj.value.peer];
      }
      peersRef := RemoveAll(peersRef, id);
      peers := RemoveAll(peers, id);
    }

    /** The effect's cleanup: every peer in `peersRef` is destroyed, in order, and `peersRef`
        is emptied. */
    method Cleanup()
      requires Valid()
      modifies this
      ensures Valid()
      ensures destroyed == old(destroyed) + HandlesOf(old(peersRef))
      ensures peersRef == []
      ensures peers == old(peers) && nextHandle == old(nextHandle) && signals == old(signals)
    {
      var i := 0;
      while i < |peersRef|
        invariant 0 <= i <= |peersRef|
        invariant destroyed == old(destroyed) + HandlesOf(peersRef[..i])
        invariant peersRef == old(peersRef) && peers == old(peers) && nextHandle == old(nextHandle)
        invariant signals == old(signals)
      {
        assert HandlesOf(peersRef[..i + 1]) == HandlesOf(peersRef[..i]) + [peersRef[i].peer];
        destroyed := destroyed + [peersRef[i].peer];
        i := i + 1;
      }
      assert peersRef[..i] == peersRef;
      peersRef := [];
    }
  }

  /** Entries are never de-duplicated: an offer from a peer already listed adds a second entry,
      and when that peer leaves only the first of its connections is destroyed while both
      leave the list. */
  lemma LeaveDestroysOnlyFirst(id: string)
    ensures var entries := [PeerEntry(id, 0), PeerEntry(id, 1)];
            && FindFirst(entries, id) == Some(PeerEntry(id, 0))
            && RemoveAll(entries, id) == []
  {
    var entries := [PeerEntry(id, 0), PeerEntry(id, 1)];
    RemoveAllAppend([PeerEntry(id, 0)], [PeerEntry(id, 1)], id);
    RemoveAllSingle(PeerEntry(id, 0), id);
    RemoveAllSingle(PeerEntry(id, 1), id);
    assert entries == [PeerEntry(id, 0)] + [PeerEntry(id, 1)];
  }
}

/** Sums of natural numbers over finite sets of keys. */
module Sums {

  ghost function Sum(keys: set<nat>, f: nat -> nat): nat
    decreases |keys|
  {
    if keys == {} then 0
    else
      var k :| k in keys;
      f(k) + Sum(keys - {k}, f)
  }

  /** The sum does not depend on the order in which the keys are taken. */
  lemma {:induction false} SumRemove(keys: set<nat>, f: nat -> nat, x: nat)
    requires x in keys
    ensures Sum(keys, f) == f(x) + Sum(keys - {x}, f)
    decreases |keys|
  {
    var k :| k in keys && Sum(keys, f) == f(k) + Sum(keys - {k}, f);
    if k != x {
      SumRemove(keys - {k}, f, x);
      SumRemove(keys - {x}, f, k);
      assert keys - {k} - {x} == keys - {x} - {k};
    }
  }

  lemma {:induction false} SumAdd(keys: set<nat>, f: nat -> nat, x: nat)
    requires x !in keys
    ensures Sum(keys + {x}, f) == f(x) + Sum(keys, f)
  {
    SumRemove(keys + {x}, f, x);
    assert keys + {x} - {x} == keys;
  }

  lemma {:induction false} SumLe(keys: set<nat>, f: nat -> nat, g: nat -> nat)
    requires forall k :: k in keys ==> f(k) <= g(k)
    ensures Sum(keys, f) <= Sum(keys, g)
    decreases |keys|
  {
    if keys != {} {
      var k :| k in keys;
      SumRemove(keys, f, k);
      SumRemove(keys, g, k);
      SumLe(keys - {k}, f, g);
    }
  }

  lemma {:induction false} SumEqual(keys: set<nat>, f: nat -> nat, g: nat -> nat)
    requires forall k :: k in keys ==> f(k) == g(k)
    ensures Sum(keys, f) == Sum(keys, g)
  {
    SumLe(keys, f, g);
    SumLe(keys, g, f);
  }

  lemma {:induction false} SumZero(keys: set<nat>, f: nat -> nat)
    requires forall k :: k in keys ==> f(k) == 0
    ensures Sum(keys, f) == 0
    decreases |keys|
  {
    if keys != {} {
      var k :| k in keys;
      SumRemove(keys, f, k);
      SumZero(keys - {k}, f);
    }
  }

  /** Changing one term by `d` changes the sum by `d`. */
  lemma {:induction false} SumChange(keys: set<nat>, f: nat -> nat, g: nat -> nat, x: nat, d: nat)
    requires x in keys && g(x) == f(x) + d
    requires forall k :: k in keys && k != x ==> f(k) == g(k)
    ensures Sum(keys, g) == Sum(keys, f) + d
  {
    SumRemove(keys, f, x);
    SumRemove(keys, g, x);
    SumEqual(keys - {x}, f, g);
  }
}

/** A torrent entry: its peers and its count of completed downloads, driven by announces and by
    the removal of inactive peers. */
module Swarm {
  import opened Sums

  /** 20-byte identifiers, as the numbers they spell; their order is the byte order. */
  type PeerId = nat
  type InfoHash = nat

  datatype Event = Started | Stopped | Completed | NoEvent

  datatype Ip = V4(bits: nat) | V6(bits: nat)

  datatype Address = Address(ip: Ip, port: nat)

  datatype Peer = Peer(id: PeerId, addr: Address, updated: nat, uploaded: int, downloaded: int, left: int, event: Event)

  datatype Torrent = Torrent(peers: map<PeerId, Peer>, downloaded: nat)

  const EMPTY := Torrent(map[], 0)

  datatype SwarmMetadata = SwarmMetadata(downloaded: nat, complete: nat, incomplete: nat)

  datatype Policy = Policy(maxPeerTimeout: nat, persistentCompletedStat: bool, removePeerless: bool)

  predicate IsSeeder(p: Peer) { p.left <= 0 && p.event != Stopped }

  /** The announce is a completion that is counted: the peer was known, and not as completed. */
  predicate Counts(t: Torrent, p: Peer) {
    p.event == Completed && p.id in t.peers && t.peers[p.id].event != Completed
  }

  /** The event machine of an announce. */
  function Upsert(t: Torrent, p: Peer): Torrent {
    match p.event
    case Stopped => Torrent(t.peers - {p.id}, t.downloaded)
    case Completed => Torrent(t.peers[p.id := p], if Counts(t, p) then t.downloaded + 1 else t.downloaded)
    case _ => Torrent(t.peers[p.id := p], t.downloaded)
  }

  /** Keeps the peers updated strictly after the cutoff. */
  function RemoveInactive(t: Torrent, cutoff: nat): Torrent {
    Torrent(map id | id in t.peers && t.peers[id].updated > cutoff :: t.peers[id], t.downloaded)
  }

  function SeederIds(t: Torrent): set<PeerId> { set id | id in t.peers && IsSeeder(t.peers[id]) }

  function LeecherIds(t: Torrent): set<PeerId> { set id | id in t.peers && !IsSeeder(t.peers[id]) }

  function Metadata(t: Torrent): (r: SwarmMetadata)
    ensures r.downloaded == t.downloaded && r.complete == |SeederIds(t)|
    ensures r.incomplete == |LeecherIds(t)| && r.complete + r.incomplete == |t.peers|
  {
    assert SeederIds(t) + LeecherIds(t) == t.peers.Keys;
    SwarmMetadata(t.downloaded, |SeederIds(t)|, |t.peers| - |SeederIds(t)|)
  }

  predicate Retained(t: Torrent, policy: Policy) {
    if policy.persistentCompletedStat && t.downloaded > 0 then true
    else if policy.removePeerless && |t.peers| == 0 then false
    else true
  }

  // ----- what every operation keeps -----

  /** Every key is its peer's id, and no stored peer has stopped. */
  ghost predicate Consistent(t: Torrent) {
    forall id :: id in t.peers ==> t.peers[id].id == id && t.peers[id].event != Stopped
  }

  /** In a consistent torrent the seeders are exactly the peers with nothing left to download. */
  lemma ConsistentSeeders(t: Torrent)
    requires Consistent(t)
    ensures SeederIds(t) == set id | id in t.peers && t.peers[id].left <= 0
  {
  }

  // ----- runs of announces: each peer's history is its own -----

  function Run(t: Torrent, ps: seq<Peer>): Torrent
    decreases |ps|
  {
    if ps == [] then t else Run(Upsert(t, ps[0]), ps[1..])
  }

  /** The announces made under one id, in order. */
  function Own(ps: seq<Peer>, id: PeerId): seq<Peer> {
    if ps == [] then [] else (if ps[0].id == id then [ps[0]] else []) + Own(ps[1..], id)
  }

  /** The torrent as one id sees it: that peer only, and nothing counted yet. */
  function Alone(t: Torrent, id: PeerId): Torrent {
    Torrent(if id in t.peers then map[id := t.peers[id]] else map[], 0)
  }

  /** The completions counted when only `id`'s announces are run. */
  function OwnCompletions(t: Torrent, ps: seq<Peer>, id: PeerId): nat {
    Run(Alone(t, id), Own(ps, id)).downloaded
  }

  /** The counter is only ever added to: starting higher ends higher by as much. */
  lemma {:induction false} RunOffset(t: Torrent, ps: seq<Peer>, k: nat)
    ensures Run(Torrent(t.peers, t.downloaded + k), ps) == Torrent(Run(t, ps).peers, Run(t, ps).downloaded + k)
    decreases |ps|
  {
    if ps != [] {
      var t' := Upsert(t, ps[0]);
      assert Upsert(Torrent(t.peers, t.downloaded + k), ps[0]) == Torrent(t'.peers, t'.downloaded + k);
      RunOffset(t', ps[1..], k);
    }
  }

  lemma AloneUpsert(t: Torrent, p: Peer, id: PeerId)
    ensures id != p.id ==> Alone(Upsert(t, p), id) == Alone(t, id)
    ensures id == p.id ==> Upsert(Alone(t, id), p).peers == Alone(Upsert(t, p), id).peers
    ensures id == p.id ==> Upsert(Alone(t, id), p).downloaded == Upsert(t, p).downloaded - t.downloaded
  {
  }

  lemma OwnNext(p: Peer, ps: seq<Peer>, id: PeerId)
    ensures Own([p] + ps, id) == if p.id == id then [p] + Own(ps, id) else Own(ps, id)
  {
    assert ([p] + ps)[1..] == ps;
  }

  /** One id's run after an announce: unchanged for others, one step further for the announcer. */
  lemma {:induction false} OwnRunStep(t: Torrent, p: Peer, ps: seq<Peer>, id: PeerId)
    ensures var r, r' := Run(Alone(t, id), Own([p] + ps, id)), Run(Alone(Upsert(t, p), id), Own(ps, id));
            && r.peers == r'.peers
            && r.downloaded == r'.downloaded + if id == p.id then Upsert(t, p).downloaded - t.downloaded else 0
  {
    OwnNext(p, ps, id);
    AloneUpsert(t, p, id);
    if id == p.id {
      var t' := Alone(Upsert(t, p), id);
      var k := Upsert(t, p).downloaded - t.downloaded;
      var own := Own(ps, id);
      RunOffset(t', own, k);
      assert Upsert(Alone(t, id), p) == Torrent(t'.peers, t'.downloaded + k);
      assert ([p] + own)[1..] == own;
    }
  }

  /** The stored peer under an id depends on that id's announces only. */
  lemma {:induction false} PeerDecomposition(t: Torrent, ps: seq<Peer>, id: PeerId)
    ensures Alone(Run(t, ps), id).peers == Run(Alone(t, id), Own(ps, id)).peers
    decreases |ps|
  {
    if ps != [] {
      assert ps == [ps[0]] + ps[1..];
      OwnRunStep(t, ps[0], ps[1..], id);
      PeerDecomposition(Upsert(t, ps[0]), ps[1..], id);
    }
  }

  /** The counter grows by the sum, over the ids, of what each id's own announces count. */
  lemma {:induction false} CounterDecomposition(t: Torrent, ps: seq<Peer>, ids: set<PeerId>)
    requires forall i :: 0 <= i < |ps| ==> ps[i].id in ids
    ensures Run(t, ps).downloaded == t.downloaded + Sum(ids, id => OwnCompletions(t, ps, id))
    decreases |ps|
  {
    var f := (id: nat) => OwnCompletions(t, ps, id);
    if ps == [] {
      SumZero(ids, f);
    } else {
      var p, rest := ps[0], ps[1..];
      var t' := Upsert(t, p);
      var g := (id: nat) => OwnCompletions(t', rest, id);
      assert ps == [p] + rest;
      forall id
        ensures f(id) == g(id) + if id == p.id then t'.downloaded - t.downloaded else 0
      {
        OwnRunStep(t, p, rest, id);
      }
      CounterDecomposition(t', rest, ids);
      SumChange(ids, g, f, p.id, t'.downloaded - t.downloaded);
    }
  }

  /** Announces of different ids commute: two runs in which every id makes the same announces in the
      same order end in the same torrent, however the ids are interleaved. */
  lemma {:induction false} InterleavingsAgree(t: Torrent, ps: seq<Peer>, qs: seq<Peer>)
    requires forall id :: Own(ps, id) == Own(qs, id)
    ensures Run(t, ps) == Run(t, qs)
  {
    var x, y := Run(t, ps), Run(t, qs);
    forall id: PeerId
      ensures Alone(x, id) == Alone(y, id)
    {
      PeerDecomposition(t, ps, id);
      PeerDecomposition(t, qs, id);
    }
    AloneDetermines(x, y);
    var ids := (set i | 0 <= i < |ps| :: ps[i].id) + (set i | 0 <= i < |qs| :: qs[i].id);
    CounterDecomposition(t, ps, ids);
    CounterDecomposition(t, qs, ids);
    SumEqual(ids, id => OwnCompletions(t, ps, id), id => OwnCompletions(t, qs, id));
  }

  lemma AloneDetermines(x: Torrent, y: Torrent)
    requires forall id :: Alone(x, id) == Alone(y, id)
    ensures x.peers == y.peers
  {
    forall id
      ensures id in x.peers <==> id in y.peers
      ensures id in x.peers && id in y.peers ==> x.peers[id] == y.peers[id]
    {
      assert Alone(x, id) == Alone(y, id);
      assert id in x.peers ==> Alone(x, id).peers[id] == x.peers[id];
      assert id in x.peers ==> id in Alone(y, id).peers;
      assert id in y.peers ==> id in Alone(y, id).peers;
    }
  }

  // ----- runs of announces and cleanups -----

  datatype Op = Announce(peer: Peer) | Cleanup(cutoff: nat)

  function Apply(t: Torrent, op: Op): Torrent {
    match op
    case Announce(p) => Upsert(t, p)
    case Cleanup(cutoff) => RemoveInactive(t, cutoff)
  }

  function RunOps(t: Torrent, ops: seq<Op>): Torrent
    decreases |ops|
  {
    if ops == [] then t else RunOps(Apply(t, ops[0]), ops[1..])
  }

  lemma {:induction false} RunOpsSplit(t: Torrent, ops: seq<Op>, at: nat)
    requires at < |ops|
    ensures RunOps(t, ops) == RunOps(Apply(RunOps(t, ops[..at]), ops[at]), ops[at + 1..])
    decreases at
  {
    if at == 0 {
      assert ops[..0] == [];
    } else {
      RunOpsSplit(Apply(t, ops[0]), ops[1..], at - 1);
      assert ops[1..][..at - 1] == ops[..at][1..] && ops[1..][at..] == ops[at + 1..];
    }
  }

  // ----- what is stored after a run -----

  predicate AnnouncedBy(op: Op, id: PeerId) { op.Announce? && op.peer.id == id }

  /** No cleanup from position `from` on has a cutoff at or above the time. */
  ghost predicate Outlasts(time: nat, ops: seq<Op>, from: nat) {
    forall j :: from <= j < |ops| && ops[j].Cleanup? ==> ops[j].cutoff < time
  }

  /** Without an announce of its own, a peer stays exactly as it was, until a cutoff reaches it. */
  lemma {:induction false} UnheardPeer(t: Torrent, ops: seq<Op>, id: PeerId)
    requires forall j :: 0 <= j < |ops| ==> !AnnouncedBy(ops[j], id)
    ensures var r := RunOps(t, ops).peers;
            && (id in r <==> id in t.peers && Outlasts(t.peers[id].updated, ops, 0))
            && (id in r ==> r[id] == t.peers[id])
    decreases |ops|
  {
    if ops != [] {
      UnheardPeer(Apply(t, ops[0]), ops[1..], id);
      if id in t.peers {
        OutlastsNext(t.peers[id].updated, ops);
      }
    }
  }

  lemma {:induction false} OutlastsNext(time: nat, ops: seq<Op>)
    requires ops != []
    ensures Outlasts(time, ops, 0) <==> (ops[0].Cleanup? ==> ops[0].cutoff < time) && Outlasts(time, ops[1..], 0)
  {
    assert forall j :: 0 < j < |ops| ==> ops[j] == ops[1..][j - 1];
    if Outlasts(time, ops, 0) {
      forall j | 0 <= j < |ops[1..]| && ops[1..][j].Cleanup?
        ensures ops[1..][j].cutoff < time
      {
        assert ops[1..][j] == ops[j + 1];
      }
    }
  }

  /** After every run, an id's latest announce decides: a stop leaves nothing stored; any other announce
      is stored as it was made, in every field, if and only if no later cutoff has reached its time. */
  lemma {:induction false} LatestAnnounceStored(t: Torrent, ops: seq<Op>, id: PeerId, i: nat)
    requires i < |ops| && AnnouncedBy(ops[i], id)
    requires forall j :: i < j < |ops| ==> !AnnouncedBy(ops[j], id)
    ensures var p, r := ops[i].peer, RunOps(t, ops).peers;
            && (id in r <==> p.event != Stopped && Outlasts(p.updated, ops, i + 1))
            && (id in r ==> r[id] == p)
  {
    RunOpsSplit(t, ops, i);
    var p, rest := ops[i].peer, ops[i + 1..];
    var t' := Apply(RunOps(t, ops[..i]), ops[i]);
    assert forall j :: 0 <= j < |rest| ==> rest[j] == ops[i + 1 + j];
    UnheardPeer(t', rest, id);
    assert Outlasts(p.updated, rest, 0) <==> Outlasts(p.updated, ops, i + 1) by {
      if Outlasts(p.updated, rest, 0) {
        forall j | i + 1 <= j < |ops| && ops[j].Cleanup?
          ensures ops[j].cutoff < p.updated
        {
          assert ops[j] == rest[j - i - 1];
        }
      }
    }
  }

  // ----- the completed counter -----

  /** Stored peers that have not completed: the only ones whose completion would be counted. */
  function PendingIds(t: Torrent): set<PeerId> { set id | id in t.peers && t.peers[id].event != Completed }

  predicate Starts(op: Op) { op.Announce? && (op.peer.event == Started || op.peer.event == NoEvent) }

  /** A start or a plain announce under an id that was not pending. */
  function Entered(t: Torrent, op: Op): nat { if Starts(op) && op.peer.id !in PendingIds(t) then 1 else 0 }

  /** Pending peers lost uncounted: stopped, or inactive at a cleanup. */
  function Dropped(t: Torrent, op: Op): nat {
    match op
    case Announce(p) => if p.event == Stopped && p.id in PendingIds(t) then 1 else 0
    case Cleanup(cutoff) => |InactivePending(t, cutoff)|
  }

  function InactivePending(t: Torrent, cutoff: nat): set<PeerId> {
    set id | id in t.peers && t.peers[id].event != Completed && t.peers[id].updated <= cutoff
  }

  function TotalEntered(t: Torrent, ops: seq<Op>): nat
    decreases |ops|
  {
    if ops == [] then 0 else Entered(t, ops[0]) + TotalEntered(Apply(t, ops[0]), ops[1..])
  }

  function TotalDropped(t: Torrent, ops: seq<Op>): nat
    decreases |ops|
  {
    if ops == [] then 0 else Dropped(t, ops[0]) + TotalDropped(Apply(t, ops[0]), ops[1..])
  }

  function StartCount(ops: seq<Op>): nat {
    if ops == [] then 0 else (if Starts(ops[0]) then 1 else 0) + StartCount(ops[1..])
  }

  /** An announce moves one id into or out of the pending ones. */
  lemma PendingAfter(t: Torrent, p: Peer)
    ensures PendingIds(Upsert(t, p)) ==
            if p.event == Started || p.event == NoEvent then PendingIds(t) + {p.id} else PendingIds(t) - {p.id}
  {
  }

  lemma AnnounceStep(t: Torrent, p: Peer)
    ensures Upsert(t, p).downloaded + |PendingIds(Upsert(t, p))| + Dropped(t, Announce(p)) ==
            t.downloaded + |PendingIds(t)| + Entered(t, Announce(p))
  {
    PendingAfter(t, p);
    OneMoreOrLess(PendingIds(t), p.id);
  }

  lemma OneMoreOrLess(ids: set<PeerId>, id: PeerId)
    ensures |ids + {id}| == |ids| + (if id in ids then 0 else 1)
    ensures |ids - {id}| == |ids| - (if id in ids then 1 else 0)
  {
    if id in ids {
      assert ids + {id} == ids;
    } else {
      assert ids - {id} == ids;
    }
  }

  lemma CleanupStep(t: Torrent, cutoff: nat)
    ensures |PendingIds(RemoveInactive(t, cutoff))| + |InactivePending(t, cutoff)| == |PendingIds(t)|
  {
    var after, gone := PendingIds(RemoveInactive(t, cutoff)), InactivePending(t, cutoff);
    assert PendingIds(t) == after + gone;
    assert after !! gone;
  }

  lemma AccountingStep(t: Torrent, op: Op)
    ensures Apply(t, op).downloaded + |PendingIds(Apply(t, op))| + Dropped(t, op) ==
            t.downloaded + |PendingIds(t)| + Entered(t, op)
  {
    match op
    case Announce(p) => AnnounceStep(t, p);
    case Cleanup(cutoff) => CleanupStep(t, cutoff);
  }

  /** Conservation: over every run of announces and cleanups, the completions counted, the peers still
      pending and the pending peers lost add up to the pending peers at the start and those entered. */
  lemma {:induction false} CompletionAccounting(t: Torrent, ops: seq<Op>)
    ensures RunOps(t, ops).downloaded + |PendingIds(RunOps(t, ops))| + TotalDropped(t, ops) ==
            t.downloaded + |PendingIds(t)| + TotalEntered(t, ops)
    decreases |ops|
  {
    if ops != [] {
      AccountingStep(t, ops[0]);
      CompletionAccounting(Apply(t, ops[0]), ops[1..]);
    }
  }

  lemma {:induction false} EnteredAtMostStarts(t: Torrent, ops: seq<Op>)
    ensures TotalEntered(t, ops) <= StartCount(ops)
    decreases |ops|
  {
    if ops != [] {
      EnteredAtMostStarts(Apply(t, ops[0]), ops[1..]);
    }
  }

  /** No more completions are counted than peers were pending or started. */
  lemma CompletionBound(t: Torrent, ops: seq<Op>)
    ensures RunOps(t, ops).downloaded - t.downloaded + |PendingIds(RunOps(t, ops))| <= |PendingIds(t)| + StartCount(ops)
  {
    CompletionAccounting(t, ops);
    EnteredAtMostStarts(t, ops);
  }

  /** In every run no stored peer has stopped, every key is its peer's id, and the counter never falls. */
  lemma {:induction false} RunKeepsConsistent(t: Torrent, ops: seq<Op>)
    requires Consistent(t)
    ensures Consistent(RunOps(t, ops)) && RunOps(t, ops).downloaded >= t.downloaded
    decreases |ops|
  {
    if ops != [] {
      assert Consistent(Apply(t, ops[0]));
      RunKeepsConsistent(Apply(t, ops[0]), ops[1..]);
    }
  }

  // ----- cleanup algebra -----

  /** Two cleanups have the effect of the later cutoff alone. */
  lemma CleanupTwice(t: Torrent, c: nat, c': nat)
    ensures RemoveInactive(RemoveInactive(t, c), c') == RemoveInactive(t, if c < c' then c' else c)
  {
    assert RemoveInactive(RemoveInactive(t, c), c').peers == RemoveInactive(t, if c < c' then c' else c).peers;
  }
}

/** Announces, persistence of the completed counter, restart and cleanup. */
module TrackerCore {
  import opened Wrappers
  import opened Sums
  import opened Swarm
  import opened Listing
  import opened Repository

  const TORRENT_PEERS_LIMIT: nat := 74
  const NANOS_PER_SEC: nat := 1_000_000_000

  datatype Config = Config(policy: Policy, externalIp: Option<Ip>)

  // ----- the announcing peer's address -----

  predicate IsLoopback(ip: Ip) {
    match ip
    case V4(bits) => bits / 0x100_0000 == 127
    case V6(bits) => bits == 1
  }

  /** A loopback client is published under the tracker's external address, if it has one. */
  function AssignIp(remote: Ip, external: Option<Ip>): Ip {
    if external.Some? && IsLoopback(remote) then external.value else remote
  }

  function Published(p: Peer, remote: Ip, config: Config): Peer {
    p.(addr := Address(AssignIp(remote, config.externalIp), p.addr.port))
  }

  // ----- how many peers a client gets -----

  datatype PeersWanted = AsManyAsPossible | Only(amount: nat)

  function WantedFromI32(value: int): PeersWanted {
    if value <= 0 then AsManyAsPossible else Only(AtMost(value, TORRENT_PEERS_LIMIT))
  }

  function WantedFromU32(value: nat): PeersWanted {
    if value == 0 then AsManyAsPossible else Only(AtMost(value, TORRENT_PEERS_LIMIT))
  }

  function Limit(wanted: PeersWanted): nat {
    match wanted
    case AsManyAsPossible => TORRENT_PEERS_LIMIT
    case Only(amount) => amount
  }

  /** The in-memory repository takes the larger of the client's limit and the tracker's. */
  function PeersFor(m: Repo, h: InfoHash, p: Peer, limit: nat): seq<Peer> {
    if h in m then
      PeersExcluding(m[h], p.addr, Some(if limit < TORRENT_PEERS_LIMIT then TORRENT_PEERS_LIMIT else limit))
    else []
  }

  /** Other peers of the torrent, by address. */
  function Available(m: Repo, h: InfoHash, p: Peer): set<PeerId> { OtherIds(View(m, h), p.addr) }

  /** For every number a client can ask for, the peers returned are the first 74 others in id order. */
  lemma {:induction false} PeersReturned(m: Repo, h: InfoHash, p: Peer, wanted: PeersWanted)
    requires Limit(wanted) <= TORRENT_PEERS_LIMIT
    ensures var ids := Ordered(Available(m, h, p));
            && (forall i :: 0 <= i < |ids| ==> ids[i] in View(m, h).peers)
            && PeersFor(m, h, p, Limit(wanted)) ==
               PeersAt(View(m, h), ids)[..AtMost(TORRENT_PEERS_LIMIT, |Available(m, h, p)|)]
  {
    PeersExcludingExact(View(m, h), p.addr, TORRENT_PEERS_LIMIT);
    if h !in m {
      assert Available(m, h, p) == {};
    }
  }

  /** The same in terms of the stored peers alone. */
  lemma {:induction false} PeersReturnedExact(m: Repo, h: InfoHash, p: Peer, wanted: PeersWanted)
    requires Limit(wanted) <= TORRENT_PEERS_LIMIT
    ensures exists ids :: FirstOthers(ids, PeersFor(m, h, p, Limit(wanted)), View(m, h), p.addr, 74)
  {
    PeerListExact(View(m, h), p.addr, 74);
    if h in m {
      assert PeersFor(m, h, p, Limit(wanted)) == PeersExcluding(View(m, h), p.addr, Some(74));
    } else {
      assert FirstOthers([], PeersFor(m, h, p, Limit(wanted)), View(m, h), p.addr, 74);
    }
  }

  /** No peer is returned at the announcing peer's own published address. */
  lemma {:induction false} OwnAddressNotReturned(m: Repo, h: InfoHash, p: Peer, limit: nat)
    ensures forall i :: 0 <= i < |PeersFor(m, h, p, limit)| ==> PeersFor(m, h, p, limit)[i].addr != p.addr
  {
    if h in m {
      OthersOnly(m[h], p.addr, if limit < TORRENT_PEERS_LIMIT then TORRENT_PEERS_LIMIT else limit);
    }
  }

  /** 127.0.0.0 to 127.255.255.255, and ::1. */
  predicate Local(ip: Ip) {
    match ip
    case V4(bits) => 0x7F00_0000 <= bits <= 0x7FFF_FFFF
    case V6(bits) => bits == 1
  }

  /** Publishing replaces the address by the one the request came from, a local one by the external address
      of the tracker if it has one; the port and everything else stay as announced. */
  lemma {:induction false} PublishedExact(p: Peer, remote: Ip, config: Config)
    ensures var p' := Published(p, remote, config);
            && p'.(addr := p.addr) == p && p'.addr.port == p.addr.port
            && (!Local(remote) || config.externalIp.None? ==> p'.addr.ip == remote)
            && (Local(remote) && config.externalIp.Some? ==> p'.addr.ip == config.externalIp.value)
  {
  }

  /** A tracker with a public external address publishes no loopback address. */
  lemma {:induction false} LoopbackNotPublished(p: Peer, remote: Ip, config: Config)
    requires config.externalIp.Some? && !IsLoopback(config.externalIp.value)
    ensures !IsLoopback(Published(p, remote, config).addr.ip) && Published(p, remote, config).addr.port == p.addr.port
    ensures !IsLoopback(remote) ==> Published(p, remote, config).addr.ip == remote
  {
  }

  /** A positive amount up to 74 is taken as it is, anything else as 74. */
  lemma WantedIsBounded(value: int)
    ensures Limit(WantedFromI32(value)) == if 0 < value <= 74 then value else 74
    ensures value >= 0 ==> WantedFromU32(value) == WantedFromI32(value)
  {
  }

  /** A client that asks for fewer peers gets no more than it asked for if and only if there are no
      more, or it asked for 74 or more anyway. */
  lemma {:induction false} WantedHonouredIff(m: Repo, h: InfoHash, p: Peer, value: int)
    requires value > 0
    ensures |PeersFor(m, h, p, Limit(WantedFromI32(value)))| <= value <==>
            |Available(m, h, p)| <= value || value >= TORRENT_PEERS_LIMIT
  {
    WantedIsBounded(value);
    PeersReturned(m, h, p, WantedFromI32(value));
  }

  /** Two other peers are returned to a client that asks for one. */
  lemma {:induction false} WantedOneGetsTwo(h: InfoHash, p: Peer, a: Peer, b: Peer)
    requires a.addr != p.addr && b.addr != p.addr && a.id != b.id
    ensures var m := map[h := Torrent(map[a.id := a, b.id := b], 0)];
            |PeersFor(m, h, p, Limit(WantedFromI32(1)))| == 2
  {
    var m := map[h := Torrent(map[a.id := a, b.id := b], 0)];
    assert Available(m, h, p) == {a.id, b.id};
    PeersReturned(m, h, p, WantedFromI32(1));
  }

  // ----- the core's state and operations -----

  /** Torrents in memory, and the completed counters in the database. */
  datatype Core = Core(torrents: Repo, database: Persisted)

  datatype CoreOp =
    | AnnounceOp(h: InfoHash, peer: Peer, remote: Ip, saved: bool)  // `saved`: a save would succeed
    | CleanupOp(now: nat)
    | LoadOp
    | RestartOp

  /** The counter of a torrent changed together with anything else a scrape shows is written through. */
  function Persist(db: Persisted, h: InfoHash, before: SwarmMetadata, after: SwarmMetadata, policy: Policy,
                   saved: bool): Persisted {
    if before != after && policy.persistentCompletedStat && saved then db[h := after.downloaded] else db
  }

  function DoAnnounce(c: Core, config: Config, h: InfoHash, p: Peer, saved: bool): Core {
    var torrents := UpsertPeer(c.torrents, h, p);
    var before, after := Metadata(View(c.torrents, h)), Metadata(View(torrents, h));
    Core(torrents, Persist(c.database, h, before, after, config.policy, saved))
  }

  /** The cutoff of a cleanup: the clock less the timeout, and zero while the clock is below it. */
  function Cutoff(now: nat, policy: Policy): nat {
    var timeout := policy.maxPeerTimeout * NANOS_PER_SEC;
    if now >= timeout then now - timeout else 0
  }

  function DoCleanup(m: Repo, policy: Policy, now: nat): Repo {
    var active := RemoveInactivePeers(m, Cutoff(now, policy));
    if policy.removePeerless then RemovePeerless(active, policy) else active
  }

  function DoOp(c: Core, config: Config, op: CoreOp): Core {
    match op
    case AnnounceOp(h, peer, remote, saved) => DoAnnounce(c, config, h, Published(peer, remote, config), saved)
    case CleanupOp(now) => Core(DoCleanup(c.torrents, config.policy, now), c.database)
    case LoadOp => Core(ImportPersistent(c.torrents, c.database), c.database)
    case RestartOp => Core(ImportPersistent(map[], c.database), c.database)
  }

  function RunCore(c: Core, config: Config, ops: seq<CoreOp>): Core
    decreases |ops|
  {
    if ops == [] then c else RunCore(DoOp(c, config, ops[0]), config, ops[1..])
  }

  /** The announce handler and the torrents manager over the single-lock repository and the database. */
  class Tracker {
    const config: Config
    const repo: RwLockStd
    var database: Persisted

    constructor (config: Config)
      ensures this.config == config && State() == Core(map[], map[]) && fresh(repo)
    {
      this.config := config;
      this.repo := new RwLockStd();
      this.database := map[];
    }

    ghost function State(): Core
      reads this, repo
    {
      Core(repo.torrents, database)
    }

    method Announce(h: InfoHash, peer: Peer, remote: Ip, wanted: PeersWanted, saved: bool)
      returns (peers: seq<Peer>, stats: SwarmMetadata)
      modifies this`database, repo
      ensures State() == DoOp(old(State()), config, AnnounceOp(h, peer, remote, saved))
      ensures stats == Metadata(View(State().torrents, h))
      ensures peers == PeersFor(State().torrents, h, Published(peer, remote, config), Limit(wanted))
    {
      var p := Published(peer, remote, config);
      stats := UpsertAndGetStats(h, p, saved);
      peers := PeersFor(repo.torrents, h, p, Limit(wanted));
    }

    method UpsertAndGetStats(h: InfoHash, p: Peer, saved: bool) returns (stats: SwarmMetadata)
      modifies this`database, repo
      ensures State() == DoAnnounce(old(State()), config, h, p, saved)
      ensures stats == Metadata(View(State().torrents, h))
    {
      var before := Metadata(View(repo.torrents, h));
      repo.Upsert(h, p);
      stats := Metadata(View(repo.torrents, h));
      if before != stats {
        if config.policy.persistentCompletedStat && saved {
          database := database[h := stats.downloaded];
        }
      }
    }

    method CleanupTorrents(now: nat)
      modifies repo
      ensures State() == DoOp(old(State()), config, CleanupOp(now))
    {
      repo.CleanInactive(Cutoff(now, config.policy));
      if config.policy.removePeerless {
        repo.CleanPeerless(config.policy);
      }
    }

    method LoadTorrentsFromDatabase()
      modifies repo
      ensures State() == DoOp(old(State()), config, LoadOp)
    {
      repo.Import(database);
    }
  }

  // ----- the durable counter -----

  function DbCount(db: Persisted, h: InfoHash): nat { if h in db then db[h] else 0 }

  function MemCount(m: Repo, h: InfoHash): nat { View(m, h).downloaded }

  /** The database never counts more than memory. */
  ghost predicate NotAhead(c: Core) { forall h :: DbCount(c.database, h) <= MemCount(c.torrents, h) }

  /** Memory and database agree on every torrent, absent read as zero. */
  ghost predicate Durable(c: Core) { forall h :: DbCount(c.database, h) == MemCount(c.torrents, h) }

  predicate SavesSucceed(ops: seq<CoreOp>) { forall i :: 0 <= i < |ops| && ops[i].AnnounceOp? ==> ops[i].saved }

  /** A cleanup changes a torrent's counter if and only if the counters are not persistent, peerless
      torrents are removed, the torrent has no peer newer than the cutoff, and something was counted. */
  lemma {:induction false} CleanupKeepsCounterIff(m: Repo, policy: Policy, now: nat, h: InfoHash)
    ensures MemCount(DoCleanup(m, policy, now), h) == MemCount(m, h) <==>
            !(policy.removePeerless && !policy.persistentCompletedStat && MemCount(m, h) > 0 &&
              RemoveInactive(View(m, h), Cutoff(now, policy)).peers == map[])
  {
    var active := RemoveInactivePeers(m, Cutoff(now, policy));
    if h in m {
      assert active[h] == RemoveInactive(m[h], Cutoff(now, policy));
      assert |active[h].peers| == 0 <==> active[h].peers == map[];
    }
  }

  lemma {:induction false} AnnounceCounts(c: Core, config: Config, h: InfoHash, p: Peer, saved: bool, x: InfoHash)
    ensures var c' := DoAnnounce(c, config, h, p, saved);
            && MemCount(c'.torrents, x) ==
               MemCount(c.torrents, x) + (if x == h && Counts(View(c.torrents, h), p) then 1 else 0)
            && (x != h ==> DbCount(c'.database, x) == DbCount(c.database, x))
            && DbCount(c'.database, h) in {DbCount(c.database, h), MemCount(c'.torrents, h)}
            && (config.policy.persistentCompletedStat && saved &&
                MemCount(c'.torrents, h) != MemCount(c.torrents, h) ==>
                  DbCount(c'.database, h) == MemCount(c'.torrents, h))
  {
  }

  /** The database is written by an announce only, only with persistence on and a save that succeeds, only
      when the statistics of the torrent change, and only at its info-hash, with its new counter. */
  lemma {:induction false} DatabaseWritten(c: Core, config: Config, op: CoreOp)
    ensures var c' := DoOp(c, config, op);
            c'.database ==
            if op.AnnounceOp? && config.policy.persistentCompletedStat && op.saved &&
               Metadata(View(c.torrents, op.h)) != Metadata(View(c'.torrents, op.h))
            then c.database[op.h := MemCount(c'.torrents, op.h)] else c.database
  {
  }

  /** With persistence off no run touches the database. */
  lemma {:induction false} DatabaseUntouched(c: Core, config: Config, ops: seq<CoreOp>)
    requires !config.policy.persistentCompletedStat
    ensures RunCore(c, config, ops).database == c.database
    decreases |ops|
  {
    if ops != [] {
      DatabaseWritten(c, config, ops[0]);
      DatabaseUntouched(DoOp(c, config, ops[0]), config, ops[1..]);
    }
  }

  /** A restart leaves exactly the persisted torrents, each with its counter and without peers; a load adds
      such torrents for the info-hashes that are missing and changes nothing else. */
  lemma {:induction false} LoadedTorrents(c: Core, config: Config, h: InfoHash)
    ensures var m := DoOp(c, config, RestartOp).torrents;
            (h in m <==> h in c.database) && (h in m ==> m[h].peers == map[] && m[h].downloaded == c.database[h])
    ensures var m := DoOp(c, config, LoadOp).torrents;
            && (h in m <==> h in c.torrents || h in c.database)
            && (h in c.torrents ==> m[h] == c.torrents[h])
            && (h in m && h !in c.torrents ==> m[h].peers == map[] && m[h].downloaded == c.database[h])
  {
  }

  /** One operation, on one torrent: the database count never falls and never passes memory's; when
      saves succeed the two stay equal. */
  lemma {:induction false} StepCounts(c: Core, config: Config, op: CoreOp, h: InfoHash)
    requires config.policy.persistentCompletedStat
    requires DbCount(c.database, h) <= MemCount(c.torrents, h)
    ensures var c' := DoOp(c, config, op);
            && DbCount(c.database, h) <= DbCount(c'.database, h) <= MemCount(c'.torrents, h)
            && (!op.RestartOp? ==> MemCount(c.torrents, h) <= MemCount(c'.torrents, h))
            && (DbCount(c.database, h) == MemCount(c.torrents, h) && (op.AnnounceOp? ==> op.saved) ==>
                  DbCount(c'.database, h) == MemCount(c'.torrents, h))
  {
    match op
    case AnnounceOp(x, peer, remote, saved) =>
      AnnounceCounts(c, config, x, Published(peer, remote, config), saved, h);
    case CleanupOp(now) => CleanupKeepsCounterIff(c.torrents, config.policy, now, h);
    case LoadOp =>
    case RestartOp =>
  }

  /** From agreeing counts, an announce keeps them agreeing if and only if its save would succeed or it
      counts no completion. */
  lemma {:induction false} AnnounceDurableIff(c: Core, config: Config, op: CoreOp)
    requires config.policy.persistentCompletedStat && Durable(c) && op.AnnounceOp?
    ensures Durable(DoOp(c, config, op)) <==>
            op.saved || !Counts(View(c.torrents, op.h), Published(op.peer, op.remote, config))
  {
    var p, c' := Published(op.peer, op.remote, config), DoOp(c, config, op);
    forall h
      ensures op.saved || h != op.h || !Counts(View(c.torrents, h), p) ==>
                DbCount(c'.database, h) == MemCount(c'.torrents, h)
    {
      AnnounceCounts(c, config, op.h, p, op.saved, h);
    }
    if !op.saved && Counts(View(c.torrents, op.h), p) {
      assert DbCount(c'.database, op.h) == DbCount(c.database, op.h);
      assert DbCount(c.database, op.h) == MemCount(c.torrents, op.h) < MemCount(c'.torrents, op.h);
    }
  }

  /** In every run of announces, cleanups, loads and restarts, whether or not saves succeed, the database
      never counts more than memory, and no stored count ever falls. */
  lemma {:induction false} DatabaseNeverAhead(c: Core, config: Config, ops: seq<CoreOp>)
    requires config.policy.persistentCompletedStat && NotAhead(c)
    ensures NotAhead(RunCore(c, config, ops))
    ensures forall h :: DbCount(c.database, h) <= DbCount(RunCore(c, config, ops).database, h)
    decreases |ops|
  {
    if ops != [] {
      var c' := DoOp(c, config, ops[0]);
      forall h
        ensures DbCount(c.database, h) <= DbCount(c'.database, h) <= MemCount(c'.torrents, h)
      {
        StepCounts(c, config, ops[0], h);
      }
      DatabaseNeverAhead(c', config, ops[1..]);
    }
  }

  /** With saves succeeding, memory and database agree in every reachable state, restarts included, and
      so no torrent's counter ever falls. */
  lemma {:induction false} CounterIsDurable(c: Core, config: Config, ops: seq<CoreOp>)
    requires config.policy.persistentCompletedStat && Durable(c) && SavesSucceed(ops)
    ensures Durable(RunCore(c, config, ops))
    ensures forall h :: MemCount(c.torrents, h) <= MemCount(RunCore(c, config, ops).torrents, h)
    decreases |ops|
  {
    if ops != [] {
      var c' := DoOp(c, config, ops[0]);
      forall h
        ensures DbCount(c'.database, h) == MemCount(c'.torrents, h) >= MemCount(c.torrents, h)
      {
        StepCounts(c, config, ops[0], h);
      }
      CounterIsDurable(c', config, ops[1..]);
    }
  }

  /** The downloads counted in memory, over all torrents. */
  ghost function TotalDownloaded(c: Core): nat { Sum(c.torrents.Keys, h => MemCount(c.torrents, h)) }

  lemma {:induction false} SumWiden(keys: set<nat>, more: set<nat>, f: nat -> nat)
    requires forall k :: k in more && k !in keys ==> f(k) == 0
    ensures Sum(keys + more, f) == Sum(keys, f)
    decreases |more|
  {
    if more <= keys {
      assert keys + more == keys;
    } else {
      var k :| k in more && k !in keys;
      SumWiden(keys, more - {k}, f);
      assert keys + more == keys + (more - {k}) + {k};
      SumAdd(keys + (more - {k}), f, k);
    }
  }

  /** The total never decreases over a run. */
  lemma {:induction false} TotalNeverDecreases(c: Core, config: Config, ops: seq<CoreOp>)
    requires config.policy.persistentCompletedStat && Durable(c) && SavesSucceed(ops)
    ensures TotalDownloaded(c) <= TotalDownloaded(RunCore(c, config, ops))
  {
    var c' := RunCore(c, config, ops);
    CounterIsDurable(c, config, ops);
    var f, g := (h: nat) => MemCount(c.torrents, h), (h: nat) => MemCount(c'.torrents, h);
    SumWiden(c.torrents.Keys, c'.torrents.Keys, f);
    SumWiden(c'.torrents.Keys, c.torrents.Keys, g);
    assert c.torrents.Keys + c'.torrents.Keys == c'.torrents.Keys + c.torrents.Keys;
    SumLe(c.torrents.Keys + c'.torrents.Keys, f, g);
  }

  // ----- peers and time -----

  /** The peer is stored under the id exactly as given. */
  ghost predicate Stores(m: Repo, h: InfoHash, id: PeerId, p: Peer) {
    h in m && id in m[h].peers && m[h].peers[id] == p
  }

  /** The last announce is younger than the timeout; a peer with timestamp zero never is. */
  predicate Fresh(p: Peer, policy: Policy, now: nat) {
    p.updated > 0 && now < p.updated + policy.maxPeerTimeout * 1_000_000_000
  }

  /** A cleanup keeps a stored peer, unchanged, if and only if it is fresh, and drops it otherwise. */
  lemma {:induction false} CleanupKeepsPeerIff(m: Repo, policy: Policy, now: nat, h: InfoHash, id: PeerId, p: Peer)
    requires Stores(m, h, id, p)
    ensures Stores(DoCleanup(m, policy, now), h, id, p) <==> Fresh(p, policy, now)
    ensures !Fresh(p, policy, now) ==> id !in View(DoCleanup(m, policy, now), h).peers
  {
    var active := RemoveInactivePeers(m, Cutoff(now, policy));
    assert active[h] == RemoveInactive(m[h], Cutoff(now, policy));
    if id in active[h].peers {
      assert |active[h].peers| > 0;
    }
  }

  /** The times at which a peer is heard of: announces carry the clock as their timestamp. */
  function LastHeard(ops: seq<CoreOp>, h: InfoHash, id: PeerId, last: nat): nat
    decreases |ops|
  {
    if ops == [] then last
    else LastHeard(ops[1..], h, id, if Hears(ops[0], h, id) then ops[0].peer.updated else last)
  }

  /** The peer as last published under the id, `p` if it is not heard of. */
  function LatestPeer(ops: seq<CoreOp>, config: Config, h: InfoHash, id: PeerId, p: Peer): Peer
    decreases |ops|
  {
    if ops == [] then p
    else
      LatestPeer(ops[1..], config, h, id,
                 if Hears(ops[0], h, id) then Published(ops[0].peer, ops[0].remote, config) else p)
  }

  predicate Hears(op: CoreOp, h: InfoHash, id: PeerId) { op.AnnounceOp? && op.h == h && op.peer.id == id }

  /** The peer keeps announcing, never stops, and every cleanup finds its last announce younger than the
      timeout. */
  ghost predicate KeptUp(ops: seq<CoreOp>, policy: Policy, h: InfoHash, id: PeerId, last: nat)
    decreases |ops|
  {
    ops == [] ||
    match ops[0]
    case AnnounceOp(_, peer, _, _) =>
      if Hears(ops[0], h, id)
      then peer.event != Stopped && peer.updated > 0 && KeptUp(ops[1..], policy, h, id, peer.updated)
      else KeptUp(ops[1..], policy, h, id, last)
    case CleanupOp(now) => now < last + policy.maxPeerTimeout * NANOS_PER_SEC && KeptUp(ops[1..], policy, h, id, last)
    case LoadOp => KeptUp(ops[1..], policy, h, id, last)
    case RestartOp => false
  }

  lemma {:induction false} AnnounceKeepsOthers(c: Core, config: Config, op: CoreOp, h: InfoHash, id: PeerId, p: Peer)
    requires op.AnnounceOp? && Stores(c.torrents, h, id, p)
    requires Hears(op, h, id) ==> op.peer.event != Stopped
    ensures Stores(DoOp(c, config, op).torrents, h, id,
                   if Hears(op, h, id) then Published(op.peer, op.remote, config) else p)
  {
  }

  /** A peer that is kept up is stored at the end. */
  lemma {:induction false} KeptUpSurvives(c: Core, config: Config, ops: seq<CoreOp>, h: InfoHash, id: PeerId, p: Peer)
    requires p.updated > 0 && Stores(c.torrents, h, id, p) && KeptUp(ops, config.policy, h, id, p.updated)
    ensures Stores(RunCore(c, config, ops).torrents, h, id, LatestPeer(ops, config, h, id, p))
    decreases |ops|
  {
    if ops != [] {
      var op := ops[0];
      var c' := DoOp(c, config, op);
      match op {
        case AnnounceOp(_, _, _, _) => AnnounceKeepsOthers(c, config, op, h, id, p);
        case CleanupOp(now) => CleanupKeepsPeerIff(c.torrents, config.policy, now, h, id, p);
        case LoadOp =>
      }
      KeptUpSurvives(c', config, ops[1..], h, id,
                     if Hears(op, h, id) then Published(op.peer, op.remote, config) else p);
    }
  }

  /** The clock when an operation happens: announces are stamped with it, cleanups read it. */
  function ClockAt(op: CoreOp, before: nat): nat {
    match op
    case AnnounceOp(_, peer, _, _) => peer.updated
    case CleanupOp(now) => now
    case _ => before
  }

  /** The clock never goes back. */
  ghost predicate Monotone(ops: seq<CoreOp>, clock: nat)
    decreases |ops|
  {
    ops == [] || (clock <= ClockAt(ops[0], clock) && Monotone(ops[1..], ClockAt(ops[0], clock)))
  }

  function FinalClock(ops: seq<CoreOp>, clock: nat): nat
    decreases |ops|
  {
    if ops == [] then clock else FinalClock(ops[1..], ClockAt(ops[0], clock))
  }

  /** The peer never stops, and announces again less than the timeout after its previous announce; the
      tracker is not restarted. Nothing is said about cleanups or other peers. */
  ghost predicate Reannounces(ops: seq<CoreOp>, policy: Policy, h: InfoHash, id: PeerId, last: nat)
    decreases |ops|
  {
    ops == [] ||
    (!ops[0].RestartOp? &&
     if Hears(ops[0], h, id)
     then ops[0].peer.event != Stopped && ops[0].peer.updated < last + policy.maxPeerTimeout * NANOS_PER_SEC &&
          Reannounces(ops[1..], policy, h, id, ops[0].peer.updated)
     else Reannounces(ops[1..], policy, h, id, last))
  }

  /** The run is not cut off in a silence longer than the timeout: it ends with an announce of the peer,
      or less than the timeout after the peer's last one. */
  ghost predicate EndsInTime(ops: seq<CoreOp>, policy: Policy, h: InfoHash, id: PeerId, last: nat, clock: nat) {
    || (ops != [] && Hears(ops[|ops| - 1], h, id))
    || FinalClock(ops, clock) < LastHeard(ops, h, id, last) + policy.maxPeerTimeout * NANOS_PER_SEC
  }

  lemma {:induction false} EndsInTimeNext(ops: seq<CoreOp>, policy: Policy, h: InfoHash, id: PeerId,
                                          last: nat, clock: nat)
    requires ops != [] && !Hears(ops[0], h, id) && EndsInTime(ops, policy, h, id, last, clock)
    ensures EndsInTime(ops[1..], policy, h, id, last, ClockAt(ops[0], clock))
  {
    if Hears(ops[|ops| - 1], h, id) {
      assert |ops| > 1 && ops[1..][|ops| - 2] == ops[|ops| - 1];
    }
  }

  /** Whenever the clock reads `clock`, the peer's last announce is younger than the timeout. */
  lemma {:induction false} HeardInTime(ops: seq<CoreOp>, policy: Policy, h: InfoHash, id: PeerId, last: nat, clock: nat)
    requires Monotone(ops, clock) && Reannounces(ops, policy, h, id, last)
    requires EndsInTime(ops, policy, h, id, last, clock)
    ensures clock < last + policy.maxPeerTimeout * NANOS_PER_SEC
    decreases |ops|
  {
    if ops != [] && !Hears(ops[0], h, id) {
      EndsInTimeNext(ops, policy, h, id, last, clock);
      HeardInTime(ops[1..], policy, h, id, last, ClockAt(ops[0], clock));
    }
  }

  lemma {:induction false} ReannouncesKeepsUp(ops: seq<CoreOp>, policy: Policy, h: InfoHash, id: PeerId,
                                              last: nat, clock: nat)
    requires 0 < last <= clock && Monotone(ops, clock)
    requires Reannounces(ops, policy, h, id, last) && EndsInTime(ops, policy, h, id, last, clock)
    ensures KeptUp(ops, policy, h, id, last)
    decreases |ops|
  {
    if ops != [] {
      var clock' := ClockAt(ops[0], clock);
      if Hears(ops[0], h, id) {
        if |ops| > 1 {
          assert ops[1..][|ops| - 2] == ops[|ops| - 1];
        } else {
          assert policy.maxPeerTimeout * NANOS_PER_SEC > 0;
        }
        ReannouncesKeepsUp(ops[1..], policy, h, id, clock', clock');
      } else {
        EndsInTimeNext(ops, policy, h, id, last, clock);
        HeardInTime(ops[1..], policy, h, id, last, clock');
        ReannouncesKeepsUp(ops[1..], policy, h, id, last, clock');
      }
    }
  }

  lemma {:induction false} KeptUpPrefix(ops: seq<CoreOp>, policy: Policy, h: InfoHash, id: PeerId, last: nat, k: nat)
    requires k <= |ops| && KeptUp(ops, policy, h, id, last)
    ensures KeptUp(ops[..k], policy, h, id, last)
    decreases |ops|
  {
    if k > 0 {
      assert ops[..k][1..] == ops[1..][..k - 1];
      KeptUpPrefix(ops[1..], policy, h, id, if Hears(ops[0], h, id) then ops[0].peer.updated else last, k - 1);
    }
  }

  /** Active peers survive: under a clock that never goes back, a peer that announces again at gaps below
      the timeout is stored at every moment of the run, whenever cleanups happen and whatever the other
      peers do, as it was last published, in every field. */
  lemma {:induction false} ActivePeersSurvive(c: Core, config: Config, ops: seq<CoreOp>,
                                              h: InfoHash, id: PeerId, p: Peer, k: nat)
    requires p.updated > 0 && Stores(c.torrents, h, id, p) && k <= |ops|
    requires Monotone(ops, p.updated) && Reannounces(ops, config.policy, h, id, p.updated)
    requires EndsInTime(ops, config.policy, h, id, p.updated, p.updated)
    ensures Stores(RunCore(c, config, ops[..k]).torrents, h, id, LatestPeer(ops[..k], config, h, id, p))
  {
    ReannouncesKeepsUp(ops, config.policy, h, id, p.updated, p.updated);
    KeptUpPrefix(ops, config.policy, h, id, p.updated, k);
    KeptUpSurvives(c, config, ops[..k], h, id, p);
  }

  /** Stored at most with timestamp `last`: the peer has not been heard of since. */
  ghost predicate Silent(m: Repo, h: InfoHash, id: PeerId, last: nat) {
    id in View(m, h).peers ==> View(m, h).peers[id].updated <= last
  }

  lemma {:induction false} StepSilent(c: Core, config: Config, op: CoreOp, h: InfoHash, id: PeerId, last: nat)
    requires Silent(c.torrents, h, id, last) && !Hears(op, h, id)
    ensures Silent(DoOp(c, config, op).torrents, h, id, last)
    ensures id !in View(c.torrents, h).peers ==> id !in View(DoOp(c, config, op).torrents, h).peers
    ensures op.CleanupOp? && op.now >= last + config.policy.maxPeerTimeout * NANOS_PER_SEC ==>
              id !in View(DoOp(c, config, op).torrents, h).peers
  {
    if op.CleanupOp? && h in c.torrents {
      var active := RemoveInactivePeers(c.torrents, Cutoff(op.now, config.policy));
      assert active[h] == RemoveInactive(c.torrents[h], Cutoff(op.now, config.policy));
    }
  }

  predicate CleansAfter(op: CoreOp, time: nat) { op.CleanupOp? && op.now >= time }

  /** A peer that falls silent is gone for good after the first cleanup a timeout later. */
  lemma {:induction false} SilentPeersExpire(c: Core, config: Config, ops: seq<CoreOp>, h: InfoHash,
                                             id: PeerId, last: nat)
    requires Silent(c.torrents, h, id, last)
    requires forall i :: 0 <= i < |ops| ==> !Hears(ops[i], h, id)
    requires id !in View(c.torrents, h).peers ||
             exists i :: 0 <= i < |ops| && CleansAfter(ops[i], last + config.policy.maxPeerTimeout * NANOS_PER_SEC)
    ensures id !in View(RunCore(c, config, ops).torrents, h).peers
    decreases |ops|
  {
    if ops != [] {
      var c' := DoOp(c, config, ops[0]);
      StepSilent(c, config, ops[0], h, id, last);
      if id in View(c'.torrents, h).peers {
        var i :| 0 <= i < |ops| && CleansAfter(ops[i], last + config.policy.maxPeerTimeout * NANOS_PER_SEC);
        assert i > 0 && ops[1..][i - 1] == ops[i];
      }
      SilentPeersExpire(c', config, ops[1..], h, id, last);
    }
  }

  // ----- cleanup algebra -----

  lemma {:induction false} CutoffMonotone(now: nat, now': nat, policy: Policy)
    requires now <= now'
    ensures Cutoff(now, policy) <= Cutoff(now', policy)
  {
  }

  /** A cleanup followed by a later one has the effect of the later one alone; with equal times, cleanup
      is idempotent. */
  lemma {:induction false} CleanupAbsorbs(m: Repo, policy: Policy, now: nat, now': nat)
    requires now <= now'
    ensures DoCleanup(DoCleanup(m, policy, now), policy, now') == DoCleanup(m, policy, now')
  {
    var twice, once := DoCleanup(DoCleanup(m, policy, now), policy, now'), DoCleanup(m, policy, now');
    forall h
      ensures h in twice <==> h in once
      ensures h in twice ==> twice[h] == once[h]
    {
      AbsorbsAt(m, DoCleanup(m, policy, now), policy, now, now', h);
    }
    assert twice.Keys == once.Keys;
  }

  lemma {:induction false} AbsorbsAt(m: Repo, first: Repo, policy: Policy, now: nat, now': nat, h: InfoHash)
    requires now <= now' && first == DoCleanup(m, policy, now)
    ensures h in DoCleanup(first, policy, now') <==> h in DoCleanup(m, policy, now')
    ensures h in DoCleanup(first, policy, now') ==> DoCleanup(first, policy, now')[h] == DoCleanup(m, policy, now')[h]
  {
    CleanAt(m, policy, now, h);
    CleanAt(m, policy, now', h);
    CleanAt(first, policy, now', h);
    if h in m {
      var c, c' := Cutoff(now, policy), Cutoff(now', policy);
      CutoffMonotone(now, now', policy);
      CleanupTwice(m[h], c, c');
      if Retained(RemoveInactive(m[h], c'), policy) {
        RetainedEarlier(m[h], policy, c, c');
      }
    }
  }

  /** A cleanup, torrent by torrent. */
  lemma {:induction false} CleanAt(m: Repo, policy: Policy, now: nat, h: InfoHash)
    ensures var m' := DoCleanup(m, policy, now);
            && (h in m' <==>
                h in m && (policy.removePeerless ==> Retained(RemoveInactive(m[h], Cutoff(now, policy)), policy)))
            && (h in m' ==> m'[h] == RemoveInactive(m[h], Cutoff(now, policy)))
  {
    var active := RemoveInactivePeers(m, Cutoff(now, policy));
    assert h in m ==> active[h] == RemoveInactive(m[h], Cutoff(now, policy));
  }

  lemma {:induction false} RetainedEarlier(t: Torrent, policy: Policy, c: nat, c': nat)
    requires c <= c' && Retained(RemoveInactive(t, c'), policy)
    ensures Retained(RemoveInactive(t, c), policy)
  {
    if RemoveInactive(t, c).peers == map[] {
      assert RemoveInactive(t, c').peers == map[] by {
        forall id | id in RemoveInactive(t, c').peers
          ensures id in RemoveInactive(t, c).peers
        {
        }
      }
    }
  }

  /** After a cleanup, a torrent is there if and only if it was before and peerless torrents are kept, or it
      is kept for its counter, or one of its peers is fresh. Its counter is untouched, and its peers are
      exactly the fresh ones, unchanged. */
  lemma {:induction false} AfterCleanup(m: Repo, policy: Policy, now: nat, h: InfoHash)
    ensures var m' := DoCleanup(m, policy, now);
            && (h in m' <==>
                h in m && (!policy.removePeerless || (policy.persistentCompletedStat && m[h].downloaded > 0) ||
                           exists id :: id in m[h].peers && Fresh(m[h].peers[id], policy, now)))
            && (h in m' ==>
                  && m'[h].downloaded == m[h].downloaded
                  && (forall id :: id in m'[h].peers <==> id in m[h].peers && Fresh(m[h].peers[id], policy, now))
                  && (forall id :: id in m'[h].peers ==> m'[h].peers[id] == m[h].peers[id]))
  {
    CleanAt(m, policy, now, h);
    if h in m {
      PeersLeft(m[h], policy, now);
    }
  }

  lemma {:induction false} PeersLeft(t: Torrent, policy: Policy, now: nat)
    ensures var t' := RemoveInactive(t, Cutoff(now, policy));
            && (forall id :: id in t'.peers <==> id in t.peers && Fresh(t.peers[id], policy, now))
            && (|t'.peers| > 0 <==> exists id :: id in t.peers && Fresh(t.peers[id], policy, now))
  {
    var t' := RemoveInactive(t, Cutoff(now, policy));
    if id :| id in t.peers && Fresh(t.peers[id], policy, now) {
      assert id in t'.peers;
    }
    if |t'.peers| > 0 {
      var id :| id in t'.peers;
      assert Fresh(t.peers[id], policy, now);
    }
  }

  lemma {:induction false} StepConsistent(c: Core, config: Config, op: CoreOp, h: InfoHash)
    requires ConsistentRepo(c.torrents) && h in DoOp(c, config, op).torrents
    ensures Consistent(DoOp(c, config, op).torrents[h])
  {
    match op
    case AnnounceOp(x, _, _, _) => assert Consistent(View(c.torrents, x));
    case CleanupOp(now) => CleanAt(c.torrents, config.policy, now, h);
    case LoadOp =>
    case RestartOp =>
  }

  /** In every reachable state no stored peer has stopped and every key is its peer's id. */
  lemma {:induction false} RunConsistent(c: Core, config: Config, ops: seq<CoreOp>)
    requires ConsistentRepo(c.torrents)
    ensures ConsistentRepo(RunCore(c, config, ops).torrents)
    decreases |ops|
  {
    if ops != [] {
      var c' := DoOp(c, config, ops[0]);
      forall h | h in c'.torrents
        ensures Consistent(c'.torrents[h])
      {
        StepConsistent(c, config, ops[0], h);
      }
      RunConsistent(c', config, ops[1..]);
    }
  }
}

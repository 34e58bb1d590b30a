/** Ordered listings: the iteration order of a `BTreeMap` or `SkipMap`, `skip`, `take` and `filter`. */
module Listing {

  ghost predicate StrictlyAscending(xs: seq<nat>) {
    forall i, j :: 0 <= i < j < |xs| ==> xs[i] < xs[j]
  }

  /** `xs` is the ascending listing of `s`. */
  ghost predicate Lists(xs: seq<nat>, s: set<nat>) {
    StrictlyAscending(xs) && |xs| == |s| && forall x :: x in xs <==> x in s
  }

  lemma ListsCons(m: nat, rest: seq<nat>, s: set<nat>)
    requires m in s && (forall x :: x in s ==> m <= x) && Lists(rest, s - {m})
    ensures Lists([m] + rest, s)
  {
    var xs := [m] + rest;
    forall j | 0 <= j < |rest|
      ensures m < rest[j]
    {
      assert rest[j] in rest;
    }
    assert forall x :: x in xs <==> x == m || x in rest;
  }

  lemma ListsTail(xs: seq<nat>, s: set<nat>)
    requires Lists(xs, s) && xs != []
    ensures xs[0] in s && (forall x :: x in s ==> xs[0] <= x) && Lists(xs[1..], s - {xs[0]})
  {
    assert xs == [xs[0]] + xs[1..];
    assert xs[0] in xs;
    forall x | x in s
      ensures xs[0] <= x && (x != xs[0] ==> x in xs[1..])
    {
      assert x in xs;
    }
    assert xs[0] !in xs[1..];
  }

  lemma {:induction false} MinExists(s: set<nat>, k: nat)
    requires k in s
    ensures exists m :: m in s && forall x :: x in s ==> m <= x
    decreases k
  {
    if j :| j in s && j < k {
      MinExists(s, j);
    }
  }

  lemma NonEmptyHasMin(s: set<nat>)
    requires s != {}
    ensures exists m :: m in s && forall x :: x in s ==> m <= x
  {
    var k :| k in s;
    MinExists(s, k);
  }

  function Min(s: set<nat>): (m: nat)
    requires s != {}
    ensures m in s && forall x :: x in s ==> m <= x
  {
    NonEmptyHasMin(s);
    var m :| m in s && forall x :: x in s ==> m <= x;
    m
  }

  /** The keys in ascending order, each once. */
  function Ordered(s: set<nat>): (xs: seq<nat>)
    ensures Lists(xs, s)
    decreases |s|
  {
    if s == {} then []
    else
      var m := Min(s);
      var rest := Ordered(s - {m});
      ListsCons(m, rest, s);
      [m] + rest
  }

  /** An ascending listing is determined by its elements. */
  lemma {:induction false} OrderedUnique(xs: seq<nat>, ys: seq<nat>, s: set<nat>)
    requires Lists(xs, s) && Lists(ys, s)
    ensures xs == ys
  {
    if xs != [] {
      ListsTail(xs, s);
      ListsTail(ys, s);
      OrderedUnique(xs[1..], ys[1..], s - {xs[0]});
      assert xs == [xs[0]] + xs[1..] && ys == [ys[0]] + ys[1..];
    }
  }

  lemma OrderedIn(s: set<nat>, all: set<nat>)
    requires s <= all
    ensures forall i :: 0 <= i < |Ordered(s)| ==> Ordered(s)[i] in all
  {
    forall i | 0 <= i < |Ordered(s)|
      ensures Ordered(s)[i] in all
    {
      assert Ordered(s)[i] in Ordered(s);
    }
  }

  function AtMost(n: nat, max: nat): nat { if n <= max then n else max }

  /** `skip(offset).take(limit)`. */
  function Page<T>(xs: seq<T>, offset: nat, limit: nat): (page: seq<T>) {
    xs[AtMost(offset, |xs|)..AtMost(offset + limit, |xs|)]
  }

  lemma PageAt<T>(xs: seq<T>, offset: nat, limit: nat)
    ensures var page := Page(xs, offset, limit);
            && |page| == (if offset >= |xs| then 0 else AtMost(limit, |xs| - offset))
            && forall i :: 0 <= i < |page| ==> offset + i < |xs| && page[i] == xs[offset + i]
  {
  }

  /** Elements that a shortened listing leaves out are larger than all it has. */
  lemma {:induction false} LeftOutIsLarger(xs: seq<nat>, s: set<nat>, n: nat, x: nat)
    requires Lists(xs, s) && x in s && x !in xs[..AtMost(n, |xs|)]
    ensures n < |xs| && forall i :: 0 <= i < n ==> xs[i] < x
  {
    assert x in xs;
    var j :| 0 <= j < |xs| && xs[j] == x;
    var front := xs[..AtMost(n, |xs|)];
    assert forall i :: 0 <= i < |front| ==> front[i] in front && front[i] == xs[i];
  }

  /** The first `n` pages of size `limit`, at offsets 0, limit, 2 * limit, ..., one after the other. */
  function Pages<T>(xs: seq<T>, limit: nat, n: nat): seq<T> {
    if n == 0 then [] else Pages(xs, limit, n - 1) + Page(xs, (n - 1) * limit, limit)
  }

  /** Pages neither skip nor repeat an element: together they are a prefix of the listing. */
  lemma {:induction false} PagesTile<T>(xs: seq<T>, limit: nat, n: nat)
    ensures 0 <= n * limit && Pages(xs, limit, n) == xs[..AtMost(n * limit, |xs|)]
    decreases n
  {
    if n > 0 {
      PagesTile(xs, limit, n - 1);
      assert n * limit == (n - 1) * limit + limit;
    }
  }

  /** Enough pages list everything exactly once, in order. */
  lemma PagesComplete<T>(xs: seq<T>, limit: nat, n: nat)
    requires n * limit >= |xs|
    ensures Pages(xs, limit, n) == xs
  {
    PagesTile(xs, limit, n);
  }

  /** Keeps, in order, the keys in `keep`. */
  function Filter(xs: seq<nat>, keep: set<nat>): (ys: seq<nat>)
    ensures forall i :: 0 <= i < |ys| ==> ys[i] in keep && ys[i] in xs
  {
    if xs == [] then [] else (if xs[0] in keep then [xs[0]] else []) + Filter(xs[1..], keep)
  }

  lemma {:induction false} FilterLists(xs: seq<nat>, s: set<nat>, keep: set<nat>)
    requires Lists(xs, s)
    ensures Lists(Filter(xs, keep), s * keep)
    decreases |xs|
  {
    if xs == [] {
      assert s * keep == {};
    } else {
      ListsTail(xs, s);
      var s' := s - {xs[0]};
      FilterLists(xs[1..], s', keep);
      if xs[0] in keep {
        assert s * keep - {xs[0]} == s' * keep;
        ListsCons(xs[0], Filter(xs[1..], keep), s * keep);
      } else {
        assert s * keep == s' * keep;
        assert Filter(xs, keep) == Filter(xs[1..], keep);
      }
    }
  }

  /** Filtering an ascending listing lists the kept keys in ascending order. */
  lemma FilterOrdered(s: set<nat>, keep: set<nat>)
    ensures Filter(Ordered(s), keep) == Ordered(s * keep)
  {
    FilterLists(Ordered(s), s, keep);
    OrderedUnique(Filter(Ordered(s), keep), Ordered(s * keep), s * keep);
  }
}

/** Repositories as maps from info-hash to torrent: what each operation of the `Repository` trait
    does when run alone. The single-lock repository is exactly this. */
module Repository {
  import opened Wrappers
  import opened Sums
  import opened Swarm
  import opened Listing

  type Repo = map<InfoHash, Torrent>

  /** Persisted completed counters, by info-hash. */
  type Persisted = map<InfoHash, nat>

  datatype Pagination = Pagination(offset: nat, limit: nat)

  datatype TorrentsMetrics = TorrentsMetrics(complete: nat, downloaded: nat, incomplete: nat, torrents: nat)

  /** The torrent under an info-hash, the empty one when there is none. */
  function View(m: Repo, h: InfoHash): Torrent { if h in m then m[h] else EMPTY }

  function UpsertPeer(m: Repo, h: InfoHash, p: Peer): Repo { m[h := Upsert(View(m, h), p)] }

  /** Adds the persisted torrents that are not there yet. */
  function ImportPersistent(m: Repo, db: Persisted): Repo {
    map h | h in m.Keys + db.Keys :: if h in m then m[h] else Torrent(map[], db[h])
  }

  function RemoveInactivePeers(m: Repo, cutoff: nat): Repo { map h | h in m :: RemoveInactive(m[h], cutoff) }

  function RemovePeerless(m: Repo, policy: Policy): Repo { map h | h in m && Retained(m[h], policy) :: m[h] }

  ghost predicate ConsistentRepo(m: Repo) { forall h :: h in m ==> Consistent(m[h]) }

  // ----- listings -----

  function Entries(m: Repo, keys: seq<InfoHash>): (r: seq<(InfoHash, Torrent)>)
    requires forall i :: 0 <= i < |keys| ==> keys[i] in m
  {
    seq(|keys|, i requires 0 <= i < |keys| => (keys[i], m[keys[i]]))
  }

  function AllEntries(m: Repo): seq<(InfoHash, Torrent)> {
    var keys := Ordered(m.Keys);
    assert forall i :: 0 <= i < |keys| ==> keys[i] in keys;
    Entries(m, keys)
  }

  function GetPaginated(m: Repo, p: Option<Pagination>): seq<(InfoHash, Torrent)> {
    match p
    case None => AllEntries(m)
    case Some(p) => Page(AllEntries(m), p.offset, p.limit)
  }

  /** The pages asked for one after the other, as a client walking the list does. */
  function WalkPages(m: Repo, limit: nat, n: nat): seq<(InfoHash, Torrent)> {
    if n == 0 then []
    else WalkPages(m, limit, n - 1) + GetPaginated(m, Some(Pagination((n - 1) * limit, limit)))
  }

  lemma {:induction false} WalkIsPages(m: Repo, limit: nat, n: nat)
    ensures WalkPages(m, limit, n) == Pages(AllEntries(m), limit, n)
  {
    if n > 0 {
      WalkIsPages(m, limit, n - 1);
    }
  }

  /** Every torrent of the repository once, under its info-hash, in info-hash order. */
  ghost predicate ListsRepo(xs: seq<(InfoHash, Torrent)>, m: Repo) {
    && |xs| == |m|
    && (forall i, j :: 0 <= i < j < |xs| ==> xs[i].0 < xs[j].0)
    && (forall i :: 0 <= i < |xs| ==> xs[i].0 in m && m[xs[i].0] == xs[i].1)
    && (forall h :: h in m ==> exists i :: 0 <= i < |xs| && xs[i].0 == h)
  }

  /** Without pagination the whole repository is listed. */
  lemma {:induction false} ListingIsComplete(m: Repo)
    ensures ListsRepo(GetPaginated(m, None), m)
  {
    var keys, xs := Ordered(m.Keys), GetPaginated(m, None);
    assert forall i :: 0 <= i < |keys| ==> keys[i] in keys && xs[i] == (keys[i], m[keys[i]]);
    forall h | h in m
      ensures exists i :: 0 <= i < |xs| && xs[i].0 == h
    {
      assert h in keys;
      var i :| 0 <= i < |keys| && keys[i] == h;
      assert xs[i].0 == h;
    }
    assert |m.Keys| == |m|;
  }

  /** A page holds the listed torrents from its offset on, as many as its limit allows. */
  lemma {:induction false} PageExact(m: Repo, offset: nat, limit: nat)
    ensures var all, page := GetPaginated(m, None), GetPaginated(m, Some(Pagination(offset, limit)));
            && |page| == (if offset >= |m| then 0 else AtMost(limit, |m| - offset))
            && forall i :: 0 <= i < |page| ==> offset + i < |all| && page[i] == all[offset + i]
  {
    ListingIsComplete(m);
    PageAt(AllEntries(m), offset, limit);
  }

  /** Walking enough pages lists every torrent once, in info-hash order. */
  lemma {:induction false} WalkListsAll(m: Repo, limit: nat, n: nat)
    requires n * limit >= |m|
    ensures ListsRepo(WalkPages(m, limit, n), m)
  {
    ListingIsComplete(m);
    WalkIsPages(m, limit, n);
    PagesComplete(AllEntries(m), limit, n);
  }

  function PeersAt(t: Torrent, ids: seq<PeerId>): (ps: seq<Peer>)
    requires forall i :: 0 <= i < |ids| ==> ids[i] in t.peers
    ensures |ps| == |ids| && forall i :: 0 <= i < |ids| ==> ps[i] == t.peers[ids[i]]
  {
    seq(|ids|, i requires 0 <= i < |ids| => t.peers[ids[i]])
  }

  function OtherIds(t: Torrent, addr: Address): set<PeerId> { set id | id in t.peers && t.peers[id].addr != addr }

  /** The stored peers at other addresses, in id order, up to the limit. */
  function PeersExcluding(t: Torrent, addr: Address, limit: Option<nat>): seq<Peer> {
    var ids := Filter(Ordered(t.peers.Keys), OtherIds(t, addr));
    var peers := PeersAt(t, ids);
    match limit
    case None => peers
    case Some(n) => peers[..AtMost(n, |peers|)]
  }

  lemma {:induction false} OthersFiltered(t: Torrent, addr: Address)
    ensures Filter(Ordered(t.peers.Keys), OtherIds(t, addr)) == Ordered(OtherIds(t, addr))
  {
    FilterOrdered(t.peers.Keys, OtherIds(t, addr));
    assert t.peers.Keys * OtherIds(t, addr) == OtherIds(t, addr);
  }

  lemma OthersAreStored(t: Torrent, addr: Address)
    ensures forall i :: 0 <= i < |Ordered(OtherIds(t, addr))| ==> Ordered(OtherIds(t, addr))[i] in t.peers
  {
    OrderedIn(OtherIds(t, addr), t.peers.Keys);
  }

  /** A client's peer list is exactly the first `min(limit, available)` other-address peers by id. */
  lemma {:induction false} PeersExcludingExact(t: Torrent, addr: Address, limit: nat)
    ensures forall i :: 0 <= i < |Ordered(OtherIds(t, addr))| ==> Ordered(OtherIds(t, addr))[i] in t.peers
    ensures PeersExcluding(t, addr, Some(limit)) ==
            PeersAt(t, Ordered(OtherIds(t, addr)))[..AtMost(limit, |Ordered(OtherIds(t, addr))|)]
  {
    OthersFiltered(t, addr);
    OthersAreStored(t, addr);
  }

  /** The peers stored under the ids, all at other addresses; another peer is left out only when the
      limit is reached and its id is larger. */
  ghost predicate FirstOthers(ids: seq<PeerId>, ps: seq<Peer>, t: Torrent, addr: Address, limit: nat) {
    && |ids| == |ps| <= limit && StrictlyAscending(ids)
    && (forall i :: 0 <= i < |ids| ==> ids[i] in t.peers && ps[i] == t.peers[ids[i]] && ps[i].addr != addr)
    && (forall id :: id in t.peers && t.peers[id].addr != addr && id !in ids ==>
          |ps| == limit && forall i :: 0 <= i < |ids| ==> ids[i] < id)
  }

  lemma {:induction false} FirstOthersStored(t: Torrent, addr: Address, ids: seq<PeerId>, ps: seq<Peer>, n: nat)
    requires var all := Ordered(OtherIds(t, addr));
             && (forall i :: 0 <= i < |all| ==> all[i] in t.peers)
             && ids == all[..AtMost(n, |all|)] && ps == PeersAt(t, all)[..AtMost(n, |all|)]
    ensures |ids| == |ps| <= n && StrictlyAscending(ids)
    ensures forall i :: 0 <= i < |ids| ==> ids[i] in t.peers && ps[i] == t.peers[ids[i]] && ps[i].addr != addr
  {
    OrderedIn(OtherIds(t, addr), OtherIds(t, addr));
    assert forall i :: 0 <= i < |ids| ==> ids[i] in OtherIds(t, addr);
  }

  /** A client's peer list, in terms of the stored peers alone. */
  lemma {:induction false} PeerListExact(t: Torrent, addr: Address, limit: nat)
    ensures exists ids :: FirstOthers(ids, PeersExcluding(t, addr, Some(limit)), t, addr, limit)
  {
    PeersExcludingExact(t, addr, limit);
    var all := Ordered(OtherIds(t, addr));
    var ids, ps := all[..AtMost(limit, |all|)], PeersExcluding(t, addr, Some(limit));
    FirstOthersStored(t, addr, ids, ps, limit);
    forall id | id in t.peers && t.peers[id].addr != addr && id !in ids
      ensures |ps| == limit && forall i :: 0 <= i < |ids| ==> ids[i] < id
    {
      LeftOutIsLarger(all, OtherIds(t, addr), limit, id);
    }
    assert FirstOthers(ids, ps, t, addr, limit);
  }

  lemma {:induction false} OthersOnly(t: Torrent, addr: Address, limit: nat)
    ensures var ps := PeersExcluding(t, addr, Some(limit)); forall i :: 0 <= i < |ps| ==> ps[i].addr != addr
  {
    PeerListExact(t, addr, limit);
  }

  // ----- metrics -----

  ghost function SeedersOf(m: Repo, hs: set<InfoHash>): set<(InfoHash, PeerId)> {
    set h, id | h in hs && h in m && id in SeederIds(m[h]) :: (h, id)
  }

  ghost function LeechersOf(m: Repo, hs: set<InfoHash>): set<(InfoHash, PeerId)> {
    set h, id | h in hs && h in m && id in LeecherIds(m[h]) :: (h, id)
  }

  ghost function Tagged(h: InfoHash, ids: set<PeerId>): set<(InfoHash, PeerId)> { set id | id in ids :: (h, id) }

  lemma {:induction false} TaggedSize(h: InfoHash, ids: set<PeerId>)
    ensures |Tagged(h, ids)| == |ids|
    decreases |ids|
  {
    if ids != {} {
      var id :| id in ids;
      TaggedSize(h, ids - {id});
      assert Tagged(h, ids) == Tagged(h, ids - {id}) + {(h, id)};
    }
  }

  lemma {:induction false} SeedersAdd(m: Repo, hs: set<InfoHash>, h: InfoHash)
    requires h in m && h !in hs
    ensures |SeedersOf(m, hs + {h})| == |SeedersOf(m, hs)| + |SeederIds(m[h])|
  {
    var tagged := Tagged(h, SeederIds(m[h]));
    TaggedSize(h, SeederIds(m[h]));
    assert SeedersOf(m, hs + {h}) == SeedersOf(m, hs) + tagged;
    assert SeedersOf(m, hs) !! tagged;
  }

  lemma {:induction false} LeechersAdd(m: Repo, hs: set<InfoHash>, h: InfoHash)
    requires h in m && h !in hs
    ensures |LeechersOf(m, hs + {h})| == |LeechersOf(m, hs)| + |LeecherIds(m[h])|
  {
    var tagged := Tagged(h, LeecherIds(m[h]));
    TaggedSize(h, LeecherIds(m[h]));
    assert LeechersOf(m, hs + {h}) == LeechersOf(m, hs) + tagged;
    assert LeechersOf(m, hs) !! tagged;
  }

  /** The metrics of a set of the repository's torrents: how many there are, the stored seeders and
      leechers among all their peers, and the sum of their counters. */
  ghost predicate Measures(x: TorrentsMetrics, m: Repo, hs: set<InfoHash>) {
    && x.torrents == |hs|
    && x.complete == |SeedersOf(m, hs)|
    && x.incomplete == |LeechersOf(m, hs)|
    && x.downloaded == Sum(hs, h => View(m, h).downloaded)
  }

  function AddMetadata(x: TorrentsMetrics, s: SwarmMetadata): TorrentsMetrics {
    TorrentsMetrics(x.complete + s.complete, x.downloaded + s.downloaded, x.incomplete + s.incomplete, x.torrents + 1)
  }

  lemma {:induction false} MeasuresAdd(x: TorrentsMetrics, m: Repo, hs: set<InfoHash>, h: InfoHash)
    requires Measures(x, m, hs) && h in m && h !in hs
    ensures Measures(AddMetadata(x, Metadata(m[h])), m, hs + {h})
  {
    SeedersAdd(m, hs, h);
    LeechersAdd(m, hs, h);
    SumAdd(hs, h => View(m, h).downloaded, h);
  }

  lemma {:induction false} MeasuresNext(x: TorrentsMetrics, m: Repo, todo: set<InfoHash>, h: InfoHash)
    requires todo <= m.Keys && h in todo && Measures(x, m, m.Keys - todo)
    ensures Measures(AddMetadata(x, Metadata(m[h])), m, m.Keys - (todo - {h}))
  {
    MeasuresAdd(x, m, m.Keys - todo, h);
    assert m.Keys - (todo - {h}) == m.Keys - todo + {h};
  }

  lemma {:induction false} MeasuresNone(m: Repo)
    ensures Measures(TorrentsMetrics(0, 0, 0, 0), m, {})
  {
    assert SeedersOf(m, {}) == {} && LeechersOf(m, {}) == {};
  }

  /** Seeders and leechers add up to all stored peers. */
  lemma {:induction false} MetricsCoverPeers(x: TorrentsMetrics, m: Repo)
    requires Measures(x, m, m.Keys)
    ensures x.complete + x.incomplete == |set h, id | h in m && id in m[h].peers :: (h, id)|
  {
    var all := set h, id | h in m && id in m[h].peers :: (h, id);
    assert all == SeedersOf(m, m.Keys) + LeechersOf(m, m.Keys);
    assert SeedersOf(m, m.Keys) !! LeechersOf(m, m.Keys);
  }

  lemma ImportNone(m: Repo, db: Persisted)
    ensures ImportPersistent(m, db - db.Keys) == m
  {
  }

  function InsertNew(m: Repo, h: InfoHash, completed: nat): Repo {
    if h in m then m else m[h := Torrent(map[], completed)]
  }

  /** Importing one more persisted torrent. */
  lemma ImportOne(m: Repo, db: Persisted, todo: set<InfoHash>, h: InfoHash)
    requires h in todo && todo <= db.Keys
    ensures ImportPersistent(m, db - (todo - {h})) == InsertNew(ImportPersistent(m, db - todo), h, db[h])
  {
    var r, r' := ImportPersistent(m, db - todo), ImportPersistent(m, db - (todo - {h}));
    assert (db - (todo - {h})).Keys == (db - todo).Keys + {h};
    assert r'.Keys == r.Keys + {h};
  }

  // ----- the single-lock repository -----

  /** `RwLockStd`: one lock around a map of owned entries. */
  class RwLockStd {
    var torrents: Repo

    constructor ()
      ensures torrents == map[]
    {
      torrents := map[];
    }

    method Upsert(h: InfoHash, p: Peer)
      modifies this
      ensures torrents == UpsertPeer(old(torrents), h, p)
    {
      if h !in torrents {
        torrents := torrents[h := EMPTY];
      }
      torrents := torrents[h := Swarm.Upsert(torrents[h], p)];
    }

    method Import(db: Persisted)
      modifies this
      ensures torrents == ImportPersistent(old(torrents), db)
    {
      var todo := db.Keys;
      ghost var before := torrents;
      ImportNone(before, db);
      while todo != {}
        invariant todo <= db.Keys && torrents == ImportPersistent(before, db - todo)
        decreases |todo|
      {
        var h := Min(todo);
        ImportOne(before, db, todo, h);
        torrents := if h in torrents then torrents else torrents[h := Torrent(map[], db[h])];
        todo := todo - {h};
      }
      assert db - {} == db;
    }

    method CleanInactive(cutoff: nat)
      modifies this
      ensures torrents == RemoveInactivePeers(old(torrents), cutoff)
    {
      var todo := torrents.Keys;
      while todo != {}
        invariant todo <= torrents.Keys == old(torrents).Keys
        invariant forall h :: h in torrents ==>
                    torrents[h] == if h in todo then old(torrents)[h] else RemoveInactive(old(torrents)[h], cutoff)
        decreases |todo|
      {
        var h := Min(todo);
        torrents := torrents[h := RemoveInactive(torrents[h], cutoff)];
        todo := todo - {h};
      }
    }

    method CleanPeerless(policy: Policy)
      modifies this
      ensures torrents == RemovePeerless(old(torrents), policy)
    {
      torrents := map h | h in torrents && Retained(torrents[h], policy) :: torrents[h];
    }

    method GetMetrics() returns (metrics: TorrentsMetrics)
      ensures Measures(metrics, torrents, torrents.Keys)
    {
      metrics := Measure(torrents);
    }
  }

  /** The accumulation loop of `get_metrics`. */
  method Measure(m: Repo) returns (metrics: TorrentsMetrics)
    ensures Measures(metrics, m, m.Keys)
  {
    metrics := TorrentsMetrics(0, 0, 0, 0);
    MeasuresNone(m);
    assert m.Keys - m.Keys == {};
    var todo := m.Keys;
    while todo != {}
      invariant todo <= m.Keys
      invariant Measures(metrics, m, m.Keys - todo)
      decreases |todo|
    {
      var h := Min(todo);
      MeasuresNext(metrics, m, todo, h);
      metrics := AddMetadata(metrics, Metadata(m[h]));
      todo := todo - {h};
    }
    assert m.Keys - todo == m.Keys;
  }
}

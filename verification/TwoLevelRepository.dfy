/** The two-level repository: a locked map of shared, individually locked entries. Run alone, each
    of its operations does to the torrents behind the references what the single-lock repository
    does to its map. */
module TwoLevelRepository {
  import opened Swarm
  import opened Listing
  import opened Repository

  /** `EntryMutexStd`: a shared mutable torrent entry. */
  class Entry {
    var peers: map<PeerId, Peer>
    var downloaded: nat

    constructor (completed: nat)
      ensures Value() == Torrent(map[], completed)
    {
      peers := map[];
      downloaded := completed;
    }

    function Value(): Torrent
      reads this
    {
      Torrent(peers, downloaded)
    }

    /** Applies an announce; says whether it was counted as a completed download. */
    method UpsertPeer(p: Peer) returns (updated: bool)
      modifies this
      ensures Value() == Swarm.Upsert(old(Value()), p)
      ensures updated == Counts(old(Value()), p)
    {
      updated := false;
      match p.event
      case Stopped =>
        peers := peers - {p.id};
      case Completed =>
        var known := p.id in peers && peers[p.id].event != Completed;
        peers := peers[p.id := p];
        if known {
          downloaded := downloaded + 1;
          updated := true;
        }
      case _ =>
        peers := peers[p.id := p];
    }

    method RemoveInactivePeers(cutoff: nat)
      modifies this
      ensures Value() == RemoveInactive(old(Value()), cutoff)
    {
      peers := map id | id in peers && peers[id].updated > cutoff :: peers[id];
    }
  }

  /** `RwLockStdMutexStd`. */
  class RwLockStdMutexStd {
    var torrents: map<InfoHash, Entry>

    constructor ()
      ensures Valid() && Contents() == map[]
    {
      torrents := map[];
    }

    /** No two info-hashes share an entry. */
    ghost predicate Valid()
      reads this
    {
      forall h, h' :: h in torrents && h' in torrents && torrents[h] == torrents[h'] ==> h == h'
    }

    ghost function Contents(): Repo
      reads this, torrents.Values
    {
      map h | h in torrents :: torrents[h].Value()
    }

    method Upsert(h: InfoHash, p: Peer)
      requires Valid()
      modifies this, torrents.Values
      ensures Valid() && Contents() == UpsertPeer(old(Contents()), h, p)
      ensures fresh(torrents.Values - old(torrents.Values))
    {
      var entry;
      if h in torrents {
        entry := torrents[h];
      } else {
        entry := new Entry(0);
        torrents := torrents[h := entry];
      }
      var _ := entry.UpsertPeer(p);
    }

    method InsertIfAbsent(h: InfoHash, completed: nat)
      requires Valid()
      modifies this
      ensures Valid() && fresh(torrents.Values - old(torrents.Values))
      ensures Contents() == InsertNew(old(Contents()), h, completed)
    {
      if h !in torrents {
        var entry := new Entry(completed);
        torrents := torrents[h := entry];
      }
    }

    method Import(db: Persisted)
      requires Valid()
      modifies this
      ensures Valid() && Contents() == ImportPersistent(old(Contents()), db)
      ensures fresh(torrents.Values - old(torrents.Values))
    {
      var todo := db.Keys;
      ghost var before := Contents();
      ImportNone(before, db);
      while todo != {}
        invariant todo <= db.Keys && Valid() && fresh(torrents.Values - old(torrents.Values))
        invariant Contents() == ImportPersistent(before, db - todo)
        decreases |todo|
      {
        var h := Min(todo);
        ImportOne(before, db, todo, h);
        InsertIfAbsent(h, db[h]);
        todo := todo - {h};
      }
      assert db - {} == db;
    }

    method CleanInactive(cutoff: nat)
      requires Valid()
      modifies torrents.Values
      ensures Valid() && Contents() == RemoveInactivePeers(old(Contents()), cutoff)
    {
      var todo := torrents.Keys;
      while todo != {}
        invariant todo <= torrents.Keys
        invariant forall h :: h in torrents ==>
                    torrents[h].Value() ==
                    if h in todo then old(torrents[h].Value()) else RemoveInactive(old(torrents[h].Value()), cutoff)
        decreases |todo|
      {
        var h := Min(todo);
        torrents[h].RemoveInactivePeers(cutoff);
        todo := todo - {h};
      }
    }

    method CleanPeerless(policy: Policy)
      requires Valid()
      modifies this
      ensures Valid() && Contents() == RemovePeerless(old(Contents()), policy)
    {
      torrents := map h | h in torrents && Retained(torrents[h].Value(), policy) :: torrents[h];
    }

    method GetMetrics() returns (metrics: TorrentsMetrics)
      ensures Measures(metrics, Contents(), torrents.Keys)
    {
      var contents := map h | h in torrents :: torrents[h].Value();
      assert contents == Contents() && contents.Keys == torrents.Keys;
      metrics := Measure(contents);
    }
  }
}

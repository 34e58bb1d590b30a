/** What the interleavings mean: no finished announce is lost while its torrent stays in the map, and
    concurrent runs read as the single-lock repository's operations, one after the other, each taking
    its place between its start and its end. */
module Linearisation {
  import opened Swarm
  import opened Listing
  import opened Repository
  import opened Interleaving

  /** The repository as its readers see it. */
  function Abs(s: State): Repo {
    map h | h in s.torrents && s.torrents[h] < |s.cells| :: s.cells[s.torrents[h]].value
  }

  // ----- no lost announce -----

  /** In every reachable state, the entry a finished announce went to is the one the map holds for its
      info-hash exactly when that info-hash has not been removed since the announce acquired the entry.
      Then the stored torrent is the result of a history in which the announce has its own place. */
  lemma {:induction false} NoLostAnnounce(acts: seq<Action>, tid: TaskId)
    requires Runnable(INIT, acts) && tid in Exec(INIT, acts).tasks && Exec(INIT, acts).tasks[tid].Finished?
    ensures var s := Exec(INIT, acts);
            var Finished(h, p, ref, gen, at) := s.tasks[tid];
            && ref < |s.cells| && at < |s.cells[ref].log|
            && (Removals(s, h) == gen <==> h in s.torrents && s.torrents[h] == ref)
            && (Removals(s, h) == gen ==>
                  var c := s.cells[ref];
                  h in Abs(s) && Abs(s)[h] ==
                  RunOps(Upsert(RunOps(Torrent(map[], c.initial), c.log[..at]), p), c.log[at + 1..]))
  {
    var s := Exec(INIT, acts);
    RunInv(INIT, acts);
    var t := s.tasks[tid];
    assert TaskSound(s, tid, t) && CellCurrent(s, t.ref) && CellReplays(s.cells[t.ref]);
    RunOpsSplit(Torrent(map[], s.cells[t.ref].initial), s.cells[t.ref].log, t.at);
  }

  /** Nothing is applied twice, and nothing before its time: over all entries, in the map or not, a
      finished announce stands at exactly one place, and an unfinished one at none. */
  lemma {:induction false} AppliedOnce(acts: seq<Action>, tid: TaskId, r: Ref, i: nat)
    requires Runnable(INIT, acts) && tid in Exec(INIT, acts).tasks
    requires r < |Exec(INIT, acts).cells| && i < |Exec(INIT, acts).cells[r].log|
    ensures var s := Exec(INIT, acts);
            var t, c := s.tasks[tid], s.cells[r];
            && |c.authors| == |c.log|
            && (c.log[i].Announce? && c.authors[i] == tid <==> t.Finished? && t.ref == r && t.at == i)
  {
    var s := Exec(INIT, acts);
    RunInv(INIT, acts);
    assert CellReplays(s.cells[r]) && CellAuthored(s, r) && TaskSound(s, tid, s.tasks[tid]);
  }

  // ----- the single-lock repository's operations, one torrent at a time -----

  datatype SpecOp =
    | UpsertAt(tid: TaskId, h: InfoHash, p: Peer)
    | ImportAt(h: InfoHash, completed: nat)
    | CleanAt(h: InfoHash, cutoff: nat)
    | SweepAt(h: InfoHash, policy: Policy)
    | RemoveAt(h: InfoHash)

  function DoSpec(m: Repo, op: SpecOp): Repo {
    match op
    case UpsertAt(_, h, p) => UpsertPeer(m, h, p)
    case ImportAt(h, n) => InsertNew(m, h, n)
    case CleanAt(h, cutoff) => if h in m then m[h := RemoveInactive(m[h], cutoff)] else m
    case SweepAt(h, policy) => if h in m && !Retained(m[h], policy) then m - {h} else m
    case RemoveAt(h) => m - {h}
  }

  function RunSpec(m: Repo, ops: seq<SpecOp>): Repo
    decreases |ops|
  {
    if ops == [] then m else RunSpec(DoSpec(m, ops[0]), ops[1..])
  }

  // ----- torrent by torrent, the operations make up those of the whole repository -----

  function Cleans(keys: seq<InfoHash>, cutoff: nat): seq<SpecOp> {
    if keys == [] then [] else [CleanAt(keys[0], cutoff)] + Cleans(keys[1..], cutoff)
  }

  function Sweeps(keys: seq<InfoHash>, policy: Policy): seq<SpecOp> {
    if keys == [] then [] else [SweepAt(keys[0], policy)] + Sweeps(keys[1..], policy)
  }

  function Imports(keys: seq<InfoHash>, db: Persisted): seq<SpecOp>
    requires forall i :: 0 <= i < |keys| ==> keys[i] in db
  {
    if keys == [] then [] else [ImportAt(keys[0], db[keys[0]])] + Imports(keys[1..], db)
  }

  lemma {:induction false} CleansEach(m: Repo, keys: seq<InfoHash>, cutoff: nat, h: InfoHash)
    ensures RunSpec(m, Cleans(keys, cutoff)).Keys == m.Keys
    ensures View(RunSpec(m, Cleans(keys, cutoff)), h) ==
            if h in keys then RemoveInactive(View(m, h), cutoff) else View(m, h)
    decreases |keys|
  {
    if keys != [] {
      var m' := DoSpec(m, CleanAt(keys[0], cutoff));
      assert Cleans(keys, cutoff)[1..] == Cleans(keys[1..], cutoff);
      CleansEach(m', keys[1..], cutoff, h);
      assert m'.Keys == m.Keys;
      CleanupTwice(View(m, h), cutoff, cutoff);
      assert RemoveInactive(EMPTY, cutoff) == EMPTY;
    }
  }

  lemma {:induction false} SweepsEach(m: Repo, keys: seq<InfoHash>, policy: Policy, h: InfoHash)
    ensures var r := RunSpec(m, Sweeps(keys, policy));
            (h in r <==> h in m && (h in keys ==> Retained(m[h], policy))) && (h in r ==> r[h] == m[h])
    decreases |keys|
  {
    if keys != [] {
      assert Sweeps(keys, policy)[1..] == Sweeps(keys[1..], policy);
      SweepsEach(DoSpec(m, SweepAt(keys[0], policy)), keys[1..], policy, h);
    }
  }

  lemma {:induction false} ImportsEach(m: Repo, keys: seq<InfoHash>, db: Persisted, h: InfoHash)
    requires forall i :: 0 <= i < |keys| ==> keys[i] in db
    ensures var r := RunSpec(m, Imports(keys, db));
            && (h in r <==> h in m || h in keys)
            && (h in r ==> r[h] == if h in m then m[h] else Torrent(map[], db[h]))
    decreases |keys|
  {
    if keys != [] {
      assert Imports(keys, db)[1..] == Imports(keys[1..], db);
      ImportsEach(DoSpec(m, ImportAt(keys[0], db[keys[0]])), keys[1..], db, h);
    }
  }

  /** Cleaning torrent by torrent does what the single-lock repository does to the whole map at once. */
  lemma {:induction false} WholeClean(m: Repo, cutoff: nat)
    ensures RunSpec(m, Cleans(Ordered(m.Keys), cutoff)) == RemoveInactivePeers(m, cutoff)
  {
    var r := RunSpec(m, Cleans(Ordered(m.Keys), cutoff));
    CleansEach(m, Ordered(m.Keys), cutoff, 0);
    forall h | h in m
      ensures r[h] == RemoveInactive(m[h], cutoff)
    {
      CleansEach(m, Ordered(m.Keys), cutoff, h);
    }
  }

  lemma {:induction false} SweptOrNot(m: Repo, policy: Policy, h: InfoHash)
    ensures var r, r' := RunSpec(m, Sweeps(Ordered(m.Keys), policy)), RemovePeerless(m, policy);
            (h in r <==> h in r') && (h in r ==> r[h] == r'[h])
  {
    SweepsEach(m, Ordered(m.Keys), policy, h);
  }

  /** So does sweeping torrent by torrent. */
  lemma {:induction false} WholeSweep(m: Repo, policy: Policy)
    ensures RunSpec(m, Sweeps(Ordered(m.Keys), policy)) == RemovePeerless(m, policy)
  {
    var r, r' := RunSpec(m, Sweeps(Ordered(m.Keys), policy)), RemovePeerless(m, policy);
    forall h
      ensures (h in r <==> h in r') && (h in r ==> r[h] == r'[h])
    {
      SweptOrNot(m, policy, h);
    }
    SameRepo(r, r');
  }

  lemma {:induction false} SameRepo(x: Repo, y: Repo)
    requires forall h :: (h in x <==> h in y) && (h in x ==> x[h] == y[h])
    ensures x == y
  {
    assert x.Keys == y.Keys;
  }

  lemma {:induction false} ImportedOrNot(m: Repo, db: Persisted, keys: seq<InfoHash>, h: InfoHash)
    requires Lists(keys, db.Keys) && forall i :: 0 <= i < |keys| ==> keys[i] in db
    ensures var r, r' := RunSpec(m, Imports(keys, db)), ImportPersistent(m, db);
            (h in r <==> h in r') && (h in r ==> r[h] == r'[h])
  {
    ImportsEach(m, keys, db, h);
  }

  /** And so does importing. */
  lemma {:induction false} WholeImport(m: Repo, db: Persisted, keys: seq<InfoHash>)
    requires keys == Ordered(db.Keys)
    ensures forall i :: 0 <= i < |keys| ==> keys[i] in db
    ensures RunSpec(m, Imports(keys, db)) == ImportPersistent(m, db)
  {
    OrderedIn(db.Keys, db.Keys);
    var r, r' := RunSpec(m, Imports(keys, db)), ImportPersistent(m, db);
    forall h
      ensures (h in r <==> h in r') && (h in r ==> r[h] == r'[h])
    {
      ImportedOrNot(m, db, keys, h);
    }
    SameRepo(r, r');
  }

  // ----- where the operations take their place -----

  /** Announces to an info-hash that have acquired an entry, not updated it, and not taken their place. */
  function Waiting(s: State, done: set<TaskId>, h: InfoHash): set<TaskId> {
    set tid | tid in s.tasks && s.tasks[tid].Holding? && s.tasks[tid].h == h && tid !in done
  }

  ghost function Upserts(s: State, tids: set<TaskId>): seq<SpecOp>
    requires tids <= s.tasks.Keys
  {
    if tids == {} then []
    else
      var tid :| tid in tids;
      [UpsertAt(tid, s.tasks[tid].h, s.tasks[tid].p)] + Upserts(s, tids - {tid})
  }

  /** The operations that take their place at a step, `done` being the announces that already have. An
      announce takes its place when it updates its entry, or just before a removal of its info-hash by
      name while it holds an entry. A sweep for peerless torrents takes its place at each removal.
      Cleaning or sweeping an entry that is no longer in the map is no operation on the repository. */
  ghost function Places(s: State, done: set<TaskId>, a: Action): seq<SpecOp>
    requires Enabled(s, a)
  {
    match a
    case Update(tid) => if tid in done then [] else [UpsertAt(tid, s.tasks[tid].h, s.tasks[tid].p)]
    case Import(h, n) => [ImportAt(h, n)]
    case Clean(ref, cutoff) =>
      var h := s.cells[ref].owner;
      if h in s.torrents && s.torrents[h] == ref then [CleanAt(h, cutoff)] else []
    case RemoveChecked(h, ref, policy) => if h in s.torrents && s.torrents[h] == ref then [SweepAt(h, policy)] else []
    case Remove(h) => Upserts(s, Waiting(s, done, h)) + [RemoveAt(h)]
    case _ => []
  }

  function DoneBy(s: State, done: set<TaskId>, a: Action): set<TaskId>
    requires Enabled(s, a)
  {
    match a
    case Update(tid) => done + {tid}
    case Remove(h) => done + Waiting(s, done, h)
    case _ => done
  }

  /** The operations of a run in the order of their places. */
  ghost function History(s: State, done: set<TaskId>, acts: seq<Action>): seq<SpecOp>
    requires Runnable(s, acts)
    decreases |acts|
  {
    if acts == [] then []
    else Places(s, done, acts[0]) + History(Do(s, acts[0]), DoneBy(s, done, acts[0]), acts[1..])
  }

  function DoneAfter(s: State, done: set<TaskId>, acts: seq<Action>): set<TaskId>
    requires Runnable(s, acts)
    decreases |acts|
  {
    if acts == [] then done else DoneAfter(Do(s, acts[0]), DoneBy(s, done, acts[0]), acts[1..])
  }

  /** The announces that have taken their place are the finished ones, and some whose entry has been
      removed from the map. */
  ghost predicate DoneInv(s: State, done: set<TaskId>) {
    && done <= s.tasks.Keys
    && (forall tid :: tid in done ==> PlaceTaken(s, s.tasks[tid]))
    && (forall tid :: tid in s.tasks && s.tasks[tid].Finished? ==> tid in done)
  }

  ghost predicate PlaceTaken(s: State, t: Task) {
    t.Finished? || (t.Holding? && t.gen != Removals(s, t.h) && t.gen <= Removals(s, t.h))
  }

  /** Every torrent reads the same; either repository may hold empty entries the other does not. */
  ghost predicate Linked(s: State, m: Repo) {
    forall h :: View(Abs(s), h) == View(m, h)
  }

  /** The condition under which a step keeps the link: an announce updates the entry its info-hash still
      has, or has taken its place before, or changes nothing; an import meets an entry in both repositories
      or in neither, or brings no counter; and a sweep removes a torrent that is still one to remove. */
  ghost predicate StepOk(s: State, m: Repo, done: set<TaskId>, a: Action)
    requires Enabled(s, a)
  {
    match a
    case Update(tid) =>
      var t := s.tasks[tid];
      tid in done || t.gen == Removals(s, t.h) || Upsert(View(m, t.h), t.p) == View(m, t.h)
    case Import(h, n) => (h in s.torrents <==> h in m) || n == 0
    case RemoveChecked(h, ref, policy) =>
      h in s.torrents && s.torrents[h] == ref ==> !Retained(View(Abs(s), h), policy)
    case _ => true
  }

  // ----- what each step does to the repository -----

  lemma {:induction false} AbsKeys(s: State)
    requires MapInv(s)
    ensures Abs(s).Keys == s.torrents.Keys
    ensures forall h :: h in s.torrents ==> Abs(s)[h] == s.cells[s.torrents[h]].value
  {
  }

  /** Creating an entry changes nothing else; an empty one is not even seen. */
  lemma {:induction false} AbsCreated(s: State, h: InfoHash, n: nat)
    requires MapInv(s)
    ensures Abs(Created(s, h, n)) == InsertNew(Abs(s), h, n)
  {
    var s' := Created(s, h, n);
    AbsKeys(s);
    if h !in s.torrents {
      assert s'.torrents[h] == |s.cells| && s'.cells[|s.cells|].value == Torrent(map[], n);
      forall x | x in s.torrents
        ensures s'.torrents[x] == s.torrents[x] && s'.cells[s.torrents[x]] == s.cells[s.torrents[x]]
      {
      }
      assert Abs(s').Keys == Abs(s).Keys + {h};
    }
  }

  lemma {:induction false} AbsRemoved(s: State, h: InfoHash)
    requires MapInv(s)
    ensures Abs(Removed(s, h)) == Abs(s) - {h}
  {
    assert Abs(Removed(s, h)).Keys == (Abs(s) - {h}).Keys;
  }

  /** An operation on an entry is seen exactly at the info-hash the map holds it for. */
  lemma {:induction false} AbsApplied(s: State, s': State, ref: Ref, op: Op, tid: TaskId)
    requires MapInv(s) && ref < |s.cells| && s'.torrents == s.torrents
    requires s'.cells == s.cells[ref := Applied(s.cells[ref], op, tid)]
    ensures var h := s.cells[ref].owner;
            Abs(s') == if h in s.torrents && s.torrents[h] == ref then Abs(s)[h := Apply(s.cells[ref].value, op)]
                       else Abs(s)
  {
    var h := s.cells[ref].owner;
    AbsKeys(s);
    assert Abs(s').Keys == Abs(s).Keys;
    forall x | x in s.torrents
      ensures s.torrents[x] == ref ==> x == h
    {
    }
  }

  /** What each step does to the repository, exactly: an announce that no longer finds its entry in the
      map leaves no trace, every other completed operation acts as on the single-lock repository. */
  lemma {:induction false} AbsUpdate(s: State, tid: TaskId)
    requires Inv(s) && Enabled(s, Update(tid))
    ensures var t := s.tasks[tid];
            Abs(Do(s, Update(tid))) == if t.gen == Removals(s, t.h) then UpsertPeer(Abs(s), t.h, t.p) else Abs(s)
    ensures var t := s.tasks[tid]; t.gen == Removals(s, t.h) ==> t.h in s.torrents
  {
    var t := s.tasks[tid];
    assert TaskSound(s, tid, t) && CellCurrent(s, t.ref);
    AbsApplied(s, Do(s, Update(tid)), t.ref, Announce(t.p), tid);
    AbsKeys(s);
  }

  /** Changing one torrent in both keeps the views equal exactly when the two new torrents are equal. */
  lemma {:induction false} ViewsAfter(x: Repo, m: Repo, x': Repo, m': Repo, h: InfoHash)
    requires forall k :: View(x, k) == View(m, k)
    requires forall k :: k != h ==> View(x', k) == View(x, k) && View(m', k) == View(m, k)
    ensures (forall k :: View(x', k) == View(m', k)) <==> View(x', h) == View(m', h)
  {
    forall k | k != h
      ensures View(x', k) == View(m', k)
    {
      assert View(x, k) == View(m, k);
    }
  }

  lemma {:induction false} LinkedUpdate(s: State, m: Repo, tid: TaskId)
    requires Inv(s) && Linked(s, m) && Enabled(s, Update(tid))
    ensures Linked(Do(s, Update(tid)), UpsertPeer(m, s.tasks[tid].h, s.tasks[tid].p)) <==>
            StepOk(s, m, {}, Update(tid))
  {
    var t, s', m' := s.tasks[tid], Do(s, Update(tid)), UpsertPeer(m, s.tasks[tid].h, s.tasks[tid].p);
    AbsUpdate(s, tid);
    ViewsAfter(Abs(s), m, Abs(s'), m', t.h);
    assert View(Abs(s), t.h) == View(m, t.h);
  }

  /** An announce that took its place earlier has lost its entry, and leaves no trace. */
  lemma {:induction false} LateUpdateUnseen(s: State, m: Repo, done: set<TaskId>, tid: TaskId)
    requires Inv(s) && Linked(s, m) && DoneInv(s, done) && Enabled(s, Update(tid)) && tid in done
    ensures Linked(Do(s, Update(tid)), m)
  {
    AbsUpdate(s, tid);
    assert PlaceTaken(s, s.tasks[tid]);
  }

  /** Announces just before a removal of their info-hash do not show after it. */
  lemma {:induction false} RemovedUnseen(m: Repo, ops: seq<SpecOp>, h: InfoHash)
    requires forall i :: 0 <= i < |ops| ==> ops[i].UpsertAt? && ops[i].h == h
    ensures RunSpec(m, ops + [RemoveAt(h)]) == m - {h}
    decreases |ops|
  {
    if ops == [] {
      assert ops + [RemoveAt(h)] == [RemoveAt(h)];
      RunSpecOne(m, RemoveAt(h));
    } else {
      assert (ops + [RemoveAt(h)])[1..] == ops[1..] + [RemoveAt(h)];
      RemovedUnseen(DoSpec(m, ops[0]), ops[1..], h);
      assert DoSpec(m, ops[0]) - {h} == m - {h};
    }
  }

  lemma {:induction false} UpsertsAt(s: State, tids: set<TaskId>, h: InfoHash)
    requires tids <= s.tasks.Keys && forall tid :: tid in tids ==> s.tasks[tid].h == h
    ensures forall i :: 0 <= i < |Upserts(s, tids)| ==> Upserts(s, tids)[i].UpsertAt? && Upserts(s, tids)[i].h == h
  {
    if tids != {} {
      var x :| x in tids && Upserts(s, tids) == [UpsertAt(x, s.tasks[x].h, s.tasks[x].p)] + Upserts(s, tids - {x});
      UpsertsAt(s, tids - {x}, h);
    }
  }

  lemma {:induction false} LinkedImport(s: State, m: Repo, done: set<TaskId>, h: InfoHash, n: nat)
    requires MapInv(s) && Linked(s, m)
    ensures Linked(Do(s, Import(h, n)), InsertNew(m, h, n)) <==> StepOk(s, m, done, Import(h, n))
  {
    AbsKeys(s);
    AbsCreated(s, h, n);
    ViewsAfter(Abs(s), m, InsertNew(Abs(s), h, n), InsertNew(m, h, n), h);
    assert View(Abs(s), h) == View(m, h);
  }

  lemma {:induction false} LinkedClean(s: State, m: Repo, done: set<TaskId>, ref: Ref, cutoff: nat)
    requires MapInv(s) && Linked(s, m) && ref < |s.cells|
    ensures Linked(Do(s, Clean(ref, cutoff)), RunSpec(m, Places(s, done, Clean(ref, cutoff))))
  {
    var s' := Do(s, Clean(ref, cutoff));
    var h := s.cells[ref].owner;
    AbsApplied(s, s', ref, Cleanup(cutoff), 0);
    if h in s.torrents && s.torrents[h] == ref {
      RunSpecOne(m, CleanAt(h, cutoff));
      AbsKeys(s);
      CleanLinked(Abs(s), m, h, cutoff);
    }
  }

  lemma {:induction false} CleanLinked(x: Repo, m: Repo, h: InfoHash, cutoff: nat)
    requires h in x && forall k :: View(x, k) == View(m, k)
    ensures forall k :: View(x[h := RemoveInactive(x[h], cutoff)], k) == View(DoSpec(m, CleanAt(h, cutoff)), k)
  {
    assert RemoveInactive(EMPTY, cutoff) == EMPTY;
    forall k
      ensures View(x[h := RemoveInactive(x[h], cutoff)], k) == View(DoSpec(m, CleanAt(h, cutoff)), k)
    {
      assert View(x, k) == View(m, k);
    }
  }

  lemma {:induction false} LinkedRemoved(s: State, m: Repo, h: InfoHash)
    requires MapInv(s) && Linked(s, m)
    ensures Linked(Removed(s, h), m - {h})
  {
    AbsRemoved(s, h);
    forall x
      ensures View(Abs(Removed(s, h)), x) == View(m - {h}, x)
    {
      assert View(Abs(s), x) == View(m, x);
    }
  }

  /** Only a torrent with nothing to show is always swept. */
  lemma {:induction false} RetainedIsNotEmpty(t: Torrent, policy: Policy)
    requires policy.removePeerless && Retained(t, policy)
    ensures t != EMPTY
  {
  }

  lemma {:induction false} SweepViews(x: Repo, m: Repo, h: InfoHash, policy: Policy)
    requires h in x && policy.removePeerless && forall k :: View(x, k) == View(m, k)
    ensures (forall k :: View(x - {h}, k) == View(DoSpec(m, SweepAt(h, policy)), k)) <==> !Retained(x[h], policy)
  {
    assert View(x, h) == View(m, h) && View(x - {h}, h) == EMPTY;
    ViewsAfter(x, m, x - {h}, DoSpec(m, SweepAt(h, policy)), h);
    if Retained(x[h], policy) {
      RetainedIsNotEmpty(x[h], policy);
    }
  }

  lemma {:induction false} LinkedSweep(s: State, m: Repo, h: InfoHash, policy: Policy)
    requires MapInv(s) && Linked(s, m) && h in s.torrents && policy.removePeerless
    ensures Linked(Removed(s, h), DoSpec(m, SweepAt(h, policy))) <==> !Retained(View(Abs(s), h), policy)
  {
    AbsKeys(s);
    AbsRemoved(s, h);
    SweepViews(Abs(s), m, h, policy);
    assert View(Abs(s), h) == View(m, h);
  }

  lemma {:induction false} LinkedSame(s: State, s': State, m: Repo)
    requires Linked(s, m) && s'.torrents == s.torrents && s'.cells == s.cells
    ensures Linked(s', m)
  {
    assert Abs(s') == Abs(s);
  }

  lemma {:induction false} LinkedGetOrInsert(s: State, m: Repo, tid: TaskId)
    requires MapInv(s) && Linked(s, m) && Enabled(s, GetOrInsert(tid))
    ensures Linked(Do(s, GetOrInsert(tid)), m)
  {
    var s' := Created(s, s.tasks[tid].h, 0);
    AbsCreated(s, s.tasks[tid].h, 0);
    forall x
      ensures View(Abs(s'), x) == View(m, x)
    {
      assert View(Abs(s), x) == View(m, x);
    }
    LinkedSame(s', Held(s', tid), m);
  }

  lemma {:induction false} RunSpecOne(m: Repo, op: SpecOp)
    ensures RunSpec(m, [op]) == DoSpec(m, op)
  {
    assert [op][1..] == [];
  }

  lemma {:induction false} LinkedRemove(s: State, m: Repo, done: set<TaskId>, h: InfoHash)
    requires MapInv(s) && Linked(s, m)
    ensures Linked(Do(s, Remove(h)), RunSpec(m, Places(s, done, Remove(h))))
  {
    UpsertsAt(s, Waiting(s, done, h), h);
    RemovedUnseen(m, Upserts(s, Waiting(s, done, h)), h);
    LinkedRemoved(s, m, h);
  }

  /** The link is kept by a step if and only if its condition holds. */
  lemma {:induction false} StepLinked(s: State, m: Repo, done: set<TaskId>, a: Action)
    requires Inv(s) && Linked(s, m) && DoneInv(s, done) && Enabled(s, a)
    ensures Linked(Do(s, a), RunSpec(m, Places(s, done, a))) <==> StepOk(s, m, done, a)
  {
    match a
    case Start(_, _, _) => LinkedSame(s, Do(s, a), m);
    case Lookup(_) => LinkedSame(s, Do(s, a), m);
    case GetOrInsert(tid) => LinkedGetOrInsert(s, m, tid);
    case Update(tid) =>
      if tid in done {
        LateUpdateUnseen(s, m, done, tid);
      } else {
        RunSpecOne(m, UpsertAt(tid, s.tasks[tid].h, s.tasks[tid].p));
        LinkedUpdate(s, m, tid);
      }
    case Import(h, n) =>
      RunSpecOne(m, ImportAt(h, n));
      LinkedImport(s, m, done, h, n);
    case Clean(ref, cutoff) => LinkedClean(s, m, done, ref, cutoff);
    case CheckPeerless(_, _) => LinkedSame(s, Do(s, a), m);
    case RemoveChecked(h, ref, policy) =>
      var s' := s.(doomed := s.doomed - {(h, ref, policy)});
      LinkedSame(s, s', m);
      DoomedInv(s, s');
      assert Abs(s') == Abs(s);
      RunSpecOne(m, SweepAt(h, policy));
      if h in s.torrents && s.torrents[h] == ref {
        LinkedSweep(s', m, h, policy);
      }
    case Remove(h) => LinkedRemove(s, m, done, h);
  }

  lemma {:induction false} StepDone(s: State, done: set<TaskId>, a: Action)
    requires Inv(s) && DoneInv(s, done) && Enabled(s, a)
    ensures DoneInv(Do(s, a), DoneBy(s, done, a))
  {
    var s', done' := Do(s, a), DoneBy(s, done, a);
    forall tid | tid in done'
      ensures tid in s'.tasks && PlaceTaken(s', s'.tasks[tid])
    {
      if tid in done {
        assert PlaceTaken(s, s.tasks[tid]);
      } else if a.Remove? {
        var t := s.tasks[tid];
        assert TaskSound(s, tid, t) && CellCurrent(s, t.ref);
      }
    }
  }

  // ----- whole runs -----

  ghost predicate RunOk(s: State, m: Repo, done: set<TaskId>, acts: seq<Action>)
    requires Runnable(s, acts)
    decreases |acts|
  {
    acts == [] ||
    (StepOk(s, m, done, acts[0]) &&
     RunOk(Do(s, acts[0]), RunSpec(m, Places(s, done, acts[0])), DoneBy(s, done, acts[0]), acts[1..]))
  }

  /** The link holds in every state along the run. */
  ghost predicate LinkedAlong(s: State, m: Repo, done: set<TaskId>, acts: seq<Action>)
    requires Runnable(s, acts)
    decreases |acts|
  {
    && Linked(s, m)
    && (acts == [] ||
        LinkedAlong(Do(s, acts[0]), RunSpec(m, Places(s, done, acts[0])), DoneBy(s, done, acts[0]), acts[1..]))
  }

  /** A run reads, at every moment, as the operations that have taken their place, in that order, make the
      single-lock repository read, if and only if every step meets its condition. */
  lemma {:induction false} LinearisesIff(s: State, m: Repo, done: set<TaskId>, acts: seq<Action>)
    requires Inv(s) && Linked(s, m) && DoneInv(s, done) && Runnable(s, acts)
    ensures LinkedAlong(s, m, done, acts) <==> RunOk(s, m, done, acts)
    decreases |acts|
  {
    if acts != [] {
      var s', m', done' := Do(s, acts[0]), RunSpec(m, Places(s, done, acts[0])), DoneBy(s, done, acts[0]);
      StepInv(s, acts[0]);
      StepDone(s, done, acts[0]);
      StepLinked(s, m, done, acts[0]);
      if Linked(s', m') {
        LinearisesIff(s', m', done', acts[1..]);
      } else {
        assert !LinkedAlong(s', m', done', acts[1..]);
      }
    }
  }

  lemma {:induction false} RunSpecAppend(m: Repo, xs: seq<SpecOp>, ys: seq<SpecOp>)
    ensures RunSpec(m, xs + ys) == RunSpec(RunSpec(m, xs), ys)
    decreases |xs|
  {
    if xs == [] {
      assert xs + ys == ys;
    } else {
      assert (xs + ys)[1..] == xs[1..] + ys;
      RunSpecAppend(DoSpec(m, xs[0]), xs[1..], ys);
    }
  }

  /** A run splits at any moment, and so does its history. */
  lemma {:induction false} RunSplit(s: State, done: set<TaskId>, acts: seq<Action>, k: nat)
    requires Runnable(s, acts) && k <= |acts|
    ensures Runnable(s, acts[..k]) && Runnable(Exec(s, acts[..k]), acts[k..])
    ensures Exec(s, acts) == Exec(Exec(s, acts[..k]), acts[k..])
    ensures var s', done' := Exec(s, acts[..k]), DoneAfter(s, done, acts[..k]);
            && History(s, done, acts) == History(s, done, acts[..k]) + History(s', done', acts[k..])
            && DoneAfter(s, done, acts) == DoneAfter(s', done', acts[k..])
    decreases k
  {
    if k == 0 {
      assert acts[..0] == [] && acts[0..] == acts;
    } else {
      RunSplit(Do(s, acts[0]), DoneBy(s, done, acts[0]), acts[1..], k - 1);
      assert acts[1..][..k - 1] == acts[..k][1..] && acts[1..][k - 1..] == acts[k..];
    }
  }

  lemma {:induction false} LinkedAt(s: State, m: Repo, done: set<TaskId>, acts: seq<Action>, k: nat)
    requires Runnable(s, acts) && LinkedAlong(s, m, done, acts) && k <= |acts|
    ensures Runnable(s, acts[..k]) && Linked(Exec(s, acts[..k]), RunSpec(m, History(s, done, acts[..k])))
    decreases k
  {
    if k == 0 {
      assert acts[..0] == [];
    } else {
      var s', done' := Do(s, acts[0]), DoneBy(s, done, acts[0]);
      LinkedAt(s', RunSpec(m, Places(s, done, acts[0])), done', acts[1..], k - 1);
      assert acts[1..][..k - 1] == acts[..k][1..];
      RunSpecAppend(m, Places(s, done, acts[0]), History(s', done', acts[..k][1..]));
    }
  }

  // ----- every operation has one place, between its start and its end -----

  function Count(ops: seq<SpecOp>, tid: TaskId): nat {
    if ops == [] then 0 else (if ByTask(ops[0], tid) then 1 else 0) + Count(ops[1..], tid)
  }

  predicate ByTask(op: SpecOp, tid: TaskId) { op.UpsertAt? && op.tid == tid }

  lemma {:induction false} CountAppend(xs: seq<SpecOp>, ys: seq<SpecOp>, tid: TaskId)
    ensures Count(xs + ys, tid) == Count(xs, tid) + Count(ys, tid)
  {
    if xs == [] {
      assert xs + ys == ys;
    } else {
      assert (xs + ys)[1..] == xs[1..] + ys;
      CountAppend(xs[1..], ys, tid);
    }
  }

  lemma {:induction false} CountNone(ops: seq<SpecOp>, tid: TaskId, i: nat)
    requires Count(ops, tid) == 0 && i < |ops|
    ensures !ByTask(ops[i], tid)
  {
    if i > 0 {
      CountNone(ops[1..], tid, i - 1);
    }
  }

  lemma {:induction false} CountUpserts(s: State, tids: set<TaskId>, tid: TaskId)
    requires tids <= s.tasks.Keys
    ensures Count(Upserts(s, tids), tid) == if tid in tids then 1 else 0
  {
    if tids != {} {
      var x :| x in tids && Upserts(s, tids) == [UpsertAt(x, s.tasks[x].h, s.tasks[x].p)] + Upserts(s, tids - {x});
      CountUpserts(s, tids - {x}, tid);
      assert Upserts(s, tids)[1..] == Upserts(s, tids - {x});
    }
  }

  lemma {:induction false} CountPlaces(s: State, done: set<TaskId>, a: Action, tid: TaskId)
    requires Enabled(s, a)
    ensures Count(Places(s, done, a), tid) == if tid in DoneBy(s, done, a) - done then 1 else 0
  {
    match a
    case Remove(h) =>
      CountAppend(Upserts(s, Waiting(s, done, h)), [RemoveAt(h)], tid);
      CountUpserts(s, Waiting(s, done, h), tid);
    case _ =>
  }

  lemma {:induction false} DoneGrows(s: State, done: set<TaskId>, acts: seq<Action>)
    requires Runnable(s, acts)
    ensures done <= DoneAfter(s, done, acts)
    decreases |acts|
  {
    if acts != [] {
      DoneGrows(Do(s, acts[0]), DoneBy(s, done, acts[0]), acts[1..]);
    }
  }

  lemma {:induction false} CountHistory(s: State, done: set<TaskId>, acts: seq<Action>, tid: TaskId)
    requires Runnable(s, acts)
    ensures Count(History(s, done, acts), tid) == if tid in DoneAfter(s, done, acts) - done then 1 else 0
    decreases |acts|
  {
    if acts != [] {
      var s', done' := Do(s, acts[0]), DoneBy(s, done, acts[0]);
      CountHistory(s', done', acts[1..], tid);
      CountPlaces(s, done, acts[0], tid);
      CountAppend(Places(s, done, acts[0]), History(s', done', acts[1..]), tid);
      DoneGrows(s', done', acts[1..]);
    }
  }

  lemma {:induction false} RunDone(s: State, done: set<TaskId>, acts: seq<Action>)
    requires Inv(s) && DoneInv(s, done) && Runnable(s, acts)
    ensures DoneInv(Exec(s, acts), DoneAfter(s, done, acts))
    decreases |acts|
  {
    if acts != [] {
      StepInv(s, acts[0]);
      StepDone(s, done, acts[0]);
      RunDone(Do(s, acts[0]), DoneBy(s, done, acts[0]), acts[1..]);
    }
  }

  /** A finished announce has exactly one place in the history; one that has not acquired an entry yet,
      or has not started, has none; and one in between has at most one. */
  lemma {:induction false} PlacedOnce(acts: seq<Action>, tid: TaskId)
    requires Runnable(INIT, acts)
    ensures var tasks, n := Exec(INIT, acts).tasks, Count(History(INIT, {}, acts), tid);
            && n <= 1
            && (tid in tasks && tasks[tid].Finished? ==> n == 1)
            && (tid !in tasks || tasks[tid].Wanting? || tasks[tid].Missed? ==> n == 0)
  {
    CountHistory(INIT, {}, acts, tid);
    RunDone(INIT, {}, acts);
    if tid in DoneAfter(INIT, {}, acts) {
      assert PlaceTaken(Exec(INIT, acts), Exec(INIT, acts).tasks[tid]);
    }
  }

  lemma {:induction false} TaskKept(s: State, acts: seq<Action>, tid: TaskId)
    requires Runnable(s, acts) && tid in s.tasks
    ensures tid in Exec(s, acts).tasks
    ensures Exec(s, acts).tasks[tid].h == s.tasks[tid].h && Exec(s, acts).tasks[tid].p == s.tasks[tid].p
    decreases |acts|
  {
    if acts != [] {
      TaskKept(Do(s, acts[0]), acts[1..], tid);
    }
  }

  ghost predicate OfTask(s: State, op: SpecOp) {
    op.UpsertAt? ==> op.tid in s.tasks && s.tasks[op.tid].h == op.h && s.tasks[op.tid].p == op.p
  }

  lemma {:induction false} UpsertsOfTasks(s: State, tids: set<TaskId>)
    requires tids <= s.tasks.Keys
    ensures forall i :: 0 <= i < |Upserts(s, tids)| ==> OfTask(s, Upserts(s, tids)[i])
  {
    if tids != {} {
      var x :| x in tids && Upserts(s, tids) == [UpsertAt(x, s.tasks[x].h, s.tasks[x].p)] + Upserts(s, tids - {x});
      UpsertsOfTasks(s, tids - {x});
    }
  }

  lemma {:induction false} PlacesOfTasks(s: State, done: set<TaskId>, a: Action, i: nat)
    requires Enabled(s, a) && i < |Places(s, done, a)|
    ensures OfTask(s, Places(s, done, a)[i])
  {
    if a.Remove? {
      UpsertsOfTasks(s, Waiting(s, done, a.h));
    }
  }

  /** An announce stands in the history with its own info-hash and peer. */
  lemma {:induction false} PlacedAsCalled(s: State, done: set<TaskId>, acts: seq<Action>, i: nat)
    requires Runnable(s, acts) && i < |History(s, done, acts)|
    ensures OfTask(Exec(s, acts), History(s, done, acts)[i])
    decreases |acts|
  {
    var ops, rest := Places(s, done, acts[0]), History(Do(s, acts[0]), DoneBy(s, done, acts[0]), acts[1..]);
    assert History(s, done, acts)[i] == if i < |ops| then ops[i] else rest[i - |ops|];
    if i < |ops| {
      PlacesOfTasks(s, done, acts[0], i);
      if ops[i].UpsertAt? {
        TaskKept(s, acts, ops[i].tid);
      }
    } else {
      PlacedAsCalled(Do(s, acts[0]), DoneBy(s, done, acts[0]), acts[1..], i - |ops|);
    }
  }

  /** Real time is respected. At every moment of a run the history so far is a beginning of the whole one;
      an announce that has finished by then stands in it, one that has not started stands after it. */
  lemma {:induction false} RealTimeOrder(acts: seq<Action>, k: nat, tid: TaskId, i: nat)
    requires Runnable(INIT, acts) && k <= |acts|
    requires i < |History(INIT, {}, acts)| && ByTask(History(INIT, {}, acts)[i], tid)
    ensures Runnable(INIT, acts[..k]) && History(INIT, {}, acts[..k]) <= History(INIT, {}, acts)
    ensures var tasks, sofar := Exec(INIT, acts[..k]).tasks, |History(INIT, {}, acts[..k])|;
            && (tid in tasks && tasks[tid].Finished? ==> i < sofar)
            && (tid !in tasks ==> sofar <= i)
  {
    RunSplit(INIT, {}, acts, k);
    var tasks := Exec(INIT, acts[..k]).tasks;
    var before := History(INIT, {}, acts[..k]);
    var after := History(Exec(INIT, acts[..k]), DoneAfter(INIT, {}, acts[..k]), acts[k..]);
    PlacedOnce(acts[..k], tid);
    PlacedOnce(acts, tid);
    CountAppend(before, after, tid);
    if tid !in tasks && i < |before| {
      CountNone(before, tid, i);
    }
    if tid in tasks && tasks[tid].Finished? && i >= |before| {
      CountNone(after, tid, i - |before|);
    }
  }

  // ----- conditions on the concurrent run alone -----

  /** No announce has lost its entry to a sweep when it updates it, no announce is between acquiring and
      updating an entry of a torrent being imported, and no torrent that a sweep found peerless has been
      announced to again when the sweep removes it. */
  ghost predicate Undisturbed(s: State, done: set<TaskId>, acts: seq<Action>)
    requires Runnable(s, acts)
    decreases |acts|
  {
    acts == [] ||
    (StepUndisturbed(s, done, acts[0]) && Undisturbed(Do(s, acts[0]), DoneBy(s, done, acts[0]), acts[1..]))
  }

  ghost predicate StepUndisturbed(s: State, done: set<TaskId>, a: Action)
    requires Enabled(s, a)
  {
    match a
    case Update(tid) => tid in done || s.tasks[tid].gen == Removals(s, s.tasks[tid].h)
    case Import(h, _) => Waiting(s, done, h) == {}
    case RemoveChecked(h, ref, policy) =>
      h in s.torrents && s.torrents[h] == ref && ref < |s.cells| ==> !Retained(s.cells[ref].value, policy)
    case _ => true
  }

  /** The concurrent map has every torrent of the other repository, and what else it has is held by an
      announce that has not taken its place. */
  ghost predicate Touched(s: State, m: Repo, done: set<TaskId>) {
    && m.Keys <= s.torrents.Keys
    && forall h :: h in s.torrents && h !in m ==> Waiting(s, done, h) != {}
  }

  /** New entries are in both repositories, or were there before. */
  lemma {:induction false} TouchedSameTasks(s: State, s': State, m: Repo, m': Repo, done: set<TaskId>)
    requires Touched(s, m, done) && s'.tasks == s.tasks && m'.Keys <= s'.torrents.Keys
    requires forall h :: h in s'.torrents && h !in m' ==> h in s.torrents && h !in m
    ensures Touched(s', m', done)
  {
    forall h | h in s'.torrents && h !in m'
      ensures Waiting(s', done, h) != {}
    {
      assert Waiting(s', done, h) == Waiting(s, done, h);
    }
  }

  lemma {:induction false} TouchedGetOrInsert(s: State, m: Repo, done: set<TaskId>, tid: TaskId)
    requires Touched(s, m, done) && DoneInv(s, done) && Enabled(s, GetOrInsert(tid))
    ensures Touched(Do(s, GetOrInsert(tid)), m, done)
  {
    var s', t := Do(s, GetOrInsert(tid)), s.tasks[tid];
    assert tid in done ==> PlaceTaken(s, t);
    assert tid in Waiting(s', done, t.h);
    forall h | h in s'.torrents && h !in m && h != t.h
      ensures Waiting(s', done, h) != {}
    {
      assert Waiting(s, done, h) <= Waiting(s', done, h);
    }
  }

  lemma {:induction false} TouchedTaskMoves(s: State, s': State, m: Repo, done: set<TaskId>, tid: TaskId)
    requires Touched(s, m, done) && s'.torrents == s.torrents && (tid in s.tasks ==> !s.tasks[tid].Holding?)
    requires tid in s'.tasks && s'.tasks == s.tasks[tid := s'.tasks[tid]]
    ensures Touched(s', m, done)
  {
    forall h | h in s'.torrents && h !in m
      ensures Waiting(s', done, h) != {}
    {
      assert Waiting(s, done, h) <= Waiting(s', done, h);
    }
  }

  /** An announce that ends had taken its place before, or takes it now. */
  lemma {:induction false} TouchedTaskEnds(s: State, s': State, m: Repo, m': Repo, done: set<TaskId>, tid: TaskId)
    requires Touched(s, m, done) && m.Keys <= m'.Keys <= s.torrents.Keys && s'.torrents == s.torrents
    requires tid in s.tasks && tid in s'.tasks && s'.tasks == s.tasks[tid := s'.tasks[tid]]
    requires tid in done || s.tasks[tid].h in m'
    ensures Touched(s', m', done + {tid})
  {
    forall h | h in s'.torrents && h !in m'
      ensures Waiting(s', done + {tid}, h) != {}
    {
      assert Waiting(s, done, h) <= Waiting(s', done + {tid}, h);
    }
  }

  lemma {:induction false} TouchedUpdate(s: State, m: Repo, done: set<TaskId>, tid: TaskId)
    requires Inv(s) && Touched(s, m, done) && Enabled(s, Update(tid)) && StepUndisturbed(s, done, Update(tid))
    ensures Touched(Do(s, Update(tid)), RunSpec(m, Places(s, done, Update(tid))), done + {tid})
  {
    var s', t := Do(s, Update(tid)), s.tasks[tid];
    if tid in done {
      TouchedTaskEnds(s, s', m, m, done, tid);
    } else {
      RunSpecOne(m, UpsertAt(tid, t.h, t.p));
      AbsUpdate(s, tid);
      TouchedTaskEnds(s, s', m, UpsertPeer(m, t.h, t.p), done, tid);
    }
  }

  lemma {:induction false} TouchedSweep(s: State, m: Repo, done: set<TaskId>, h: InfoHash, ref: Ref, policy: Policy)
    requires Inv(s) && Linked(s, m) && Touched(s, m, done) && Enabled(s, RemoveChecked(h, ref, policy))
    requires StepUndisturbed(s, done, RemoveChecked(h, ref, policy))
    ensures var a := RemoveChecked(h, ref, policy);
            Touched(Do(s, a), RunSpec(m, Places(s, done, a)), done)
  {
    var s' := Do(s, RemoveChecked(h, ref, policy));
    if h in s.torrents && s.torrents[h] == ref {
      RunSpecOne(m, SweepAt(h, policy));
      AbsKeys(s);
      assert View(Abs(s), h) == View(m, h);
      TouchedSwept(s, s', m, done, h, policy);
    } else {
      TouchedSameTasks(s, s', m, m, done);
    }
  }

  lemma {:induction false} TouchedSwept(s: State, s': State, m: Repo, done: set<TaskId>, h: InfoHash, policy: Policy)
    requires Touched(s, m, done) && s'.tasks == s.tasks && s'.torrents == s.torrents - {h}
    requires h in m ==> !Retained(m[h], policy)
    ensures Touched(s', DoSpec(m, SweepAt(h, policy)), done)
  {
    TouchedSameTasks(s, s', m, DoSpec(m, SweepAt(h, policy)), done);
  }

  lemma {:induction false} TouchedRemove(s: State, m: Repo, done: set<TaskId>, h: InfoHash)
    requires Touched(s, m, done)
    ensures Touched(Do(s, Remove(h)), RunSpec(m, Places(s, done, Remove(h))), DoneBy(s, done, Remove(h)))
  {
    var s', done' := Do(s, Remove(h)), DoneBy(s, done, Remove(h));
    UpsertsAt(s, Waiting(s, done, h), h);
    RemovedUnseen(m, Upserts(s, Waiting(s, done, h)), h);
    forall x | x in s'.torrents && x !in m - {h}
      ensures Waiting(s', done', x) != {}
    {
      assert Waiting(s, done, x) <= Waiting(s', done', x);
    }
  }

  lemma {:induction false} TouchedImport(s: State, m: Repo, done: set<TaskId>, h: InfoHash, n: nat)
    requires Touched(s, m, done)
    ensures Touched(Created(s, h, n), RunSpec(m, [ImportAt(h, n)]), done)
  {
    RunSpecOne(m, ImportAt(h, n));
    TouchedSameTasks(s, Created(s, h, n), m, InsertNew(m, h, n), done);
  }

  lemma {:induction false} TouchedClean(s: State, m: Repo, done: set<TaskId>, ref: Ref, cutoff: nat)
    requires Touched(s, m, done) && Enabled(s, Clean(ref, cutoff))
    ensures Touched(Do(s, Clean(ref, cutoff)), RunSpec(m, Places(s, done, Clean(ref, cutoff))), done)
  {
    RunSpecOne(m, CleanAt(s.cells[ref].owner, cutoff));
    TouchedSameTasks(s, Do(s, Clean(ref, cutoff)), m, RunSpec(m, Places(s, done, Clean(ref, cutoff))), done);
  }

  lemma {:induction false} StepTouched(s: State, m: Repo, done: set<TaskId>, a: Action)
    requires Inv(s) && Linked(s, m) && DoneInv(s, done) && Touched(s, m, done)
    requires Enabled(s, a) && StepUndisturbed(s, done, a)
    ensures Touched(Do(s, a), RunSpec(m, Places(s, done, a)), DoneBy(s, done, a))
  {
    match a
    case GetOrInsert(tid) => TouchedGetOrInsert(s, m, done, tid);
    case Update(tid) => TouchedUpdate(s, m, done, tid);
    case Remove(h) => TouchedRemove(s, m, done, h);
    case RemoveChecked(h, ref, policy) => TouchedSweep(s, m, done, h, ref, policy);
    case Import(h, n) => TouchedImport(s, m, done, h, n);
    case Clean(ref, cutoff) => TouchedClean(s, m, done, ref, cutoff);
    case Start(tid, _, _) => TouchedTaskMoves(s, Do(s, a), m, done, tid);
    case Lookup(tid) => TouchedTaskMoves(s, Do(s, a), m, done, tid);
    case CheckPeerless(_, _) => TouchedSameTasks(s, Do(s, a), m, m, done);
  }

  lemma {:induction false} UndisturbedIsOk(s: State, m: Repo, done: set<TaskId>, acts: seq<Action>)
    requires Inv(s) && Linked(s, m) && DoneInv(s, done) && Touched(s, m, done)
    requires Runnable(s, acts) && Undisturbed(s, done, acts)
    ensures RunOk(s, m, done, acts)
    decreases |acts|
  {
    if acts != [] {
      var a := acts[0];
      AbsKeys(s);
      assert StepOk(s, m, done, a);
      StepInv(s, a);
      StepDone(s, done, a);
      StepTouched(s, m, done, a);
      StepLinked(s, m, done, a);
      UndisturbedIsOk(Do(s, a), RunSpec(m, Places(s, done, a)), DoneBy(s, done, a), acts[1..]);
    }
  }

  /** At every moment, the run reads as what its operations, in the order of their places, make of the
      empty single-lock repository. */
  ghost predicate ReadsAsHistory(acts: seq<Action>)
    requires Runnable(INIT, acts)
  {
    forall k :: 0 <= k <= |acts| ==>
      Runnable(INIT, acts[..k]) && Linked(Exec(INIT, acts[..k]), RunSpec(map[], History(INIT, {}, acts[..k])))
  }

  lemma {:induction false} LinkedReads(acts: seq<Action>)
    requires Runnable(INIT, acts)
    ensures LinkedAlong(INIT, map[], {}, acts) <==> ReadsAsHistory(acts)
  {
    if LinkedAlong(INIT, map[], {}, acts) {
      forall k | 0 <= k <= |acts|
        ensures Runnable(INIT, acts[..k])
        ensures Linked(Exec(INIT, acts[..k]), RunSpec(map[], History(INIT, {}, acts[..k])))
      {
        LinkedAt(INIT, map[], {}, acts, k);
      }
    } else {
      var k := UnlinkedAt(INIT, map[], {}, acts);
    }
  }

  /** A run that is not linked along has a moment at which it reads differently. */
  lemma {:induction false} UnlinkedAt(s: State, m: Repo, done: set<TaskId>, acts: seq<Action>) returns (k: nat)
    requires Runnable(s, acts) && !LinkedAlong(s, m, done, acts)
    ensures k <= |acts| && Runnable(s, acts[..k])
    ensures !Linked(Exec(s, acts[..k]), RunSpec(m, History(s, done, acts[..k])))
    decreases |acts|
  {
    if !Linked(s, m) {
      k := 0;
      assert acts[..0] == [];
    } else {
      var s', done' := Do(s, acts[0]), DoneBy(s, done, acts[0]);
      var n := UnlinkedAt(s', RunSpec(m, Places(s, done, acts[0])), done', acts[1..]);
      k := n + 1;
      assert acts[1..][..n] == acts[..k][1..];
      RunSpecAppend(m, Places(s, done, acts[0]), History(s', done', acts[..k][1..]));
    }
  }

  /** From the start: the run reads as its history at every moment if and only if every step meets its
      condition. */
  lemma {:induction false} ReadsIff(acts: seq<Action>)
    requires Runnable(INIT, acts)
    ensures ReadsAsHistory(acts) <==> RunOk(INIT, map[], {}, acts)
  {
    LinearisesIff(INIT, map[], {}, acts);
    LinkedReads(acts);
  }

  /** Linearisation of undisturbed runs of any length, removals by name at any moment included. */
  lemma {:induction false} Linearises(acts: seq<Action>)
    requires Runnable(INIT, acts) && Undisturbed(INIT, {}, acts)
    ensures ReadsAsHistory(acts)
  {
    UndisturbedIsOk(INIT, map[], {}, acts);
    ReadsIff(acts);
  }

  predicate SweepFree(acts: seq<Action>) { forall i :: 0 <= i < |acts| ==> !acts[i].RemoveChecked? }

  /** Each import finds the torrent in both repositories or in neither, or brings a counter of zero. */
  ghost predicate ImportsOk(s: State, m: Repo, done: set<TaskId>, acts: seq<Action>)
    requires Runnable(s, acts)
    decreases |acts|
  {
    acts == [] ||
    ((acts[0].Import? ==> StepOk(s, m, done, acts[0])) &&
     ImportsOk(Do(s, acts[0]), RunSpec(m, Places(s, done, acts[0])), DoneBy(s, done, acts[0]), acts[1..]))
  }

  /** An announce that has not taken its place still finds its entry in the map. */
  ghost predicate WaitingIsCurrent(s: State, done: set<TaskId>) {
    forall tid :: tid in s.tasks && s.tasks[tid].Holding? && tid !in done ==>
      s.tasks[tid].gen == Removals(s, s.tasks[tid].h)
  }

  lemma {:induction false} StepWaitingIsCurrent(s: State, done: set<TaskId>, a: Action)
    requires WaitingIsCurrent(s, done) && Enabled(s, a) && !a.RemoveChecked?
    ensures WaitingIsCurrent(Do(s, a), DoneBy(s, done, a))
  {
    var s', done' := Do(s, a), DoneBy(s, done, a);
    forall tid | tid in s'.tasks && s'.tasks[tid].Holding? && tid !in done'
      ensures s'.tasks[tid].gen == Removals(s', s'.tasks[tid].h)
    {
      if a.Remove? {
        assert tid !in Waiting(s, done, a.h);
      }
    }
  }

  lemma {:induction false} SweepFreeOk(s: State, m: Repo, done: set<TaskId>, acts: seq<Action>)
    requires WaitingIsCurrent(s, done) && Runnable(s, acts) && SweepFree(acts)
    ensures RunOk(s, m, done, acts) <==> ImportsOk(s, m, done, acts)
    decreases |acts|
  {
    if acts != [] {
      var a := acts[0];
      StepWaitingIsCurrent(s, done, a);
      SweepFreeOk(Do(s, a), RunSpec(m, Places(s, done, a)), DoneBy(s, done, a), acts[1..]);
    }
  }

  /** Every interleaving of announces, imports, peer cleanups and removals by name linearises if and only
      if its imports meet their condition; without imports, always. */
  lemma {:induction false} SweepFreeLinearises(acts: seq<Action>)
    requires Runnable(INIT, acts) && SweepFree(acts)
    ensures ReadsAsHistory(acts) <==> ImportsOk(INIT, map[], {}, acts)
    ensures (forall i :: 0 <= i < |acts| ==> !acts[i].Import?) ==> ReadsAsHistory(acts)
  {
    SweepFreeOk(INIT, map[], {}, acts);
    ReadsIff(acts);
    if forall i :: 0 <= i < |acts| ==> !acts[i].Import? {
      NoImports(INIT, map[], {}, acts);
    }
  }

  lemma {:induction false} NoImports(s: State, m: Repo, done: set<TaskId>, acts: seq<Action>)
    requires Runnable(s, acts) && forall i :: 0 <= i < |acts| ==> !acts[i].Import?
    ensures ImportsOk(s, m, done, acts)
    decreases |acts|
  {
    if acts != [] {
      NoImports(Do(s, acts[0]), RunSpec(m, Places(s, done, acts[0])), DoneBy(s, done, acts[0]), acts[1..]);
    }
  }

  // ----- operations that nothing interrupts -----

  lemma {:induction false} UpdateAlone(s: State, tid: TaskId)
    requires Inv(s) && tid in s.tasks && s.tasks[tid].Holding? && s.tasks[tid].gen == Removals(s, s.tasks[tid].h)
    ensures Enabled(s, Update(tid))
    ensures Abs(Do(s, Update(tid))) == UpsertPeer(Abs(s), s.tasks[tid].h, s.tasks[tid].p)
  {
    assert TaskSound(s, tid, s.tasks[tid]);
    AbsUpdate(s, tid);
  }

  lemma {:induction false} TwoSteps(s: State, x: Action, y: Action)
    requires Enabled(s, x) && Enabled(Do(s, x), y)
    ensures Runnable(s, [x, y]) && Exec(s, [x, y]) == Do(Do(s, x), y)
  {
    assert [x, y][1..] == [y] && [y][1..] == [];
    RunFrom(Do(s, x), [y], Do(Do(s, x), y));
    RunFrom(s, [x, y], Do(Do(s, x), y));
  }

  lemma {:induction false} Acquires(s: State, tid: TaskId)
    requires Inv(s) && Enabled(s, GetOrInsert(tid))
    ensures var s', t := Do(s, GetOrInsert(tid)), s.tasks[tid];
            && Abs(s') == InsertNew(Abs(s), t.h, 0)
            && s'.tasks[tid].Holding? && s'.tasks[tid].h == t.h && s'.tasks[tid].p == t.p
            && s'.tasks[tid].gen == Removals(s', t.h) && Inv(s')
  {
    StepInv(s, GetOrInsert(tid));
    AbsCreated(s, s.tasks[tid].h, 0);
    assert Abs(Do(s, GetOrInsert(tid))) == Abs(Created(s, s.tasks[tid].h, 0));
  }

  lemma {:induction false} AcquireAndUpdate(s: State, tid: TaskId)
    requires Inv(s) && Enabled(s, GetOrInsert(tid))
    ensures var a, t := [GetOrInsert(tid), Update(tid)], s.tasks[tid];
            Runnable(s, a) && Abs(Exec(s, a)) == UpsertPeer(Abs(s), t.h, t.p)
  {
    Acquires(s, tid);
    UpdateAlone(Do(s, GetOrInsert(tid)), tid);
    TwoSteps(s, GetOrInsert(tid), Update(tid));
    InsertedThenUpserted(Abs(s), s.tasks[tid].h, s.tasks[tid].p);
  }

  lemma {:induction false} InsertedThenUpserted(m: Repo, h: InfoHash, p: Peer)
    ensures UpsertPeer(InsertNew(m, h, 0), h, p) == UpsertPeer(m, h, p)
  {
  }

  lemma {:induction false} FoundAndUpdated(s: State, tid: TaskId)
    requires Inv(s) && tid in s.tasks && s.tasks[tid].Wanting? && s.tasks[tid].h in s.torrents
    ensures var a, t := [Lookup(tid), Update(tid)], s.tasks[tid];
            Runnable(s, a) && Abs(Exec(s, a)) == UpsertPeer(Abs(s), t.h, t.p)
  {
    var s' := Do(s, Lookup(tid));
    StepInv(s, Lookup(tid));
    assert Abs(s') == Abs(s);
    UpdateAlone(s', tid);
    TwoSteps(s, Lookup(tid), Update(tid));
  }

  lemma {:induction false} MissedThenUpdated(s: State, tid: TaskId)
    requires Inv(s) && tid in s.tasks && s.tasks[tid].Wanting? && s.tasks[tid].h !in s.torrents
    ensures var a, t := [Lookup(tid), GetOrInsert(tid), Update(tid)], s.tasks[tid];
            Runnable(s, a) && Abs(Exec(s, a)) == UpsertPeer(Abs(s), t.h, t.p)
  {
    var a, s' := [Lookup(tid), GetOrInsert(tid), Update(tid)], Do(s, Lookup(tid));
    StepInv(s, Lookup(tid));
    assert Abs(s') == Abs(s);
    AcquireAndUpdate(s', tid);
    assert a[1..] == [GetOrInsert(tid), Update(tid)];
    RunFrom(s, a, Exec(s', a[1..]));
  }

  /** An announce run alone does what the single-lock upsert does: in two steps on the skip map; on the
      two-level repository in two steps when its lookup finds the torrent, in three when it does not. */
  lemma {:induction false} UpsertAlone(s: State, tid: TaskId)
    requires Inv(s) && tid in s.tasks && s.tasks[tid].Wanting?
    ensures var a, t := [GetOrInsert(tid), Update(tid)], s.tasks[tid];
            Runnable(s, a) && Abs(Exec(s, a)) == UpsertPeer(Abs(s), t.h, t.p)
    ensures var t := s.tasks[tid];
            var a := if t.h in s.torrents then [Lookup(tid), Update(tid)]
                     else [Lookup(tid), GetOrInsert(tid), Update(tid)];
            Runnable(s, a) && Abs(Exec(s, a)) == UpsertPeer(Abs(s), t.h, t.p)
  {
    AcquireAndUpdate(s, tid);
    if s.tasks[tid].h in s.torrents {
      FoundAndUpdated(s, tid);
    } else {
      MissedThenUpdated(s, tid);
    }
  }

  /** A sweep run alone can remove a torrent if and only if the single-lock sweep would, and does that. */
  lemma {:induction false} SweepAlone(s: State, h: InfoHash, policy: Policy)
    requires Inv(s) && h in s.torrents
    ensures Enabled(s, CheckPeerless(h, policy)) <==> DoSpec(Abs(s), SweepAt(h, policy)) != Abs(s)
    ensures Enabled(s, CheckPeerless(h, policy)) ==>
              var a := [CheckPeerless(h, policy), RemoveChecked(h, s.torrents[h], policy)];
              Runnable(s, a) && Abs(Exec(s, a)) == DoSpec(Abs(s), SweepAt(h, policy))
  {
    AbsKeys(s);
    assert h !in Abs(s) - {h};
    if Enabled(s, CheckPeerless(h, policy)) {
      var a := [CheckPeerless(h, policy), RemoveChecked(h, s.torrents[h], policy)];
      var s1 := Do(s, a[0]);
      var s2 := Do(s1, a[1]);
      AbsRemoved(s, h);
      assert Abs(s2) == Abs(Removed(s, h));
      assert a[1..][1..] == [];
      RunFrom(s1, a[1..], s2);
      RunFrom(s, a, s2);
    }
  }

  // ----- what the conditions exclude -----

  /** On a single-lock repository with an empty torrent, an announce and a sweep keep the peer in either
      order. */
  ghost predicate BothOrdersKeep(h: InfoHash, p: Peer, policy: Policy) {
    var m := map[h := EMPTY];
    && p.id in View(DoSpec(DoSpec(m, UpsertAt(1, h, p)), SweepAt(h, policy)), h).peers
    && p.id in View(DoSpec(DoSpec(m, SweepAt(h, policy)), UpsertAt(1, h, p)), h).peers
  }

  lemma {:induction false} SweepKeepsAnnounce(h: InfoHash, p: Peer, policy: Policy)
    requires p.event == Started
    ensures BothOrdersKeep(h, p, policy)
  {
    assert p.id in Upsert(EMPTY, p).peers;
    assert |Upsert(EMPTY, p).peers| > 0;
  }

  /** A torrent swept as peerless after an announce has acquired its entry and before the announce updates
      it takes the announce with it: the announce has finished, and the repository is empty. */
  lemma {:induction false} RemovedTorrentTakesAnnounce(h: InfoHash, stop: Peer, p: Peer)
    requires stop.event == Stopped && p.event == Started
    ensures var policy := Policy(1, false, true);
            var acts := [Start(0, h, stop), GetOrInsert(0), Update(0), Start(1, h, p), GetOrInsert(1),
                         CheckPeerless(h, policy), RemoveChecked(h, 0, policy), Update(1)];
            && Runnable(INIT, acts)
            && 1 in Exec(INIT, acts).tasks && Exec(INIT, acts).tasks[1].Finished? && Abs(Exec(INIT, acts)) == map[]
    ensures BothOrdersKeep(h, p, Policy(1, false, true))
  {
    var policy := Policy(1, false, true);
    var a := [Start(0, h, stop), GetOrInsert(0), Update(0), Start(1, h, p), GetOrInsert(1),
              CheckPeerless(h, policy), RemoveChecked(h, 0, policy), Update(1)];
    var s3 := EmptyTorrent(h, stop);
    var s8 := LateUpdate(s3, h, p, policy, a[3..]);
    var s1 := Do(INIT, a[0]);
    var s2 := Do(s1, a[1]);
    RunFrom(s2, a[2..], s8);
    RunFrom(s1, a[1..], s8);
    RunFrom(INIT, a, s8);
    SweepKeepsAnnounce(h, p, policy);
  }

  ghost predicate OneEmptyTorrent(s: State, h: InfoHash) {
    && s.torrents == map[h := 0] && |s.cells| == 1 && s.cells[0].value == EMPTY
    && s.tasks.Keys == {0} && s.doomed == {}
  }

  /** A stopping peer's announce leaves a torrent without peers. */
  lemma {:induction false} EmptyTorrent(h: InfoHash, stop: Peer) returns (s: State)
    requires stop.event == Stopped
    ensures s == Do(Do(Do(INIT, Start(0, h, stop)), GetOrInsert(0)), Update(0))
    ensures OneEmptyTorrent(s, h)
  {
    s := Do(Do(Do(INIT, Start(0, h, stop)), GetOrInsert(0)), Update(0));
    assert EMPTY.peers - {stop.id} == map[];
  }

  /** An announce that has acquired the empty torrent. */
  ghost predicate Acquired(s: State, h: InfoHash) {
    && s.torrents == map[h := 0] && |s.cells| == 1 && s.cells[0].value == EMPTY
    && 1 in s.tasks && s.tasks[1].Holding? && s.tasks[1].ref == 0
  }

  lemma {:induction false} LateUpdate(s: State, h: InfoHash, p: Peer, policy: Policy, a: seq<Action>)
    returns (end: State)
    requires OneEmptyTorrent(s, h) && policy == Policy(1, false, true)
    requires a == [Start(1, h, p), GetOrInsert(1), CheckPeerless(h, policy), RemoveChecked(h, 0, policy), Update(1)]
    ensures Runnable(s, a) && Exec(s, a) == end
    ensures 1 in end.tasks && end.tasks[1].Finished? && Abs(end) == map[]
  {
    var s1 := Do(s, a[0]);
    var s2 := Do(s1, a[1]);
    end := SweepThenUpdate(s2, h, policy, a[2..]);
    RunFrom(s1, a[1..], end);
    RunFrom(s, a, end);
  }

  lemma {:induction false} SweepThenUpdate(s: State, h: InfoHash, policy: Policy, a: seq<Action>)
    returns (end: State)
    requires Acquired(s, h) && policy == Policy(1, false, true)
    requires a == [CheckPeerless(h, policy), RemoveChecked(h, 0, policy), Update(1)]
    ensures Runnable(s, a) && Exec(s, a) == end
    ensures 1 in end.tasks && end.tasks[1].Finished? && Abs(end) == map[]
  {
    var s1 := Do(s, a[0]);
    var s2 := Do(s1, a[1]);
    end := Do(s2, a[2]);
    RunFrom(s2, a[2..], end);
    RunFrom(s1, a[1..], end);
    RunFrom(s, a, end);
  }

  /** A torrent found peerless by a sweep is removed although an announce has repopulated it in between:
      the announce has finished, nothing disturbed it, and the repository is empty; the same operations on
      the single-lock repository keep the peer in either order. */
  lemma {:induction false} SweepTakesFinishedAnnounce(h: InfoHash, stop: Peer, p: Peer)
    requires stop.event == Stopped && p.event == Started
    ensures var policy := Policy(1, false, true);
            var acts := [Start(0, h, stop), GetOrInsert(0), Update(0), CheckPeerless(h, policy),
                         Start(1, h, p), GetOrInsert(1), Update(1), RemoveChecked(h, 0, policy)];
            && Runnable(INIT, acts)
            && 1 in Exec(INIT, acts).tasks && Exec(INIT, acts).tasks[1].Finished? && Abs(Exec(INIT, acts)) == map[]
    ensures BothOrdersKeep(h, p, Policy(1, false, true))
  {
    var policy := Policy(1, false, true);
    var a := [Start(0, h, stop), GetOrInsert(0), Update(0), CheckPeerless(h, policy),
              Start(1, h, p), GetOrInsert(1), Update(1), RemoveChecked(h, 0, policy)];
    var s3 := EmptyTorrent(h, stop);
    var s8 := LateRemoval(s3, h, p, policy, a[3..]);
    var s1 := Do(INIT, a[0]);
    var s2 := Do(s1, a[1]);
    RunFrom(s2, a[2..], s8);
    RunFrom(s1, a[1..], s8);
    RunFrom(INIT, a, s8);
    SweepKeepsAnnounce(h, p, policy);
  }

  lemma {:induction false} LateRemoval(s: State, h: InfoHash, p: Peer, policy: Policy, a: seq<Action>)
    returns (end: State)
    requires OneEmptyTorrent(s, h) && policy == Policy(1, false, true)
    requires a == [CheckPeerless(h, policy), Start(1, h, p), GetOrInsert(1), Update(1), RemoveChecked(h, 0, policy)]
    ensures Runnable(s, a) && Exec(s, a) == end
    ensures 1 in end.tasks && end.tasks[1].Finished? && Abs(end) == map[]
  {
    var s1 := Do(s, a[0]);
    var s2 := Do(s1, a[1]);
    var s3 := Do(s2, a[2]);
    end := UpdateThenSweep(s3, h, policy, a[3..]);
    RunFrom(s2, a[2..], end);
    RunFrom(s1, a[1..], end);
    RunFrom(s, a, end);
  }

  lemma {:induction false} UpdateThenSweep(s: State, h: InfoHash, policy: Policy, a: seq<Action>)
    returns (end: State)
    requires Acquired(s, h) && (h, 0, policy) in s.doomed
    requires a == [Update(1), RemoveChecked(h, 0, policy)]
    ensures Runnable(s, a) && Exec(s, a) == end
    ensures 1 in end.tasks && end.tasks[1].Finished? && Abs(end) == map[]
  {
    var s1 := Do(s, a[0]);
    end := Do(s1, a[1]);
    RunFrom(s1, a[1..], end);
    RunFrom(s, a, end);
  }

  lemma {:induction false} RunFrom(s: State, acts: seq<Action>, end: State)
    requires acts != [] && Enabled(s, acts[0])
    requires Runnable(Do(s, acts[0]), acts[1..]) && Exec(Do(s, acts[0]), acts[1..]) == end
    ensures Runnable(s, acts) && Exec(s, acts) == end
  {
  }

  /** An import that meets an entry an unfinished announce has just put there drops the persisted
      counter, although no announce has taken effect yet. */
  lemma {:induction false} ImportMeetsEmptyEntry(h: InfoHash, p: Peer, completed: nat)
    requires completed > 0
    ensures var acts := [Start(0, h, p), GetOrInsert(0), Import(h, completed)];
            && Runnable(INIT, acts) && History(INIT, {}, acts) == [ImportAt(h, completed)]
            && View(Abs(Exec(INIT, acts)), h).downloaded == 0
            && View(RunSpec(map[], [ImportAt(h, completed)]), h).downloaded == completed
  {
    var a := [Start(0, h, p), GetOrInsert(0), Import(h, completed)];
    var s1 := Do(INIT, a[0]);
    var s2 := Do(s1, a[1]);
    var s3 := Do(s2, a[2]);
    RunFrom(s2, a[2..], s3);
    RunFrom(s1, a[1..], s3);
    RunFrom(INIT, a, s3);
    RunSpecOne(map[], ImportAt(h, completed));
    assert a[1..][1..] == a[2..] && a[2..][1..] == [];
    assert History(s2, {}, a[2..]) == [ImportAt(h, completed)];
    assert History(s1, {}, a[1..]) == [ImportAt(h, completed)];
  }
}

/** Concurrent runs of the repositories of shared entries. One transition system covers both: the
    two-level repository's upsert looks up, then inserts on a miss, then updates the entry; the skip
    map's gets or inserts in one step, then updates. Between two steps of one operation any other
    operation may take any number of steps. An entry reference (`Arc`) is an index into `cells`, so an
    entry outlives its removal from the map as long as a task holds it. */
module Interleaving {
  import opened Swarm
  import opened Repository

  type Ref = nat
  type TaskId = nat

  /** A shared entry, with its history: the info-hash it was created for, how often that info-hash had
      been removed before, its initial counter, and every operation applied to it since, with the
      task that applied it. */
  datatype Cell = Cell(owner: InfoHash, born: nat, initial: nat, log: seq<Op>, authors: seq<TaskId>, value: Torrent)

  /** One call of `upsert_peer`. */
  datatype Task =
    | Wanting(h: InfoHash, p: Peer)
    | Missed(h: InfoHash, p: Peer)
    | Holding(h: InfoHash, p: Peer, ref: Ref, gen: nat)
    | Finished(h: InfoHash, p: Peer, ref: Ref, gen: nat, at: nat)

  datatype State = State(
    torrents: map<InfoHash, Ref>,
    cells: seq<Cell>,
    removals: map<InfoHash, nat>,
    tasks: map<TaskId, Task>,
    doomed: set<(InfoHash, Ref, Policy)>)

  const INIT := State(map[], [], map[], map[], {})

  datatype Action =
    | Start(tid: TaskId, h: InfoHash, p: Peer)
    | Lookup(tid: TaskId)
    | GetOrInsert(tid: TaskId)
    | Update(tid: TaskId)
    | Import(h: InfoHash, completed: nat)
    | Clean(ref: Ref, cutoff: nat)
    | CheckPeerless(h: InfoHash, policy: Policy)
    | RemoveChecked(h: InfoHash, ref: Ref, policy: Policy)
    | Remove(h: InfoHash)

  /** How often an info-hash has been removed so far. */
  function Removals(s: State, h: InfoHash): nat { if h in s.removals then s.removals[h] else 0 }

  // ----- steps -----

  /** `or_insert` / `get_or_insert`: a new entry if there is none. */
  function Created(s: State, h: InfoHash, completed: nat): (s': State)
    ensures h in s'.torrents
  {
    if h in s.torrents then s
    else s.(torrents := s.torrents[h := |s.cells|],
            cells := s.cells + [Cell(h, Removals(s, h), completed, [], [], Torrent(map[], completed))])
  }

  /** An operation on an entry under its own lock. */
  function Applied(c: Cell, op: Op, tid: TaskId): Cell {
    c.(log := c.log + [op], authors := c.authors + [tid], value := Apply(c.value, op))
  }

  function Removed(s: State, h: InfoHash): State {
    if h in s.torrents then s.(torrents := s.torrents - {h}, removals := s.removals[h := Removals(s, h) + 1]) else s
  }

  function Held(s: State, tid: TaskId): State
    requires tid in s.tasks && s.tasks[tid].h in s.torrents
  {
    var t := s.tasks[tid];
    s.(tasks := s.tasks[tid := Holding(t.h, t.p, s.torrents[t.h], Removals(s, t.h))])
  }

  predicate Enabled(s: State, a: Action) {
    match a
    case Start(tid, _, _) => tid !in s.tasks
    case Lookup(tid) => tid in s.tasks && s.tasks[tid].Wanting?
    case GetOrInsert(tid) => tid in s.tasks && (s.tasks[tid].Wanting? || s.tasks[tid].Missed?)
    case Update(tid) => tid in s.tasks && s.tasks[tid].Holding? && s.tasks[tid].ref < |s.cells|
    case Import(_, _) => true
    case Clean(ref, _) => ref < |s.cells|
    case CheckPeerless(h, policy) =>
      h in s.torrents && s.torrents[h] < |s.cells| && !Retained(s.cells[s.torrents[h]].value, policy)
    case RemoveChecked(h, ref, policy) => (h, ref, policy) in s.doomed
    case Remove(_) => true
  }

  function Do(s: State, a: Action): State
    requires Enabled(s, a)
  {
    match a
    case Start(tid, h, p) => s.(tasks := s.tasks[tid := Wanting(h, p)])
    case Lookup(tid) =>
      var t := s.tasks[tid];
      if t.h in s.torrents then Held(s, tid) else s.(tasks := s.tasks[tid := Missed(t.h, t.p)])
    case GetOrInsert(tid) => Held(Created(s, s.tasks[tid].h, 0), tid)
    case Update(tid) =>
      var t := s.tasks[tid];
      var c := s.cells[t.ref];
      s.(cells := s.cells[t.ref := Applied(c, Announce(t.p), tid)],
         tasks := s.tasks[tid := Finished(t.h, t.p, t.ref, t.gen, |c.log|)])
    case Import(h, completed) => Created(s, h, completed)
    case Clean(ref, cutoff) => s.(cells := s.cells[ref := Applied(s.cells[ref], Cleanup(cutoff), 0)])
    case CheckPeerless(h, policy) => s.(doomed := s.doomed + {(h, s.torrents[h], policy)})
    case RemoveChecked(h, ref, policy) =>
      var s' := s.(doomed := s.doomed - {(h, ref, policy)});
      if h in s.torrents && s.torrents[h] == ref then Removed(s', h) else s'
    case Remove(h) => Removed(s, h)
  }

  predicate Runnable(s: State, acts: seq<Action>)
    decreases |acts|
  {
    acts == [] || (Enabled(s, acts[0]) && Runnable(Do(s, acts[0]), acts[1..]))
  }

  function Exec(s: State, acts: seq<Action>): State
    requires Runnable(s, acts)
    decreases |acts|
  {
    if acts == [] then s else Exec(Do(s, acts[0]), acts[1..])
  }

  // ----- the invariant -----

  /** The map holds an entry exactly while its info-hash has not been removed since its creation. */
  ghost predicate MapInv(s: State) {
    && (forall h :: h in s.torrents ==> s.torrents[h] < |s.cells| && s.cells[s.torrents[h]].owner == h)
    && (forall r :: 0 <= r < |s.cells| ==> CellCurrent(s, r))
  }

  ghost predicate CellCurrent(s: State, r: Ref)
    requires r < |s.cells|
  {
    var c := s.cells[r];
    && c.born <= Removals(s, c.owner)
    && (c.born == Removals(s, c.owner) <==> c.owner in s.torrents && s.torrents[c.owner] == r)
  }

  /** An entry's value is what its history makes of its initial value. */
  ghost predicate CellReplays(c: Cell) {
    |c.authors| == |c.log| && c.value == RunOps(Torrent(map[], c.initial), c.log)
  }

  /** Every announce in a history was applied by one finished task. */
  ghost predicate CellAuthored(s: State, r: Ref)
    requires r < |s.cells| && |s.cells[r].authors| == |s.cells[r].log|
  {
    var c := s.cells[r];
    forall i :: 0 <= i < |c.log| && c.log[i].Announce? ==>
      c.authors[i] in s.tasks && s.tasks[c.authors[i]] == Finished(c.owner, c.log[i].peer, r, c.born, i)
  }

  ghost predicate CellInv(s: State) {
    forall r :: 0 <= r < |s.cells| ==> CellReplays(s.cells[r]) && CellAuthored(s, r)
  }

  /** A task that has acquired an entry holds one of its info-hash, of the generation it saw; a finished
      one left its announce in that entry's history. */
  ghost predicate TaskSound(s: State, tid: TaskId, t: Task) {
    match t
    case Holding(h, p, ref, gen) => ref < |s.cells| && s.cells[ref].owner == h && s.cells[ref].born == gen
    case Finished(h, p, ref, gen, at) =>
      && ref < |s.cells| && s.cells[ref].owner == h && s.cells[ref].born == gen
      && at < |s.cells[ref].log| && s.cells[ref].log[at] == Announce(p)
      && |s.cells[ref].authors| == |s.cells[ref].log| && s.cells[ref].authors[at] == tid
    case _ => true
  }

  ghost predicate TaskInv(s: State) { forall tid :: tid in s.tasks ==> TaskSound(s, tid, s.tasks[tid]) }

  /** A sweep that found a torrent to remove removes peerless torrents. */
  ghost predicate SweepInv(s: State) { forall d :: d in s.doomed ==> d.2.removePeerless }

  ghost predicate Inv(s: State) { MapInv(s) && CellInv(s) && TaskInv(s) && SweepInv(s) }

  lemma {:induction false} CreatedInv(s: State, h: InfoHash, completed: nat)
    requires Inv(s)
    ensures Inv(Created(s, h, completed))
  {
    CreatedMap(s, h, completed);
    CreatedRest(s, h, completed);
  }

  lemma {:induction false} CreatedMap(s: State, h: InfoHash, completed: nat)
    requires MapInv(s)
    ensures MapInv(Created(s, h, completed))
  {
    var s' := Created(s, h, completed);
    forall r | 0 <= r < |s'.cells|
      ensures CellCurrent(s', r)
    {
      if r < |s.cells| {
        assert CellCurrent(s, r);
      }
    }
  }

  lemma {:induction false} CreatedRest(s: State, h: InfoHash, completed: nat)
    requires CellInv(s) && TaskInv(s)
    ensures CellInv(Created(s, h, completed)) && TaskInv(Created(s, h, completed))
  {
    var s' := Created(s, h, completed);
    forall r | 0 <= r < |s'.cells|
      ensures CellReplays(s'.cells[r]) && CellAuthored(s', r)
    {
      if r < |s.cells| {
        assert CellReplays(s.cells[r]) && CellAuthored(s, r);
      }
    }
    forall tid | tid in s'.tasks
      ensures TaskSound(s', tid, s'.tasks[tid])
    {
      assert TaskSound(s, tid, s.tasks[tid]);
    }
  }

  lemma {:induction false} RemovedInv(s: State, h: InfoHash)
    requires Inv(s)
    ensures Inv(Removed(s, h))
  {
    var s' := Removed(s, h);
    assert MapInv(s') by {
      forall r | 0 <= r < |s'.cells|
        ensures CellCurrent(s', r)
      {
        assert CellCurrent(s, r);
      }
    }
    TasksAndCellsKept(s, s');
  }

  /** Neither histories nor tasks depend on the map. */
  lemma {:induction false} TasksAndCellsKept(s: State, s': State)
    requires CellInv(s) && TaskInv(s) && s'.cells == s.cells && s'.tasks == s.tasks
    ensures CellInv(s') && TaskInv(s')
  {
    forall r | 0 <= r < |s'.cells|
      ensures CellReplays(s'.cells[r]) && CellAuthored(s', r)
    {
      assert CellReplays(s.cells[r]) && CellAuthored(s, r);
    }
    forall tid | tid in s'.tasks
      ensures TaskSound(s', tid, s'.tasks[tid])
    {
      assert TaskSound(s, tid, s.tasks[tid]);
    }
  }

  /** A task that is not finished may change without touching any history. */
  lemma {:induction false} TaskMoves(s: State, tid: TaskId, t: Task)
    requires Inv(s) && (tid in s.tasks ==> !s.tasks[tid].Finished?)
    requires !t.Finished? && TaskSound(s, tid, t)
    ensures Inv(s.(tasks := s.tasks[tid := t]))
  {
    var s' := s.(tasks := s.tasks[tid := t]);
    assert MapInv(s') by {
      forall r | 0 <= r < |s'.cells|
        ensures CellCurrent(s', r)
      {
        assert CellCurrent(s, r);
      }
    }
    assert CellInv(s') by {
      forall r | 0 <= r < |s'.cells|
        ensures CellReplays(s'.cells[r]) && CellAuthored(s', r)
      {
        assert CellReplays(s.cells[r]) && CellAuthored(s, r);
      }
    }
    assert TaskInv(s') by {
      forall x | x in s'.tasks
        ensures TaskSound(s', x, s'.tasks[x])
      {
        if x != tid {
          assert TaskSound(s, x, s.tasks[x]);
        }
      }
    }
  }

  lemma {:induction false} HeldInv(s: State, tid: TaskId)
    requires Inv(s) && tid in s.tasks && !s.tasks[tid].Finished? && s.tasks[tid].h in s.torrents
    ensures Inv(Held(s, tid))
  {
    var t := s.tasks[tid];
    assert CellCurrent(s, s.torrents[t.h]);
    TaskMoves(s, tid, Holding(t.h, t.p, s.torrents[t.h], Removals(s, t.h)));
  }

  lemma {:induction false} RunOpsAppend(t: Torrent, ops: seq<Op>, op: Op)
    ensures RunOps(t, ops + [op]) == Apply(RunOps(t, ops), op)
    decreases |ops|
  {
    if ops == [] {
      assert ops + [op] == [op];
    } else {
      assert (ops + [op])[1..] == ops[1..] + [op];
      RunOpsAppend(Apply(t, ops[0]), ops[1..], op);
    }
  }

  /** An operation on an entry: the entry's history grows by it; the map and the other entries stay. */
  lemma {:induction false} AppliedCells(s: State, s': State, ref: Ref, op: Op, tid: TaskId)
    requires Inv(s) && ref < |s.cells|
    requires s'.cells == s.cells[ref := Applied(s.cells[ref], op, tid)]
    requires s'.torrents == s.torrents && s'.removals == s.removals
    ensures MapInv(s') && forall r :: 0 <= r < |s'.cells| ==> CellReplays(s'.cells[r])
  {
    forall r | 0 <= r < |s'.cells|
      ensures CellCurrent(s', r) && CellReplays(s'.cells[r])
    {
      assert CellCurrent(s, r) && CellReplays(s.cells[r]);
      if r == ref {
        RunOpsAppend(Torrent(map[], s.cells[r].initial), s.cells[r].log, op);
      }
    }
  }

  lemma {:induction false} CleanInv(s: State, ref: Ref, cutoff: nat)
    requires Inv(s) && ref < |s.cells|
    ensures Inv(Do(s, Clean(ref, cutoff)))
  {
    var s' := Do(s, Clean(ref, cutoff));
    AppliedCells(s, s', ref, Cleanup(cutoff), 0);
    forall r | 0 <= r < |s'.cells|
      ensures CellAuthored(s', r)
    {
      assert CellReplays(s.cells[r]) && CellAuthored(s, r);
    }
    forall tid | tid in s'.tasks
      ensures TaskSound(s', tid, s'.tasks[tid])
    {
      assert TaskSound(s, tid, s.tasks[tid]);
    }
  }

  lemma {:induction false} UpdateAuthors(s: State, tid: TaskId)
    requires Inv(s) && Enabled(s, Update(tid))
    ensures var s' := Do(s, Update(tid));
            forall r :: 0 <= r < |s'.cells| ==> |s'.cells[r].authors| == |s'.cells[r].log| && CellAuthored(s', r)
  {
    var s' := Do(s, Update(tid));
    var t := s.tasks[tid];
    assert TaskSound(s, tid, t);
    forall r | 0 <= r < |s'.cells|
      ensures |s'.cells[r].authors| == |s'.cells[r].log| && CellAuthored(s', r)
    {
      assert CellReplays(s.cells[r]) && CellAuthored(s, r);
    }
  }

  lemma {:induction false} UpdateTasks(s: State, tid: TaskId)
    requires Inv(s) && Enabled(s, Update(tid))
    ensures TaskInv(Do(s, Update(tid)))
  {
    var s' := Do(s, Update(tid));
    assert CellReplays(s.cells[s.tasks[tid].ref]);
    forall x | x in s'.tasks
      ensures TaskSound(s', x, s'.tasks[x])
    {
      assert TaskSound(s, x, s.tasks[x]);
    }
  }

  lemma {:induction false} UpdateInv(s: State, tid: TaskId)
    requires Inv(s) && Enabled(s, Update(tid))
    ensures Inv(Do(s, Update(tid)))
  {
    var t := s.tasks[tid];
    AppliedCells(s, Do(s, Update(tid)), t.ref, Announce(t.p), tid);
    UpdateAuthors(s, tid);
    UpdateTasks(s, tid);
  }

  lemma {:induction false} StepInv(s: State, a: Action)
    requires Inv(s) && Enabled(s, a)
    ensures Inv(Do(s, a))
  {
    match a
    case Start(tid, h, p) => TaskMoves(s, tid, Wanting(h, p));
    case Lookup(tid) =>
      if s.tasks[tid].h in s.torrents {
        HeldInv(s, tid);
      } else {
        TaskMoves(s, tid, Missed(s.tasks[tid].h, s.tasks[tid].p));
      }
    case GetOrInsert(tid) =>
      CreatedInv(s, s.tasks[tid].h, 0);
      HeldInv(Created(s, s.tasks[tid].h, 0), tid);
    case Update(tid) => UpdateInv(s, tid);
    case Import(h, completed) => CreatedInv(s, h, completed);
    case Clean(ref, cutoff) => CleanInv(s, ref, cutoff);
    case CheckPeerless(h, _) => DoomedInv(s, Do(s, a));
    case RemoveChecked(h, ref, policy) =>
      var s' := s.(doomed := s.doomed - {(h, ref, policy)});
      DoomedInv(s, s');
      RemovedInv(s', h);
    case Remove(h) => RemovedInv(s, h);
  }

  lemma {:induction false} DoomedInv(s: State, s': State)
    requires Inv(s) && s' == s.(doomed := s'.doomed) && SweepInv(s')
    ensures Inv(s')
  {
    TasksAndCellsKept(s, s');
    forall r | 0 <= r < |s'.cells|
      ensures CellCurrent(s', r)
    {
      assert CellCurrent(s, r);
    }
  }

  /** The invariant holds in every state of every interleaving. */
  lemma {:induction false} RunInv(s: State, acts: seq<Action>)
    requires Inv(s) && Runnable(s, acts)
    ensures Inv(Exec(s, acts))
    decreases |acts|
  {
    if acts != [] {
      StepInv(s, acts[0]);
      RunInv(Do(s, acts[0]), acts[1..]);
    }
  }
}

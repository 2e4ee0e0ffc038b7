/**
 Runs of the lock table: transactions begin, ask for locks, use records they have been granted, and commit by
 releasing their locks one at a time, in any interleaving. Every reachable state is safe, and every run is
 conflict-serializable.
 */
module LockRuns {
  import opened Sequences
  import opened LockHistory
  import opened LockState

  datatype Op<L> =
    | Begin
    | Acquire(trx: int, rec: Rec, exclusive: bool, decision: Decision<L>, lock: L)
    | Use(trx: int, rec: Rec, write: bool, lock: L)
    | ReleaseLock(lock: L)
    | End(trx: int)

  function Begun<L>(s: State<L>): State<L> {
    s.(last := s.last + 1, owned := s.owned[s.last + 1 := []])
  }

  function Ended<L>(s: State<L>, t: int): State<L> {
    s.(owned := s.owned - {t}, committing := s.committing - {t})
  }

  /**
   One step. A transaction asks only while it waits for nothing and has not begun to commit; it uses a record
   only under a granted lock; it releases its oldest lock first.
   */
  ghost predicate Step<L>(s: State<L>, h: seq<Event>, op: Op<L>, s': State<L>, h': seq<Event>) {
    match op
    case Begin => s' == Begun(s) && h' == h
    case Acquire(t, r, x, d, l) =>
      && Inv(s, h) && MayAsk(s, t) && (d.Enqueue? ==> l !in s.info)
      && Known(s, Queue(s, r)) && Decides(s, Queue(s, r), t, x, d)
      && (d.Upgrade? ==> d.lock in s.info)
      && (s', h') == Decided(s, h, t, r, x, d, l)
    case Use(t, r, w, l) =>
      && Running(s, t) && Grants(s, l, t, r) && (w ==> s.info[l].exclusive)
      && s' == s && h' == h + [Access(t, r, w)]
    case ReleaseLock(l) => Inv(s, h) && Releasable(s, l) && (s', h') == ReleaseState(s, h, l)
    case End(t) => t in s.owned && s.owned[t] == [] && s' == Ended(s, t) && h' == h
  }

  /** What is said of the queues depends on the queues and the locks alone. */
  lemma QueueStays<L>(s: State<L>, s': State<L>, r: Rec)
    requires s'.queue == s.queue && s'.info == s.info && r in s.queue
    requires QueueOk(s, r) && HeadGranted(s, r)
    ensures QueueOk(s', r) && HeadGranted(s', r)
  {}

  lemma BeginCore<L>(s: State<L>)
    requires Core(s) && NoLostWakeup(s)
    ensures Core(Begun(s)) && NoLostWakeup(Begun(s)) && s.last + 1 !in s.owned
  {
    hide QueueOk, HeadGranted, PairOk;
    var s' := Begun(s);
    assert s.last + 1 !in s.owned by { assert s.last + 1 in s.owned ==> OwnerOk(s, s.last + 1); }
    forall r | r in s'.queue ensures QueueOk(s', r) && HeadGranted(s', r) { QueueStays(s, s', r); }
    forall l | l in s'.info ensures LockOk(s', l) { assert LockOk(s, l); }
    forall t | t in s'.owned ensures OwnerOk(s', t) { assert t in s.owned ==> OwnerOk(s, t); }
  }

  lemma BeginStep<L>(s: State<L>, h: seq<Event>)
    requires Full(s, h)
    ensures Full(Begun(s), h)
  {
    hide Core, NoLostWakeup, Tracks, Legal;
    BeginCore(s);
    SameTracks(s, Begun(s), h);
  }

  /** The history is tracked by the granted locks alone. */
  lemma SameTracks<L>(s: State<L>, s': State<L>, h: seq<Event>)
    requires Tracks(s, h) && s'.info == s.info
    ensures Tracks(s', h)
  {
    forall t, r | !Held(h, t, r).Free?
      ensures exists l {:trigger Grants(s', l, t, r)} :: l in s'.info && Grants(s', l, t, r) {
      var l :| l in s.info && Grants(s, l, t, r);
      assert Grants(s', l, t, r);
    }
  }

  lemma EndCore<L>(s: State<L>, t: int)
    requires Core(s) && NoLostWakeup(s) && t in s.owned && s.owned[t] == []
    ensures Core(Ended(s, t)) && NoLostWakeup(Ended(s, t))
  {
    hide QueueOk, HeadGranted, PairOk;
    var s' := Ended(s, t);
    forall r | r in s'.queue ensures QueueOk(s', r) && HeadGranted(s', r) { QueueStays(s, s', r); }
    forall l | l in s'.info ensures LockOk(s', l) { assert LockOk(s, l); }
    forall u | u in s'.owned ensures OwnerOk(s', u) { assert OwnerOk(s, u); }
  }

  lemma EndStep<L>(s: State<L>, h: seq<Event>, t: int)
    requires Full(s, h) && t in s.owned && s.owned[t] == []
    ensures Full(Ended(s, t), h)
  {
    hide Core, NoLostWakeup, Tracks, Legal;
    EndCore(s, t);
    SameTracks(s, Ended(s, t), h);
  }

  lemma UseStep<L>(s: State<L>, h: seq<Event>, t: int, r: Rec, w: bool, l: L)
    requires Full(s, h) && Running(s, t) && Grants(s, l, t, r) && (w ==> s.info[l].exclusive)
    ensures Full(s, h + [Access(t, r, w)])
  {
    var g := h + [Access(t, r, w)];
    assert g[..|h|] == h && g[..|g| - 1] == h && g[|g| - 1] == Access(t, r, w);
    assert forall u, x :: Held(g, u, x) == Held(h, u, x);
    LegalExtend(h, Access(t, r, w));
    assert OwnerOk(s, t);
  }

  /** Every step keeps the whole invariant. */
  lemma StepKeepsFull<L>(s: State<L>, h: seq<Event>, op: Op<L>, s': State<L>, h': seq<Event>)
    requires Full(s, h) && Step(s, h, op, s', h')
    ensures Full(s', h')
  {
    match op
    case Begin => BeginStep(s, h);
    case Acquire(t, r, x, d, l) => AcquireStep(s, h, t, r, x, d, l);
    case Use(t, r, w, l) => UseStep(s, h, t, r, w, l);
    case ReleaseLock(l) => ReleaseStep(s, h, l);
    case End(t) => EndStep(s, h, t);
  }

  // ----- Runs -----

  ghost predicate Run<L>(ss: seq<State<L>>, hs: seq<seq<Event>>, ops: seq<Op<L>>) {
    && |ss| == |hs| == |ops| + 1
    && ss[0] == State(map[], map[], map[], {}, 0) && hs[0] == []
    && forall i :: 0 <= i < |ops| ==> Step(ss[i], hs[i], ops[i], ss[i + 1], hs[i + 1])
  }

  lemma {:induction false} RunIsFull<L>(ss: seq<State<L>>, hs: seq<seq<Event>>, ops: seq<Op<L>>, i: nat)
    requires Run(ss, hs, ops) && i < |ss|
    ensures Full(ss[i], hs[i])
  {
    if i > 0 {
      RunIsFull(ss, hs, ops, i - 1);
      StepKeepsFull(ss[i - 1], hs[i - 1], ops[i - 1], ss[i], hs[i]);
    }
  }

  /** Safety of every reachable state. */
  lemma ReachableIsSafe<L>(ss: seq<State<L>>, hs: seq<seq<Event>>, ops: seq<Op<L>>, i: nat, r: Rec)
    requires Run(ss, hs, ops) && i < |ss| && r in ss[i].queue
    ensures var s := ss[i]; var q := s.queue[r];
      && q != [] && Known(s, q)
      && s.info[q[0]].granted
      && (forall j, k :: 0 <= j < k < |q| && s.info[q[k]].granted ==>
            && s.info[q[j]].granted
            && s.info[q[j]].trx != s.info[q[k]].trx
            && !s.info[q[j]].exclusive && !s.info[q[k]].exclusive)
  {
    RunIsFull(ss, hs, ops, i);
    var s := ss[i];
    var q := s.queue[r];
    assert QueueOk(s, r) && HeadGranted(s, r);
    forall j, k | 0 <= j < k < |q| && s.info[q[k]].granted
      ensures s.info[q[j]].granted && s.info[q[j]].trx != s.info[q[k]].trx
      ensures !s.info[q[j]].exclusive && !s.info[q[k]].exclusive
    {
      assert PairOk(s.info[q[j]], s.info[q[k]]);
    }
  }

  /** Every run is conflict-serializable: conflicting accesses never form a cycle of transactions. */
  lemma RunsAreSerializable<L>(ss: seq<State<L>>, hs: seq<seq<Event>>, ops: seq<Op<L>>, ts: seq<int>)
    requires Run(ss, hs, ops) && Path(hs[|ops|], ts)
    ensures ts[0] != ts[|ts| - 1]
  {
    RunIsFull(ss, hs, ops, |ops|);
    Serializable(hs[|ops|], ts);
  }

  /** In every run, of two transactions with conflicting accesses the first one reaches its last grant first. */
  lemma RunsFollowLockPoints<L>(ss: seq<State<L>>, hs: seq<seq<Event>>, ops: seq<Op<L>>, t: int, u: int)
    requires Run(ss, hs, ops) && Precedes(hs[|ops|], t, u)
    ensures LockPoint(hs[|ops|], t) < LockPoint(hs[|ops|], u)
  {
    RunIsFull(ss, hs, ops, |ops|);
    PrecedesByLockPoint(hs[|ops|], t, u);
  }

  // ----- An upgrade that has to wait waits forever -----

  /** t's lock b waits behind t's own lock a on the same record. */
  ghost predicate Stuck<L>(s: State<L>, t: int, a: L, b: L) {
    && a in s.info && b in s.info && s.info[a].trx == t && s.info[b].trx == t
    && s.info[a].rec == s.info[b].rec && s.info[b].rec in s.queue
    && !s.info[b].granted
    && Ahead(s.queue[s.info[b].rec], a, b)
  }

  ghost predicate Ahead<L>(q: seq<L>, a: L, b: L) {
    exists i, j :: 0 <= i < j < |q| && q[i] == a && q[j] == b
  }

  lemma StuckIsNotRunning<L>(s: State<L>, h: seq<Event>, t: int, a: L, b: L)
    requires Full(s, h) && Stuck(s, t, a, b)
    ensures !Running(s, t) && s.info[b].exclusive && t in s.owned
  {
    assert LockOk(s, b) && QueueOk(s, s.info[b].rec);
    var q := s.queue[s.info[b].rec];
    var i, j :| 0 <= i < j < |q| && q[i] == a && q[j] == b;
    assert PairOk(s.info[q[i]], s.info[q[j]]);
  }

  lemma {:induction false} WakeSharedSkips<L>(s: State<L>, h: seq<Event>, q: seq<L>, i: nat, b: L)
    requires (forall j :: 0 <= j < |q| ==> q[j] in s.info) && b in s.info && s.info[b].exclusive && !s.info[b].granted
    ensures var w := WakeShared(s, h, q, i); b in w.0.info && w.0.info[b] == s.info[b]
    decreases |q| - i
  {
    if i < |q| && !s.info[q[i]].exclusive {
      WakeSharedSkips(GrantLock(s, q[i]), GrantEvent(s, h, q[i]), q, i + 1, b);
    }
  }

  lemma RemoveKeepsStuck<L>(s: State<L>, h: seq<Event>, l: L, t: int, a: L, b: L)
    requires Full(s, h) && Stuck(s, t, a, b) && Releasable(s, l)
    ensures Stuck(RemoveLock(s, l), t, a, b) && RemoveLock(s, l).info[b].exclusive
  {
    hide Tracks, Legal, TwoPhase, NoLostWakeup, LockOk, OwnerOk, PairOk, Held;
    StuckIsNotRunning(s, h, t, a, b);
    var r := s.info[b].rec;
    var q := s.queue[r];
    var i, j :| 0 <= i < j < |q| && q[i] == a && q[j] == b;
    assert QueueOk(s, r) && l != a && l != b;
    if s.info[l].rec == r {
      var k := IndexOf(q, l);
      var p := Without(q, k);
      assert p[if i < k then i else i - 1] == a && p[if j < k then j else j - 1] == b;
    }
  }

  lemma WakeKeepsStuck<L>(s: State<L>, h: seq<Event>, r: Rec, t: int, a: L, b: L)
    requires Inv(s, h) && Stuck(s, t, a, b) && s.info[b].exclusive && r in s.queue
    requires s.queue[r] != [] && forall j :: 0 <= j < |s.queue[r]| ==> s.queue[r][j] in s.info
    ensures Stuck(Wake(s, h, r).0, t, a, b)
  {
    WakeStep(s, h, r);
    var p := s.queue[r];
    assert QueueOk(s, r);
    if !s.info[p[0]].acquired && !s.info[p[0]].exclusive {
      WakeSharedSkips(GrantLock(s, p[0]), GrantEvent(s, h, p[0]), p, 1, b);
    }
  }

  lemma ReleaseKeepsStuck<L>(s: State<L>, h: seq<Event>, l: L, t: int, a: L, b: L)
    requires Full(s, h) && Stuck(s, t, a, b) && Releasable(s, l)
    ensures Stuck(ReleaseState(s, h, l).0, t, a, b)
  {
    hide Stuck, Core, Tracks, TwoPhase, Legal, LegalAt, Wake, RemoveLock, NoLostWakeup, Held, SameButGranted;
    RemoveKeepsStuck(s, h, l, t, a, b);
    RemoveStep(s, h, l);
    var r := s.info[l].rec;
    var s1, h1 := RemoveLock(s, l), h + [Release(s.info[l].trx, r)];
    if r in s1.queue && IndexOf(s.queue[r], l) == 0 {
      WakeStep(s1, h1, r);
      WakeKeepsStuck(s1, h1, r, t, a, b);
    }
  }

  lemma StepKeepsStuck<L>(s: State<L>, h: seq<Event>, op: Op<L>, s': State<L>, h': seq<Event>, t: int, a: L, b: L)
    requires Full(s, h) && Step(s, h, op, s', h') && Stuck(s, t, a, b)
    ensures Stuck(s', t, a, b)
  {
    StuckIsNotRunning(s, h, t, a, b);
    match op
    case Begin =>
    case Acquire(u, r, x, d, l) =>
      var q := s.queue[s.info[b].rec];
      var i, j :| 0 <= i < j < |q| && q[i] == a && q[j] == b;
      if d.Upgrade? { UpgradeAlone(s, u, r, d.lock); assert LockOk(s, a) && LockOk(s, b); }
      assert s'.queue[s.info[b].rec][i] == a && s'.queue[s.info[b].rec][j] == b;
    case Use(_, _, _, _) =>
    case ReleaseLock(l) => ReleaseKeepsStuck(s, h, l, t, a, b);
    case End(_) =>
  }

  /** Once a transaction waits behind its own lock, it does so in every later state of the run. */
  lemma {:induction false} StuckForever<L>(
    ss: seq<State<L>>, hs: seq<seq<Event>>, ops: seq<Op<L>>, i: nat, k: nat, t: int, a: L, b: L)
    requires Run(ss, hs, ops) && i <= k < |ss| && Stuck(ss[i], t, a, b)
    ensures Stuck(ss[k], t, a, b)
  {
    if i < k {
      StuckForever(ss, hs, ops, i, k - 1, t, a, b);
      RunIsFull(ss, hs, ops, k - 1);
      StepKeepsStuck(ss[k - 1], hs[k - 1], ops[k - 1], ss[k], hs[k], t, a, b);
    }
  }

  /** A running transaction has no two locks on one record. */
  lemma OneGrant<L>(s: State<L>, t: int, r: Rec, a: L, b: L)
    requires Core(s) && Running(s, t) && r in s.queue && a in s.queue[r] && b in s.queue[r] && a in s.info
      && b in s.info
    requires s.info[a].trx == t && s.info[b].trx == t
    ensures a == b
  {
    assert QueueOk(s, r) && LockOk(s, a) && LockOk(s, b);
    if a != b { GrantedDiffer(s, a, b); }
  }

  /** An upgrade has to wait if and only if another transaction has a lock on the record; it is then stuck. */
  lemma UpgradeWaitsIffShared<L>(s: State<L>, h: seq<Event>, t: int, r: Rec, a: L, l: L, d: Decision<L>)
    requires Full(s, h) && MayAsk(s, t) && l !in s.info && a in s.info
    requires s.info[a] == Info(r, t, false, s.info[a].acquired, true)
    requires Known(s, Queue(s, r)) && Decides(s, Queue(s, r), t, true, d)
    ensures Others(s, Queue(s, r), t, false) <==> d == Enqueue(false)
    ensures d == Enqueue(false) ==> Stuck(Decided(s, h, t, r, true, d, l).0, t, a, l)
  {
    assert LockOk(s, a) && QueueOk(s, r);
    var q := Queue(s, r);
    var i := IndexOf(q, a);
    if d.Existing? { OneGrant(s, t, r, a, d.lock); }
    if d == Enqueue(false) {
      var s' := Decided(s, h, t, r, true, d, l).0;
      assert s'.queue[r][i] == a && s'.queue[r][|q|] == l;
    }
  }
}

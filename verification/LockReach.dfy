/**
 More about runs: how they are put together, that a commit is a run of releases, what no later step can change, and
 what the flag is_acquired of a lock remembers.
 */
module LockReach {
  import opened Sequences
  import opened LockHistory
  import opened LockState
  import opened LockRuns
  import opened LockCommit
  import opened LockAnswers

  // ----- Building runs -----

  lemma RunStart<L>()
    ensures Run<L>([State(map[], map[], map[], {}, 0)], [[]], [])
  {}

  lemma RunExtends<L>(ss: seq<State<L>>, hs: seq<seq<Event>>, ops: seq<Op<L>>, op: Op<L>, s': State<L>, h': seq<Event>)
    requires Run(ss, hs, ops) && Step(ss[|ops|], hs[|ops|], op, s', h')
    ensures Run(ss + [s'], hs + [h'], ops + [op])
  {
    hide Step;
    var ss', hs', ops' := ss + [s'], hs + [h'], ops + [op];
    forall i | 0 <= i < |ops'| ensures Step(ss'[i], hs'[i], ops'[i], ss'[i + 1], hs'[i + 1]) {
      if i < |ops| { assert Step(ss[i], hs[i], ops[i], ss[i + 1], hs[i + 1]); }
    }
  }

  lemma StepAt<L>(ss: seq<State<L>>, hs: seq<seq<Event>>, ops: seq<Op<L>>, i: nat)
    requires Run(ss, hs, ops) && i < |ops|
    ensures |ss| == |hs| == |ops| + 1 && Step(ss[i], hs[i], ops[i], ss[i + 1], hs[i + 1])
    ensures Full(ss[i], hs[i]) && Full(ss[i + 1], hs[i + 1])
  {
    RunIsFull(ss, hs, ops, i);
    RunIsFull(ss, hs, ops, i + 1);
  }

  /** The steps of a commit: the locks are released in the order in which they were granted, then the owner ends. */
  function CommitOps<L>(o: seq<L>, t: int): seq<Op<L>> {
    seq(|o|, i requires 0 <= i < |o| => Op.ReleaseLock(o[i])) + [Op.End(t)]
  }

  lemma NoOps<L>(o: seq<L>, t: int)
    ensures o == [] ==> CommitOps(o, t) == [Op.End(t)]
  {}

  lemma RunningKnown<L>(s: State<L>, t: int)
    requires Running(s, t)
    ensures t in s.owned
  {}

  lemma RunParts<L>(ss: seq<State<L>>, hs: seq<seq<Event>>, ops: seq<Op<L>>)
    requires Run(ss, hs, ops)
    ensures |ss| == |hs| == |ops| + 1 && Full(ss[|ops|], hs[|ops|])
  {
    RunIsFull(ss, hs, ops, |ops|);
  }

  lemma CommitOpsNext<L>(o: seq<L>, t: int)
    requires o != []
    ensures CommitOps(o, t) == [Op.ReleaseLock(o[0])] + CommitOps(o[1..], t)
  {}

  /** A commit is a run of releases with the end of the transaction behind them. */
  lemma {:induction false} CommitIsRun<L>(ss: seq<State<L>>, hs: seq<seq<Event>>, ops: seq<Op<L>>, t: int)
    returns (ss': seq<State<L>>, hs': seq<seq<Event>>, ops': seq<Op<L>>)
    requires Run(ss, hs, ops) && Running(ss[|ops|], t)
    ensures Full(ss[|ops|], hs[|ops|])
    ensures Run(ss', hs', ops') && ss <= ss' && hs <= hs' && ops' == ops + CommitOps(ss[|ops|].owned[t], t)
    ensures (ss'[|ops'|], hs'[|ops'|]) == Committed(ss[|ops|], hs[|ops|], t)
    decreases |ss[|ops|].owned[t]|
  {
    hide *;
    RunParts(ss, hs, ops);
    var s, h := ss[|ops|], hs[|ops|];
    RunningKnown(s, t);
    NoOps(s.owned[t], t);
    if s.owned[t] == [] {
      EndIsStep(s, h, t);
      RunExtends(ss, hs, ops, Op.End(t), Ended(s, t), h);
      ss', hs', ops' := ss + [Ended(s, t)], hs + [h], ops + [Op.End(t)];
    } else {
      var l := s.owned[t][0];
      ReleaseIsStep(s, h, t);
      var z := ReleaseState(s, h, l);
      RunExtends(ss, hs, ops, Op.ReleaseLock(l), z.0, z.1);
      CommitOpsNext(s.owned[t], t);
      ss', hs', ops' := CommitIsRun(ss + [z.0], hs + [z.1], ops + [Op.ReleaseLock(l)], t);
    }
  }

  lemma EndIsStep<L>(s: State<L>, h: seq<Event>, t: int)
    requires Full(s, h) && Running(s, t) && s.owned[t] == []
    ensures Step(s, h, Op.End(t), Ended(s, t), h) && Committed(s, h, t) == (Ended(s, t), h)
  {}

  lemma ReleaseIsStep<L>(s: State<L>, h: seq<Event>, t: int)
    requires Full(s, h) && Running(s, t) && s.owned[t] != []
    ensures Releasable(s, s.owned[t][0]) && Inv(s, h)
    ensures var z := ReleaseState(s, h, s.owned[t][0]);
      && Step(s, h, Op.ReleaseLock(s.owned[t][0]), z.0, z.1) && Full(z.0, z.1) && Running(z.0, t)
      && z.0.owned[t] == s.owned[t][1..] && Committed(s, h, t) == Committed(z.0, z.1, t)
  {
    hide Tracks, Legal, TwoPhase, NoLostWakeup, ReleaseState, Core;
    ReleaseNext(s, h, t);
  }

  // ----- What later steps keep -----

  /** An ended transaction: its identifier has been given out and is no longer known. */
  ghost predicate Gone<L>(s: State<L>, t: int) {
    t <= s.last && t !in s.owned
  }

  lemma GoneHasNone<L>(s: State<L>, h: seq<Event>, t: int, l: L)
    requires Full(s, h) && Gone(s, t) && l in s.info
    ensures s.info[l].trx != t
  {
    assert LockOk(s, l);
  }

  lemma StepKeepsGone<L>(s: State<L>, h: seq<Event>, op: Op<L>, s': State<L>, h': seq<Event>, t: int)
    requires Full(s, h) && Step(s, h, op, s', h') && Gone(s, t)
    ensures Gone(s', t)
  {
    hide Tracks, Legal, TwoPhase, NoLostWakeup, Core, Wake;
    match op
    case Begin =>
    case Acquire(_, _, _, _, _) =>
    case Use(_, _, _, _) =>
    case ReleaseLock(l) => ReleaseStep(s, h, l);
    case End(_) =>
  }

  /** From the end of its commit on, in every interleaving, no queue has a lock of the transaction. */
  lemma {:induction false} EndedForGood<L>(
    ss: seq<State<L>>, hs: seq<seq<Event>>, ops: seq<Op<L>>, i: nat, k: nat, t: int, l: L)
    requires Run(ss, hs, ops) && i < k < |ss| && ops[i] == Op.End(t)
    ensures Gone(ss[k], t) && (l in ss[k].info ==> ss[k].info[l].trx != t)
    decreases k
  {
    StepAt(ss, hs, ops, k - 1);
    if i + 1 < k {
      EndedForGood(ss, hs, ops, i, k - 1, t, l);
      StepKeepsGone(ss[k - 1], hs[k - 1], ops[k - 1], ss[k], hs[k], t);
    } else {
      assert OwnerOk(ss[i], t);
    }
    if l in ss[k].info { GoneHasNone(ss[k], hs[k], t, l); }
  }

  /** While two locks stay in their queue, the one that is ahead stays ahead. */
  lemma StepKeepsOrder<L>(s: State<L>, h: seq<Event>, op: Op<L>, s': State<L>, h': seq<Event>, r: Rec, a: L, b: L)
    requires Full(s, h) && Step(s, h, op, s', h') && r in s.queue && Ahead(s.queue[r], a, b)
    requires r in s'.queue && a in s'.queue[r] && b in s'.queue[r]
    ensures Ahead(s'.queue[r], a, b)
  {
    hide Tracks, Legal, TwoPhase, NoLostWakeup, LockOk, OwnerOk, PairOk, Wake, Inv, Full, Core;
    var q := s.queue[r];
    var i, j :| 0 <= i < j < |q| && q[i] == a && q[j] == b;
    match op
    case Begin =>
    case Acquire(_, _, _, _, _) => assert s'.queue[r][i] == a && s'.queue[r][j] == b;
    case Use(_, _, _, _) =>
    case ReleaseLock(l) =>
      ReleaseStep(s, h, l);
      if s.info[l].rec == r {
        var k := IndexOf(q, l);
        RemovedIsGone(s, h, l, r);
        var p := Without(q, k);
        assert p[if i < k then i else i - 1] == a && p[if j < k then j else j - 1] == b;
      }
    case End(_) =>
  }

  lemma RemovedIsGone<L>(s: State<L>, h: seq<Event>, l: L, r: Rec)
    requires Full(s, h) && Releasable(s, l) && r == s.info[l].rec
    ensures r in RemoveLock(s, l).queue ==> l !in RemoveLock(s, l).queue[r]
  {
    assert QueueOk(s, r);
  }

  lemma {:induction false} RunKeepsOrder<L>(
    ss: seq<State<L>>, hs: seq<seq<Event>>, ops: seq<Op<L>>, i: nat, k: nat, r: Rec, a: L, b: L)
    requires Run(ss, hs, ops) && i <= k < |ss| && r in ss[i].queue && Ahead(ss[i].queue[r], a, b)
    requires forall j :: i <= j <= k ==> r in ss[j].queue && a in ss[j].queue[r] && b in ss[j].queue[r]
    ensures Ahead(ss[k].queue[r], a, b)
    decreases k
  {
    hide *;
    RunParts(ss, hs, ops);
    if i < k {
      StepAt(ss, hs, ops, k - 1);
      RunKeepsOrder(ss, hs, ops, i, k - 1, r, a, b);
      StepKeepsOrder(ss[k - 1], hs[k - 1], ops[k - 1], ss[k], hs[k], r, a, b);
    }
  }

  // ----- What the flag remembers -----

  /** Step j has queued l, granted at once or not as `acquired` says, and l has been there ever since. */
  ghost predicate QueuedBy<L>(ss: seq<State<L>>, ops: seq<Op<L>>, i: nat, l: L, acquired: bool, j: nat) {
    && j < i < |ss| == |ops| + 1 && ops[j].Acquire? && ops[j].lock == l && ops[j].decision == Enqueue(acquired)
    && forall k :: j < k <= i ==> l in ss[k].info
  }

  /** The request for l was granted without waiting. */
  ghost predicate AcquiredAtOnce<L>(ss: seq<State<L>>, ops: seq<Op<L>>, i: nat, l: L) {
    exists j :: QueuedBy(ss, ops, i, l, true, j)
  }

  lemma StepKeepsFlag<L>(s: State<L>, h: seq<Event>, op: Op<L>, s': State<L>, h': seq<Event>, l: L)
    requires Full(s, h) && Step(s, h, op, s', h') && l in s'.info
    ensures if l in s.info then s'.info[l].acquired == s.info[l].acquired
      else op.Acquire? && op.lock == l && op.decision == Enqueue(s'.info[l].acquired)
  {
    hide Tracks, Legal, TwoPhase, NoLostWakeup, Core, Wake;
    match op
    case Begin =>
    case Acquire(_, _, _, _, _) =>
    case Use(_, _, _, _) =>
    case ReleaseLock(m) => ReleaseStep(s, h, m);
    case End(_) =>
  }

  lemma NothingAtFirst<L>(ss: seq<State<L>>, hs: seq<seq<Event>>, ops: seq<Op<L>>, l: L)
    requires Run(ss, hs, ops)
    ensures |ss| == |hs| == |ops| + 1 && l !in ss[0].info
  {}

  /** The flag of a lock says for as long as the lock is queued how its request was answered; waking changes nothing. */
  lemma {:induction false} FlagIsAnswer<L>(ss: seq<State<L>>, hs: seq<seq<Event>>, ops: seq<Op<L>>, i: nat, l: L)
    returns (j: nat)
    requires Run(ss, hs, ops) && i < |ss| && l in ss[i].info
    ensures QueuedBy(ss, ops, i, l, ss[i].info[l].acquired, j)
    decreases i
  {
    NothingAtFirst(ss, hs, ops, l);
    hide Run, Step;
    StepAt(ss, hs, ops, i - 1);
    StepKeepsFlag(ss[i - 1], hs[i - 1], ops[i - 1], ss[i], hs[i], l);
    if l in ss[i - 1].info {
      j := FlagIsAnswer(ss, hs, ops, i - 1, l);
    } else {
      j := i - 1;
    }
  }

  /** So the locks that are granted with the flag false are those that were queued to wait and have been woken. */
  lemma {:induction false} WokenIff<L>(
    ss: seq<State<L>>, hs: seq<seq<Event>>, ops: seq<Op<L>>, i: nat, l: L, a: bool, j: nat)
    requires Run(ss, hs, ops) && QueuedBy(ss, ops, i, l, a, j)
    ensures l in ss[i].info && ss[i].info[l].acquired == a && (a ==> ss[i].info[l].granted)
    ensures l in ss[j + 1].info && ss[j + 1].info[l].granted == a
    decreases i
  {
    hide *;
    QueuedParts(ss, ops, i, l, a, j);
    StepAt(ss, hs, ops, i - 1);
    if i > j + 1 {
      QueuedBefore(ss, ops, i, l, a, j);
      WokenIff(ss, hs, ops, i - 1, l, a, j);
      StepKeepsFlag(ss[i - 1], hs[i - 1], ops[i - 1], ss[i], hs[i], l);
      FlagMeansGranted(ss[i], hs[i], l);
    } else {
      QueuedFlag(ss[j], hs[j], ops[j], ss[i], hs[i], l, a);
    }
  }

  lemma QueuedParts<L>(ss: seq<State<L>>, ops: seq<Op<L>>, i: nat, l: L, a: bool, j: nat)
    requires QueuedBy(ss, ops, i, l, a, j)
    ensures j < i < |ss| == |ops| + 1 && ops[j].Acquire? && ops[j].lock == l && ops[j].decision == Enqueue(a)
    ensures l in ss[i].info && l in ss[j + 1].info
  {}

  lemma QueuedBefore<L>(ss: seq<State<L>>, ops: seq<Op<L>>, i: nat, l: L, a: bool, j: nat)
    requires QueuedBy(ss, ops, i, l, a, j) && j + 1 < i
    ensures QueuedBy(ss, ops, i - 1, l, a, j) && l in ss[i - 1].info
  {}

  lemma FlagMeansGranted<L>(s: State<L>, h: seq<Event>, l: L)
    requires Full(s, h) && l in s.info
    ensures s.info[l].acquired ==> s.info[l].granted
  {
    assert LockOk(s, l);
  }

  lemma QueuedFlag<L>(s: State<L>, h: seq<Event>, op: Op<L>, s': State<L>, h': seq<Event>, l: L, a: bool)
    requires Step(s, h, op, s', h') && op.Acquire? && op.lock == l && op.decision == Enqueue(a)
    ensures l in s'.info && s'.info[l].acquired == s'.info[l].granted == a
  {
    hide Inv;
  }

  // ----- Grants in runs -----

  /** In every run, the releases of a commit included: a release grants the locks it lets go on, and no others. */
  lemma RunWakes<L>(ss: seq<State<L>>, hs: seq<seq<Event>>, ops: seq<Op<L>>, i: nat, l: L, m: L)
    requires Run(ss, hs, ops) && i < |ops| && ops[i] == Op.ReleaseLock(l) && m in ss[i + 1].info
    ensures m in ss[i].info && l in ss[i].info && ss[i].info[l].rec in ss[i].queue
    ensures ss[i + 1].info[m].granted <==> ss[i].info[m].granted || LetsGo(ss[i], l, m)
  {
    RunIsFull(ss, hs, ops, i);
    StepAt(ss, hs, ops, i);
    hide Full, Inv, LetsGo, Run;
    ReleaseStep(ss[i], hs[i], l);
    ReleaseWakes(ss[i], hs[i], l, m);
  }

  /** In every run a request is answered with a lock on the record in the mode asked for. */
  lemma RunAnswers<L>(
    ss: seq<State<L>>, hs: seq<seq<Event>>, ops: seq<Op<L>>, i: nat, t: int, r: Rec, x: bool, d: Decision<L>, l: L)
    requires Run(ss, hs, ops) && i < |ops| && ops[i] == Op.Acquire(t, r, x, d, l)
    ensures var a := if d.Enqueue? then l else d.lock;
      Answers(ss[i], t, r, x, a, ss[i + 1]) && HoldsAsked(ss[i + 1], hs[i + 1], t, r, x, a)
  {
    RunIsFull(ss, hs, ops, i);
    StepAt(ss, hs, ops, i);
    hide Full, Inv, Answers, HoldsAsked, Run, Decides;
    AcquireAnswers(ss[i], hs[i], t, r, x, d, l);
  }
}

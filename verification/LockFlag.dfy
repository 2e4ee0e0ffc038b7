/**
 What the flag is_acquired, which stays false when a waiting lock is woken, means for later requests: a shared
 request may have to wait although nobody holds the record in a conflicting mode.
 */
module LockFlag {
  import opened Sequences
  import opened LockHistory
  import opened LockState
  import opened LockRuns
  import opened LockReach

  /** With no exclusive lock of others on the record, a shared request is granted if and only if the last lock was
      granted at once and not woken; whether it is granted or not, nobody holds the record in a conflicting mode. */
  lemma SharedGrantedIff<L>(ss: seq<State<L>>, hs: seq<seq<Event>>, ops: seq<Op<L>>, t: int, r: Rec, a: bool)
    requires Run(ss, hs, ops) && MayAsk(ss[|ops|], t) && Known(ss[|ops|], Queue(ss[|ops|], r))
    requires Decides(ss[|ops|], Queue(ss[|ops|], r), t, false, Enqueue(a))
    requires !Others(ss[|ops|], Queue(ss[|ops|], r), t, true)
    ensures
      var q := Queue(ss[|ops|], r);
      a <==> q == [] || AcquiredAtOnce(ss, ops, |ops|, q[|q| - 1])
    ensures forall u :: u != t ==> !Conflict(false, Held(hs[|ops|], u, r))
  {
    var s, q := ss[|ops|], Queue(ss[|ops|], r);
    RunIsFull(ss, hs, ops, |ops|);
    NoConflict(s, hs[|ops|], t, r);
    if q != [] {
      var l := q[|q| - 1];
      var j := FlagIsAnswer(ss, hs, ops, |ops|, l);
      forall k | QueuedBy(ss, ops, |ops|, l, true, k) ensures a { WokenIff(ss, hs, ops, |ops|, l, true, k); }
    }
  }

  lemma NoConflict<L>(s: State<L>, h: seq<Event>, t: int, r: Rec)
    requires Full(s, h) && Known(s, Queue(s, r)) && !Others(s, Queue(s, r), t, true)
    ensures forall u :: u != t ==> !Conflict(false, Held(h, u, r))
  {
    forall u | u != t ensures !Conflict(false, Held(h, u, r)) {
      if Held(h, u, r).Exclusive? {
        var l :| l in s.info && Grants(s, l, u, r);
        assert LockOk(s, l);
        var i := IndexOf(Queue(s, r), l);
      }
    }
  }

  // ----- A run that ends with a lock that was woken -----

  /** After transaction 1 has locked r exclusively (lock 10). */
  function Locked(r: Rec): State<int> {
    State(map[r := [10]], map[10 := Info(r, 1, true, true, true)], map[1 := [10], 2 := [], 3 := []], {}, 3)
  }

  /** After transaction 2 has asked for r in shared mode (lock 20). */
  function Waiting(r: Rec): State<int> {
    State(map[r := [10, 20]], map[10 := Info(r, 1, true, true, true), 20 := Info(r, 2, false, false, false)],
          map[1 := [10], 2 := [20], 3 := []], {}, 3)
  }

  /** After transaction 1 has released r. */
  function Woken(r: Rec): State<int> {
    State(map[r := [20]], map[20 := Info(r, 2, false, false, true)], map[1 := [], 2 := [20], 3 := []], {1}, 3)
  }

  function Idle(n: nat): State<int> {
    if n == 0 then State(map[], map[], map[], {}, 0) else Begun(Idle(n - 1))
  }

  lemma IdleIsFull(n: nat)
    ensures Full(Idle(n), []) && Idle(n).last == n && Idle(n).queue == map[] && Idle(n).info == map[]
      && Idle(n).committing == {}
  {
    if n > 0 {
      IdleIsFull(n - 1);
      BeginStep(Idle(n - 1), []);
    }
  }

  lemma IdleThree()
    ensures Idle(3).owned == map[1 := [], 2 := [], 3 := []]
  {
    assert Idle(1) == Begun(Idle(0)) && Idle(2) == Begun(Idle(1)) && Idle(3) == Begun(Idle(2));
    IdleIsFull(0);
    IdleIsFull(1);
    IdleIsFull(2);
  }

  lemma IdleTwo()
    ensures Idle(2).owned == map[1 := [], 2 := []]
  {
    assert Idle(1) == Begun(Idle(0)) && Idle(2) == Begun(Idle(1));
    IdleIsFull(0);
    IdleIsFull(1);
  }

  lemma FirstLock(r: Rec)
    ensures Step(Idle(3), [], Op.Acquire(1, r, true, Enqueue(true), 10), Locked(r), [Grant(1, r, true)])
  {
    hide Idle;
    IdleIsFull(3);
    IdleThree();
    var s := Idle(3);
    assert Queue(s, r) == [];
    assert [] + [Grant(1, r, true)] == [Grant(1, r, true)];
    assert [10] == [] + [10];
    assert Enqueued(s, 1, r, true, true, 10) == Locked(r) by {
      assert s.owned[1 := [10]] == Locked(r).owned;
    }
  }

  lemma SecondLock(r: Rec, h: seq<Event>)
    requires Full(Locked(r), h)
    ensures Step(Locked(r), h, Op.Acquire(2, r, false, Enqueue(false), 20), Waiting(r), h)
  {
    var s := Locked(r);
    assert Inv(s, h);
    hide Full, Inv;
    var q := Queue(s, r);
    assert q == [10] && s.info[q[0]].trx == 1;
    assert Others(s, q, 2, true) && Others(s, q, 2, false);
    assert [10, 20] == [10] + [20] && [20] == [] + [20];
    assert Enqueued(s, 2, r, false, false, 20) == Waiting(r) by {
      assert s.owned[2 := [20]] == Waiting(r).owned;
    }
  }

  lemma FirstReleased(r: Rec, h: seq<Event>)
    requires Full(Waiting(r), h)
    ensures Step(Waiting(r), h, Op.ReleaseLock(10), Woken(r), h + [Release(1, r), Grant(2, r, false)])
  {
    var s := Waiting(r);
    FullIsInv(s, h);
    hide Full, Inv;
    FirstRemoved(r);
    var h1 := h + [Release(1, r)];
    SecondWoken(r, h1);
    hide Wake, RemoveLock, Woken, Removed;
    assert ReleaseState(s, h, 10) == Wake(Removed(r), h1, r);
    assert h1 + [Grant(2, r, false)] == h + [Release(1, r), Grant(2, r, false)];
  }

  /** After lock 10 has left the queue and before lock 20 is woken. */
  function Removed(r: Rec): State<int> {
    State(map[r := [20]], map[20 := Info(r, 2, false, false, false)], map[1 := [], 2 := [20], 3 := []], {1}, 3)
  }

  lemma SecondWoken(r: Rec, h: seq<Event>)
    ensures r in Removed(r).queue && Removed(r).queue[r] == [20] && 20 in Removed(r).info
    ensures Wake(Removed(r), h, r) == (Woken(r), h + [Grant(2, r, false)])
  {
    var s := Removed(r);
    assert GrantLock(s, 20) == Woken(r);
  }

  lemma FirstRemoved(r: Rec)
    ensures var s := Waiting(r);
      && Releasable(s, 10) && IndexOf(s.queue[r], 10) == 0 && s.info[10] == Info(r, 1, true, true, true)
      && RemoveLock(s, 10) == Removed(r) && r in Removed(r).queue
  {
    var s := Waiting(r);
    assert s.owned[1][0] == 10 && s.queue[r][0] == 10 && Running(s, 1) && Releasable(s, 10);
    var q := s.queue[r];
    assert IndexOf(q, 10) == 0 && Without(q, 0) == [20];
    var z := RemoveLock(s, 10);
    assert z.queue == map[r := [20]];
    assert z.info == map[20 := Info(r, 2, false, false, false)];
    assert z.owned == map[1 := [], 2 := [20], 3 := []];
  }

  lemma ThirdWaits(r: Rec)
    ensures
      var s := Woken(r);
      && MayAsk(s, 3) && Queue(s, r) == [20] && 20 in s.info && s.info[20].granted && !s.info[20].exclusive
      && Known(s, [20]) && Decides(s, [20], 3, false, Enqueue(false))
  {
    var s := Woken(r);
    assert [20][0] == 20 && s.info[[20][0]].trx == 2 && Others(s, [20], 3, false);
    assert s.owned[3] == [];
  }

  lemma Steps(r: Rec)
    ensures
      var h := [Grant(1, r, true)];
      && Step(Idle(3), [], Op.Acquire(1, r, true, Enqueue(true), 10), Locked(r), h)
      && Step(Locked(r), h, Op.Acquire(2, r, false, Enqueue(false), 20), Waiting(r), h)
      && Step(Waiting(r), h, Op.ReleaseLock(10), Woken(r), h + [Release(1, r), Grant(2, r, false)])
  {
    hide *;
    var h := [Grant(1, r, true)];
    IdleIsFull(3);
    FirstLock(r);
    StepKeepsFull(Idle(3), [], Op.Acquire(1, r, true, Enqueue(true), 10), Locked(r), h);
    SecondLock(r, h);
    StepKeepsFull(Locked(r), h, Op.Acquire(2, r, false, Enqueue(false), 20), Waiting(r), h);
    FirstReleased(r, h);
  }

  /** Six steps lead to a state whose only lock, number 20, is a granted shared one on r. */
  lemma WokenRun(r: Rec) returns (ss: seq<State<int>>, hs: seq<seq<Event>>, ops: seq<Op<int>>)
    ensures Run(ss, hs, ops) && ss[|ops|] == Woken(r)
  {
    hide Step, Idle, Locked, Waiting, Woken;
    Steps(r);
    var h := [Grant(1, r, true)];
    ss := [Idle(0), Idle(1), Idle(2), Idle(3), Locked(r), Waiting(r), Woken(r)];
    hs := [[], [], [], [], h, h, h + [Release(1, r), Grant(2, r, false)]];
    ops := [Op.Begin, Op.Begin, Op.Begin, Op.Acquire(1, r, true, Enqueue(true), 10),
            Op.Acquire(2, r, false, Enqueue(false), 20), Op.ReleaseLock(10)];
    assert Idle(0) == State(map[], map[], map[], {}, 0) by { IdleStart(); }
    forall i | 0 <= i < |ops| ensures Step(ss[i], hs[i], ops[i], ss[i + 1], hs[i + 1]) {
      if i < 3 {
        IdleBegins(i);
        assert ss[i] == Idle(i) && ss[i + 1] == Idle(i + 1);
      }
    }
  }

  lemma IdleStart()
    ensures Idle(0) == State(map[], map[], map[], {}, 0)
  {
  }

  lemma IdleBegins(n: nat)
    ensures Step(Idle(n), [], Op.Begin, Idle(n + 1), [])
  {
  }

  /** A run after which the only lock on a record is a granted shared one, and a shared request has to wait. */
  lemma SharedCanWaitBehindShared()
    returns (ss: seq<State<int>>, hs: seq<seq<Event>>, ops: seq<Op<int>>, r: Rec)
    ensures Run(ss, hs, ops)
    ensures
      var s := ss[|ops|];
      && MayAsk(s, 3) && Queue(s, r) == [20] && 20 in s.info && s.info[20].granted && !s.info[20].exclusive
      && Known(s, [20]) && Decides(s, [20], 3, false, Enqueue(false))
  {
    hide *;
    r := Rec(0, 0, 0);
    ss, hs, ops := WokenRun(r);
    ThirdWaits(r);
  }

  // ----- A run that ends with an upgrade that waits -----

  /** Transactions 1 and 2 share r (locks 10 and 20); two transactions have begun. */
  function Shared1(r: Rec): State<int> {
    State(map[r := [10]], map[10 := Info(r, 1, false, true, true)], map[1 := [10], 2 := []], {}, 2)
  }

  function Shared2(r: Rec): State<int> {
    State(map[r := [10, 20]], map[10 := Info(r, 1, false, true, true), 20 := Info(r, 2, false, true, true)],
          map[1 := [10], 2 := [20]], {}, 2)
  }

  /** Transaction 1 has asked for r exclusively as well (lock 11). */
  function Upgrading(r: Rec): State<int> {
    State(map[r := [10, 20, 11]],
          map[10 := Info(r, 1, false, true, true), 20 := Info(r, 2, false, true, true),
            11 := Info(r, 1, true, false, false)],
          map[1 := [10, 11], 2 := [20]], {}, 2)
  }

  lemma FirstShared(r: Rec)
    ensures Step(Idle(2), [], Op.Acquire(1, r, false, Enqueue(true), 10), Shared1(r), [Grant(1, r, false)])
  {
    IdleIsFull(2);
    IdleTwo();
    var s := Idle(2);
    FullIsInv(s, []);
    hide Idle, Full, Inv;
    assert Queue(s, r) == [] && [10] == [] + [10];
    assert [] + [Grant(1, r, false)] == [Grant(1, r, false)];
    assert Enqueued(s, 1, r, false, true, 10) == Shared1(r) by { assert s.owned[1 := [10]] == Shared1(r).owned; }
    assert MayAsk(s, 1) && Known(s, []);
    hide Enqueued, Shared1, MayAsk, Known, Queue;
  }

  lemma FullIsInv(s: State<int>, h: seq<Event>)
    requires Full(s, h)
    ensures Inv(s, h)
  {}

  lemma SecondShared(r: Rec, h: seq<Event>)
    requires Full(Shared1(r), h)
    ensures Step(Shared1(r), h, Op.Acquire(2, r, false, Enqueue(true), 20), Shared2(r), h + [Grant(2, r, false)])
  {
    var s := Shared1(r);
    assert Inv(s, h);
    hide Full, Inv;
    var q := Queue(s, r);
    assert q == [10] && s.info[q[0]].trx == 1 && Others(s, q, 2, false);
    assert [10, 20] == [10] + [20] && [20] == [] + [20];
    assert Enqueued(s, 2, r, false, true, 20) == Shared2(r) by { assert s.owned[2 := [20]] == Shared2(r).owned; }
  }

  lemma UpgradeAsked(r: Rec, h: seq<Event>)
    requires Full(Shared2(r), h)
    ensures Step(Shared2(r), h, Op.Acquire(1, r, true, Enqueue(false), 11), Upgrading(r), h)
  {
    var s := Shared2(r);
    assert Inv(s, h);
    hide Full, Inv;
    var q := Queue(s, r);
    assert q == [10, 20] && s.info[q[1]].trx == 2 && Others(s, q, 1, false);
    assert [10, 20, 11] == [10, 20] + [11] && [10, 11] == [10] + [11];
    assert Enqueued(s, 1, r, true, false, 11) == Upgrading(r) by {
      assert s.owned[1 := [10, 11]] == Upgrading(r).owned;
    }
  }

  /** Five steps lead to an upgrade that waits: by StuckForever it does so in every continuation of the run. */
  lemma UpgradeCanWait(r: Rec) returns (ss: seq<State<int>>, hs: seq<seq<Event>>, ops: seq<Op<int>>)
    ensures Run(ss, hs, ops) && Stuck(ss[|ops|], 1, 10, 11)
  {
    hide *;
    var h1, h2 := [Grant(1, r, false)], [Grant(1, r, false)] + [Grant(2, r, false)];
    ss, hs, ops := IdleRun(2);
    FirstShared(r);
    RunExtends(ss, hs, ops, Op.Acquire(1, r, false, Enqueue(true), 10), Shared1(r), h1);
    ss, hs, ops := ss + [Shared1(r)], hs + [h1], ops + [Op.Acquire(1, r, false, Enqueue(true), 10)];
    LastOf(ss, hs, ops, Shared1(r), h1);
    SecondShared(r, h1);
    RunExtends(ss, hs, ops, Op.Acquire(2, r, false, Enqueue(true), 20), Shared2(r), h2);
    ss, hs, ops := ss + [Shared2(r)], hs + [h2], ops + [Op.Acquire(2, r, false, Enqueue(true), 20)];
    LastOf(ss, hs, ops, Shared2(r), h2);
    UpgradeAsked(r, h2);
    RunExtends(ss, hs, ops, Op.Acquire(1, r, true, Enqueue(false), 11), Upgrading(r), h2);
    ss, hs, ops := ss + [Upgrading(r)], hs + [h2], ops + [Op.Acquire(1, r, true, Enqueue(false), 11)];
    LastOf(ss, hs, ops, Upgrading(r), h2);
    UpgradingIsStuck(r);
  }

  lemma UpgradingIsStuck(r: Rec)
    ensures Stuck(Upgrading(r), 1, 10, 11)
  {
    var q := Upgrading(r).queue[r];
    assert q[0] == 10 && q[2] == 11;
  }

  lemma LastOf(ss: seq<State<int>>, hs: seq<seq<Event>>, ops: seq<Op<int>>, s: State<int>, h: seq<Event>)
    requires Run(ss, hs, ops) && ss != [] && hs != [] && ss[|ss| - 1] == s && hs[|hs| - 1] == h
    ensures |ss| == |hs| == |ops| + 1 && ss[|ops|] == s && hs[|ops|] == h && Full(s, h)
  {
    RunIsFull(ss, hs, ops, |ops|);
  }

  /** A run of n Begins. */
  lemma {:induction false} IdleRun(n: nat) returns (ss: seq<State<int>>, hs: seq<seq<Event>>, ops: seq<Op<int>>)
    ensures Run(ss, hs, ops) && ss != [] && hs != [] && |ss| == |hs| == |ops| + 1 && ss[|ops|] == Idle(n)
      && hs[|ops|] == []
  {
    if n == 0 {
      RunStart<int>();
      ss, hs, ops := [Idle(0)], [[]], [];
    } else {
      ss, hs, ops := IdleRun(n - 1);
      RunExtends(ss, hs, ops, Op.Begin, Idle(n), []);
      ss, hs, ops := ss + [Idle(n)], hs + [[]], ops + [Op.Begin];
    }
  }
}

/**
 What the callers of the lock table get, said on the queues alone: whom a release lets go on, and what lock answers a
 request.
 */
module LockAnswers {
  import opened Sequences
  import opened LockHistory
  import opened LockState

  // ----- Whom a release wakes -----

  /** From position i up to k there are only shared locks. */
  ghost predicate SharedUpTo<L>(s: State<L>, q: seq<L>, i: nat, k: nat) {
    i <= k < |q| && forall j :: i <= j <= k ==> q[j] in s.info && !s.info[q[j]].exclusive
  }

  /** m stands in q with nothing but shared locks from position i up to itself. */
  ghost predicate BehindShared<L>(s: State<L>, q: seq<L>, i: nat, m: L) {
    exists k: nat :: SharedUpTo(s, q, i, k) && q[k] == m
  }

  /**
   The release of l lets m go on: l was the head, the lock behind it had not been acquired at once, and m is that lock
   or stands further back with nothing but shared locks from there up to itself.
   */
  ghost predicate LetsGo<L>(s: State<L>, l: L, m: L)
    requires l in s.info && s.info[l].rec in s.queue
  {
    var q := s.queue[s.info[l].rec];
    && |q| >= 2 && q[0] == l && q[1] in s.info && !s.info[q[1]].acquired
    && (m == q[1] || BehindShared(s, q, 1, m))
  }

  lemma BehindNext<L>(s: State<L>, s1: State<L>, q: seq<L>, i: nat, m: L)
    requires i < |q| && q[i] in s.info && !s.info[q[i]].exclusive && s1 == GrantLock(s, q[i])
    ensures BehindShared(s, q, i, m) <==> (m == q[i] || BehindShared(s1, q, i + 1, m))
  {
    assert SharedUpTo(s, q, i, i);
    forall k: nat ensures SharedUpTo(s, q, i, k) <==> (k == i || SharedUpTo(s1, q, i + 1, k)) {}
  }

  lemma {:induction false} WakeSharedIs<L>(s: State<L>, h: seq<Event>, q: seq<L>, i: nat, m: L)
    requires (forall j :: 0 <= j < |q| ==> q[j] in s.info) && m in s.info
    ensures var w := WakeShared(s, h, q, i).0;
      m in w.info && (w.info[m].granted <==> s.info[m].granted || BehindShared(s, q, i, m))
    decreases |q| - i
  {
    if i < |q| && !s.info[q[i]].exclusive {
      var s1, h1 := GrantLock(s, q[i]), GrantEvent(s, h, q[i]);
      WakeSharedIs(s1, h1, q, i + 1, m);
      BehindNext(s, s1, q, i, m);
    }
  }

  lemma WakeIs<L>(s: State<L>, h: seq<Event>, r: Rec, m: L)
    requires r in s.queue && s.queue[r] != [] && (forall j :: 0 <= j < |s.queue[r]| ==> s.queue[r][j] in s.info)
    requires m in s.info
    ensures var q, w := s.queue[r], Wake(s, h, r).0;
      && m in w.info
      && (w.info[m].granted <==>
            s.info[m].granted || (!s.info[q[0]].acquired && (m == q[0] || BehindShared(s, q, 0, m))))
  {
    var q := s.queue[r];
    if !s.info[q[0]].acquired {
      var s1, h1 := GrantLock(s, q[0]), GrantEvent(s, h, q[0]);
      if s.info[q[0]].exclusive {
        assert forall k: nat :: !SharedUpTo(s, q, 0, k);
      } else {
        WakeSharedIs(s1, h1, q, 1, m);
        BehindNext(s, s1, q, 0, m);
      }
    }
  }

  /** Positions behind a head that has left. */
  lemma BehindHead<L>(s: State<L>, s1: State<L>, q: seq<L>, m: L)
    requires q != [] && Distinct(q) && s1.info == s.info - {q[0]}
    ensures BehindShared(s1, q[1..], 0, m) <==> BehindShared(s, q, 1, m)
  {
    var p := q[1..];
    if BehindShared(s1, p, 0, m) {
      var k: nat :| SharedUpTo(s1, p, 0, k) && p[k] == m;
      assert forall j :: 1 <= j <= k + 1 ==> q[j] == p[j - 1];
      assert SharedUpTo(s, q, 1, k + 1);
    }
    if BehindShared(s, q, 1, m) {
      var k: nat :| SharedUpTo(s, q, 1, k) && q[k] == m;
      assert SharedUpTo(s1, p, 0, k - 1);
    }
  }

  /** A release grants the locks it lets go on, and no others. */
  lemma ReleaseWakes<L>(s: State<L>, h: seq<Event>, l: L, m: L)
    requires Full(s, h) && Releasable(s, l) && m in s.info && m != l
    ensures var z := ReleaseState(s, h, l).0;
      m in z.info && (z.info[m].granted <==> s.info[m].granted || LetsGo(s, l, m))
  {
    RemoveStep(s, h, l);
    var r := s.info[l].rec;
    assert QueueOk(s, r);
    hide Core, Tracks, TwoPhase, Legal, NoLostWakeup, Running, Wake, BehindShared;
    var q, s1, h1 := s.queue[r], RemoveLock(s, l), h + [Release(s.info[l].trx, r)];
    if r in s1.queue && IndexOf(q, l) == 0 {
      assert s1.queue[r] == q[1..];
      WakeStep(s1, h1, r);
      WakeIs(s1, h1, r, m);
      BehindHead(s, s1, q, m);
    }
  }

  // ----- What lock answers a request -----

  /**
   a is a lock of transaction t on r, exclusive if that was asked for or it had been so before. Nothing else changes
   but that a new lock stands at the end of its queue.
   */
  ghost predicate Answers<L>(s: State<L>, t: int, r: Rec, x: bool, a: L, s': State<L>) {
    && a in s'.info && s'.info[a].trx == t && s'.info[a].rec == r
    && (s'.info[a].exclusive <==> x || (a in s.info && s.info[a].exclusive))
    && s'.info.Keys == s.info.Keys + {a} && (forall m :: m in s.info && m != a ==> s'.info[m] == s.info[m])
    && Queue(s', r) == Queue(s, r) + (if a in s.info then [] else [a])
    && (forall y {:trigger Queue(s', y)} :: y != r ==> Queue(s', y) == Queue(s, y))
  }

  /** If it has been granted, what t now holds on the record is at least what it asked for. */
  ghost predicate HoldsAsked<L>(s': State<L>, h': seq<Event>, t: int, r: Rec, x: bool, a: L)
    requires a in s'.info
  {
    s'.info[a].granted ==> !Held(h', t, r).Free? && (x ==> Held(h', t, r).Exclusive?)
  }

  lemma AcquireAnswers<L>(s: State<L>, h: seq<Event>, t: int, r: Rec, x: bool, d: Decision<L>, l: L)
    requires Full(s, h) && MayAsk(s, t) && (d.Enqueue? ==> l !in s.info)
    requires Known(s, Queue(s, r)) && Decides(s, Queue(s, r), t, x, d)
    ensures d.Upgrade? ==> d.lock in s.info
    ensures var z, a := Decided(s, h, t, r, x, d, l), if d.Enqueue? then l else d.lock;
      Answers(s, t, r, x, a, z.0) && HoldsAsked(z.0, z.1, t, r, x, a)
  {
    AcquireStep(s, h, t, r, x, d, l);
    AnswerIs(s, h, t, r, x, d, l);
    var z, a := Decided(s, h, t, r, x, d, l), if d.Enqueue? then l else d.lock;
    assert Tracks(z.0, z.1);
  }

  lemma AnswerIs<L>(s: State<L>, h: seq<Event>, t: int, r: Rec, x: bool, d: Decision<L>, l: L)
    requires Core(s) && t in s.owned && (d.Enqueue? ==> l !in s.info)
    requires Known(s, Queue(s, r)) && Decides(s, Queue(s, r), t, x, d) && (d.Upgrade? ==> d.lock in s.info)
    ensures Answers(s, t, r, x, if d.Enqueue? then l else d.lock, Decided(s, h, t, r, x, d, l).0)
  {
    assert r in s.queue ==> QueueOk(s, r);
  }

  /**
   An exclusive request of a transaction without an exclusive lock on the record is granted if and only if no other
   transaction has a lock there, granted or waiting.
   */
  lemma ExclusiveGrantedIff<L>(s: State<L>, h: seq<Event>, t: int, r: Rec, d: Decision<L>, l: L)
    requires Full(s, h) && MayAsk(s, t) && (d.Enqueue? ==> l !in s.info)
    requires Known(s, Queue(s, r)) && Decides(s, Queue(s, r), t, true, d)
    requires forall i :: 0 <= i < |Queue(s, r)| && s.info[Queue(s, r)[i]].trx == t ==>
      !s.info[Queue(s, r)[i]].exclusive
    ensures d.Upgrade? ==> d.lock in s.info
    ensures var z, a := Decided(s, h, t, r, true, d, l).0, if d.Enqueue? then l else d.lock;
      a in z.info && (z.info[a].granted <==> forall i :: 0 <= i < |Queue(s, r)| ==> s.info[Queue(s, r)[i]].trx == t)
  {
    match d
    case Existing(_) =>
    case Upgrade(m) => UpgradeAlone(s, t, r, m);
    case Enqueue(_) =>
  }
}

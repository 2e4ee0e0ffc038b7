/**
 Commit: trx_commit releases the locks of one transaction, the oldest first, and then forgets it. Afterwards
 no queue holds a lock of that transaction, and all others stand in their old order.
 */
module LockCommit {
  import opened Sequences
  import opened LockHistory
  import opened LockState
  import opened LockRuns

  /** The oldest lock can go, and its owner can go on with the next one. */
  lemma ReleaseNext<L>(s: State<L>, h: seq<Event>, t: int)
    requires Full(s, h) && Running(s, t) && s.owned[t] != []
    ensures Releasable(s, s.owned[t][0])
    ensures var z := ReleaseState(s, h, s.owned[t][0]);
      Full(z.0, z.1) && Running(z.0, t) && z.0.owned[t] == s.owned[t][1..]
      && SameButGranted(RemoveLock(s, s.owned[t][0]), z.0)
  {
    hide Tracks, Legal, Held, ReleaseState, NoLostWakeup, TwoPhase;
    var l := s.owned[t][0];
    assert OwnerOk(s, t) && LockOk(s, l);
    ReleaseStep(s, h, l);
    var z := ReleaseState(s, h, l);
    assert OwnerOk(z.0, t);
    var o := s.owned[t];
    forall i | 0 <= i < |z.0.owned[t]| ensures z.0.info[z.0.owned[t][i]].granted { assert o[1..][i] == o[i + 1]; }
  }

  ghost function Committed<L>(s: State<L>, h: seq<Event>, t: int): (State<L>, seq<Event>)
    requires Full(s, h) && Running(s, t)
    decreases |s.owned[t]|
  {
    if s.owned[t] == [] then (Ended(s, t), h)
    else
      ReleaseNext(s, h, t);
      var z := ReleaseState(s, h, s.owned[t][0]);
      Committed(z.0, z.1, t)
  }

  lemma {:induction false} CommitStep<L>(s: State<L>, h: seq<Event>, t: int)
    requires Full(s, h) && Running(s, t)
    ensures var z := Committed(s, h, t); Full(z.0, z.1) && z.0.owned == s.owned - {t}
    decreases |s.owned[t]|
  {
    hide Core, Tracks, Legal, TwoPhase, NoLostWakeup, ReleaseState, SameButGranted;
    if s.owned[t] == [] {
      EndStep(s, h, t);
    } else {
      ReleaseNext(s, h, t);
      var z := ReleaseState(s, h, s.owned[t][0]);
      CommitStep(z.0, z.1, t);
      ReleaseOwned(s, h, t);
    }
  }

  lemma ReleaseOwned<L>(s: State<L>, h: seq<Event>, t: int)
    requires Full(s, h) && Running(s, t) && s.owned[t] != [] && Releasable(s, s.owned[t][0])
    ensures ReleaseState(s, h, s.owned[t][0]).0.owned - {t} == s.owned - {t}
  {
    hide Tracks, Legal, TwoPhase, NoLostWakeup, ReleaseState;
    assert OwnerOk(s, t);
    ReleaseNext(s, h, t);
  }

  // ----- What a commit leaves of the queues -----

  /** The locks of q that do not belong to t, in the order of q. */
  ghost function KeepOthers<L>(info: map<L, Info>, q: seq<L>, t: int): seq<L>
    requires forall i :: 0 <= i < |q| ==> q[i] in info
  {
    if q == [] then []
    else (if info[q[0]].trx == t then [] else [q[0]]) + KeepOthers(info, q[1..], t)
  }

  lemma {:induction false} KeepOthersWithout<L>(info: map<L, Info>, q: seq<L>, t: int, i: nat)
    requires i < |q| && (forall j :: 0 <= j < |q| ==> q[j] in info) && info[q[i]].trx == t
    ensures forall j :: 0 <= j < |q| - 1 ==> Without(q, i)[j] in info
    ensures KeepOthers(info, Without(q, i), t) == KeepOthers(info, q, t)
  {
    var p := Without(q, i);
    assert forall j :: 0 <= j < |p| ==> p[j] == q[if j < i then j else j + 1];
    if i == 0 {
      assert p == q[1..];
    } else {
      KeepOthersWithout(info, q[1..], t, i - 1);
      assert p[1..] == Without(q[1..], i - 1);
    }
  }

  lemma {:induction false} KeepOthersSame<L>(info: map<L, Info>, info': map<L, Info>, q: seq<L>, t: int)
    requires forall j :: 0 <= j < |q| ==> q[j] in info && q[j] in info' && info[q[j]].trx == info'[q[j]].trx
    ensures KeepOthers(info, q, t) == KeepOthers(info', q, t)
  {
    if q != [] { KeepOthersSame(info, info', q[1..], t); }
  }

  lemma {:induction false} KeepOthersAll<L>(info: map<L, Info>, q: seq<L>, t: int)
    requires forall j :: 0 <= j < |q| ==> q[j] in info && info[q[j]].trx != t
    ensures KeepOthers(info, q, t) == q
  {
    if q != [] { KeepOthersAll(info, q[1..], t); }
  }

  lemma {:induction false} KeepOthersOnly<L>(info: map<L, Info>, q: seq<L>, t: int, l: L)
    requires forall j :: 0 <= j < |q| ==> q[j] in info
    ensures l in KeepOthers(info, q, t) <==> l in q && info[l].trx != t
  {
    if q != [] { KeepOthersOnly(info, q[1..], t, l); }
  }

  lemma ReleaseKeepsOthers<L>(s: State<L>, h: seq<Event>, t: int, r: Rec)
    requires Full(s, h) && Running(s, t) && s.owned[t] != [] && Releasable(s, s.owned[t][0])
    requires Known(s, Queue(s, r))
    ensures var z := ReleaseState(s, h, s.owned[t][0]);
      && Known(z.0, Queue(z.0, r))
      && KeepOthers(z.0.info, Queue(z.0, r), t) == KeepOthers(s.info, Queue(s, r), t)
  {
    hide Tracks, Legal, Held, ReleaseState, NoLostWakeup, TwoPhase;
    var l := s.owned[t][0];
    assert OwnerOk(s, t);
    ReleaseNext(s, h, t);
    var z := ReleaseState(s, h, l);
    QueueKnown(z.0, r);
    var q := Queue(s, r);
    if r == s.info[l].rec { KeepOthersWithout(s.info, q, t, IndexOf(q, l)); }
    KeepOthersSame(s.info, z.0.info, Queue(z.0, r), t);
  }

  /** After the commit every queue is what it was, less the transaction's own locks. */
  lemma {:induction false} CommitKeepsOrder<L>(s: State<L>, h: seq<Event>, t: int, r: Rec)
    requires Full(s, h) && Running(s, t) && Known(s, Queue(s, r))
    ensures Queue(Committed(s, h, t).0, r) == KeepOthers(s.info, Queue(s, r), t)
    decreases |s.owned[t]|
  {
    if s.owned[t] == [] {
      forall j | 0 <= j < |Queue(s, r)| ensures s.info[Queue(s, r)[j]].trx != t { assert LockOk(s, Queue(s, r)[j]); }
      KeepOthersAll(s.info, Queue(s, r), t);
    } else {
      ReleaseNext(s, h, t);
      ReleaseKeepsOthers(s, h, t, r);
      var z := ReleaseState(s, h, s.owned[t][0]);
      CommitKeepsOrder(z.0, z.1, t, r);
    }
  }

  /** A commit leaves none of the transaction's locks behind. */
  lemma CommitLeavesNone<L>(s: State<L>, h: seq<Event>, t: int, r: Rec, l: L)
    requires Full(s, h) && Running(s, t) && r in s.queue && l in s.queue[r]
    ensures l in s.info
    ensures l in Queue(Committed(s, h, t).0, r) <==> s.info[l].trx != t
  {
    assert QueueOk(s, r);
    CommitKeepsOrder(s, h, t, r);
    KeepOthersOnly(s.info, s.queue[r], t, l);
  }

  /** Every queued lock stands exactly once in the list of its owner, and in the list of no other transaction. */
  lemma OwnedExactlyOnce<L>(s: State<L>, r: Rec, l: L, t: int, i: nat)
    requires Core(s) && r in s.queue && l in s.queue[r] && t in s.owned && i < |s.owned[t]|
    ensures l in s.info && s.info[l].trx in s.owned && l in s.owned[s.info[l].trx]
    ensures s.owned[t][i] == l <==> t == s.info[l].trx && i == IndexOf(s.owned[t], l)
  {
    assert QueueOk(s, r) && LockOk(s, l) && OwnerOk(s, t);
  }
}

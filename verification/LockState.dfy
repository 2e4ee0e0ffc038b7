/**
 The lock table as a value: for every record the queue of locks on it, for every transaction the locks it
 owns. Each step here is one latch-protected section of lock_acquire or lock_release. `granted` is a lock's
 true standing; `acquired` is the flag the code keeps, which stays false when a waiting lock is woken.
 */
module LockState {
  import opened Sequences
  import opened LockHistory

  datatype Info = Info(rec: Rec, trx: int, exclusive: bool, acquired: bool, granted: bool)

  datatype State<L> = State(
    queue: map<Rec, seq<L>>, info: map<L, Info>, owned: map<int, seq<L>>, committing: set<int>, last: int)

  // ----- The invariant -----

  /** The pairs of locks of one queue, the first one ahead of the second. */
  ghost predicate PairOk(a: Info, b: Info) {
    && (b.granted ==> a.granted && !a.exclusive && !b.exclusive && a.trx != b.trx)
    && (a.trx == b.trx ==> !a.exclusive && b.exclusive && a.granted)
  }

  ghost predicate QueueOk<L>(s: State<L>, r: Rec)
    requires r in s.queue
  {
    var q := s.queue[r];
    && q != [] && Distinct(q)
    && (forall i :: 0 <= i < |q| ==> q[i] in s.info && s.info[q[i]].rec == r)
    && (forall i, j :: 0 <= i < j < |q| ==> PairOk(s.info[q[i]], s.info[q[j]]))
  }

  ghost predicate LockOk<L>(s: State<L>, l: L)
    requires l in s.info
  {
    var v := s.info[l];
    && v.rec in s.queue && l in s.queue[v.rec]
    && v.trx in s.owned && l in s.owned[v.trx]
    && (v.acquired ==> v.granted)
  }

  /** A transaction waits for at most its latest lock, and for none once it commits. */
  ghost predicate OwnerOk<L>(s: State<L>, t: int)
    requires t in s.owned
  {
    var o := s.owned[t];
    && Distinct(o) && t <= s.last
    && (forall i :: 0 <= i < |o| ==> o[i] in s.info && s.info[o[i]].trx == t)
    && (forall i :: 0 <= i < |o| && (i < |o| - 1 || t in s.committing) ==> s.info[o[i]].granted)
  }

  ghost predicate Core<L>(s: State<L>) {
    && (forall r {:trigger QueueOk(s, r)} :: r in s.queue ==> QueueOk(s, r))
    && (forall l {:trigger LockOk(s, l)} :: l in s.info ==> LockOk(s, l))
    && (forall t {:trigger OwnerOk(s, t)} :: t in s.owned ==> OwnerOk(s, t))
  }

  ghost predicate HeadGranted<L>(s: State<L>, r: Rec)
    requires r in s.queue
  {
    s.queue[r] != [] && s.queue[r][0] in s.info && s.info[s.queue[r][0]].granted
  }

  /** No wake-up is ever lost: the head of every queue is granted. */
  ghost predicate NoLostWakeup<L>(s: State<L>) {
    forall r {:trigger HeadGranted(s, r)} :: r in s.queue ==> HeadGranted(s, r)
  }

  /** The granted locks are exactly what the history says is held. */
  ghost predicate Grants<L>(s: State<L>, l: L, t: int, r: Rec) {
    l in s.info && s.info[l].granted && s.info[l].trx == t && s.info[l].rec == r
  }

  ghost predicate Tracks<L>(s: State<L>, h: seq<Event>) {
    && (forall l :: l in s.info && s.info[l].granted ==>
          Held(h, s.info[l].trx, s.info[l].rec) == if s.info[l].exclusive then Exclusive else Shared)
    && (forall t, r :: !Held(h, t, r).Free? ==>
      exists l {:trigger Grants(s, l, t, r)} :: l in s.info && Grants(s, l, t, r))
  }

  /** Transactions that can still be granted locks have released none, and ids are not reused. */
  ghost predicate TwoPhase<L>(s: State<L>, h: seq<Event>) {
    forall k :: 0 <= k < |h| ==>
      h[k].trx <= s.last && (h[k].Release? && h[k].trx in s.owned ==> h[k].trx in s.committing)
  }

  ghost predicate Inv<L>(s: State<L>, h: seq<Event>) {
    Core(s) && Tracks(s, h) && TwoPhase(s, h) && Legal(h)
  }

  // ----- Granting one lock -----

  ghost function GrantLock<L>(s: State<L>, l: L): State<L>
    requires l in s.info
  {
    s.(info := s.info[l := s.info[l].(granted := true)])
  }

  ghost function GrantEvent<L>(s: State<L>, h: seq<Event>, l: L): seq<Event>
    requires l in s.info
  {
    if s.info[l].granted then h else h + [Grant(s.info[l].trx, s.info[l].rec, s.info[l].exclusive)]
  }

  /** The lock at position i may be granted: it is the head, or it and all before it are granted shared locks. */
  ghost predicate Grantable<L>(s: State<L>, r: Rec, i: nat) {
    && r in s.queue && i < |s.queue[r]| && s.queue[r][i] in s.info
    && (i > 0 ==>
          && !s.info[s.queue[r][i]].exclusive
          && forall j :: 0 <= j < i ==>
            s.queue[r][j] in s.info && s.info[s.queue[r][j]].granted && !s.info[s.queue[r][j]].exclusive)
  }

  lemma GrantCore<L>(s: State<L>, r: Rec, i: nat)
    requires Core(s) && Grantable(s, r, i)
    ensures Core(GrantLock(s, s.queue[r][i]))
  {
    var q := s.queue[r];
    var l := q[i];
    var s' := GrantLock(s, l);
    assert QueueOk(s, r);
    forall x | x in s'.queue ensures QueueOk(s', x) {
      assert QueueOk(s, x);
      var p := s.queue[x];
      forall a, b | 0 <= a < b < |p| ensures PairOk(s'.info[p[a]], s'.info[p[b]]) {
        assert PairOk(s.info[p[a]], s.info[p[b]]);
        if p[b] == l {
          assert s.info[l].rec == x;
          assert x == r && b == i;
        } else if p[a] == l {
          assert s.info[l].rec == x;
          assert x == r && a == i;
        }
      }
    }
    forall m | m in s'.info ensures LockOk(s', m) { assert LockOk(s, m); }
    forall t | t in s'.owned ensures OwnerOk(s', t) { assert OwnerOk(s, t); }
  }

  /** While the lock at i is not granted, what others hold on the record is compatible with it. */
  lemma GrantLegal<L>(s: State<L>, h: seq<Event>, r: Rec, i: nat)
    requires Inv(s, h) && Grantable(s, r, i) && !s.info[s.queue[r][i]].granted
    ensures LegalAt(GrantEvent(s, h, s.queue[r][i]), |h|)
  {
    var q := s.queue[r];
    var l := q[i];
    var v := s.info[l];
    var g := GrantEvent(s, h, l);
    assert QueueOk(s, r) && LockOk(s, l);
    assert g[..|h|] == h;
    assert forall j :: i < j < |q| ==> PairOk(v, s.info[q[j]]);
    forall u | u != v.trx ensures !Conflict(v.exclusive, Held(h, u, r)) {
      if !Held(h, u, r).Free? {
        var m :| m in s.info && Grants(s, m, u, r);
        assert LockOk(s, m);
        var j :| 0 <= j < |q| && q[j] == m;
        if j < i { assert PairOk(s.info[m], v); }
      }
    }
    assert OwnerOk(s, v.trx);
    forall j | 0 <= j < |h| && g[j].Release? ensures g[j].trx != v.trx {
      assert g[j] == h[j];
    }
  }

  lemma GrantTracks<L>(s: State<L>, h: seq<Event>, r: Rec, i: nat)
    requires Inv(s, h) && Grantable(s, r, i) && !s.info[s.queue[r][i]].granted
    ensures Tracks(GrantLock(s, s.queue[r][i]), GrantEvent(s, h, s.queue[r][i]))
  {
    var q := s.queue[r];
    var l := q[i];
    var v := s.info[l];
    var s', g := GrantLock(s, l), GrantEvent(s, h, l);
    assert QueueOk(s, r);
    assert g[..|g| - 1] == h && g[|g| - 1] == Grant(v.trx, r, v.exclusive);
    if !Held(h, v.trx, r).Free? {
      var m :| m in s.info && Grants(s, m, v.trx, r);
      NotTwice(s, r, i, m);
    }
    forall m | m in s'.info && s'.info[m].granted
      ensures Held(g, s'.info[m].trx, s'.info[m].rec) == if s'.info[m].exclusive then Exclusive else Shared
    {
      if m != l && s.info[m].trx == v.trx && s.info[m].rec == r { NotTwice(s, r, i, m); }
    }
    forall t, x | !Held(g, t, x).Free?
      ensures exists m {:trigger Grants(s', m, t, x)} :: m in s'.info && Grants(s', m, t, x) {
      if t == v.trx && x == r {
        assert Grants(s', l, t, x);
      } else {
        assert Held(g, t, x) == Held(h, t, x);
        var m :| m in s.info && Grants(s, m, t, x);
        assert Grants(s', m, t, x);
      }
    }
  }

  /** The owner of a grantable lock holds no other granted lock on the record. */
  lemma NotTwice<L>(s: State<L>, r: Rec, i: nat, m: L)
    requires Core(s) && Grantable(s, r, i) && !s.info[s.queue[r][i]].granted
    requires m in s.info && s.info[m].granted && s.info[m].rec == r
    ensures s.info[m].trx != s.info[s.queue[r][i]].trx
  {
    var q := s.queue[r];
    assert QueueOk(s, r) && LockOk(s, m);
    assert forall j :: i < j < |q| ==> PairOk(s.info[q[i]], s.info[q[j]]);
    var j :| 0 <= j < |q| && q[j] == m;
    if j < i { assert PairOk(s.info[m], s.info[q[i]]); }
  }

  /** Granting a grantable lock keeps the invariant; if it was granted already nothing happens. */
  lemma GrantStep<L>(s: State<L>, h: seq<Event>, r: Rec, i: nat)
    requires Inv(s, h) && Grantable(s, r, i)
    ensures Inv(GrantLock(s, s.queue[r][i]), GrantEvent(s, h, s.queue[r][i]))
  {
    var l := s.queue[r][i];
    GrantCore(s, r, i);
    if s.info[l].granted {
      assert GrantLock(s, l) == s;
    } else {
      var g := GrantEvent(s, h, l);
      GrantLegal(s, h, r, i);
      GrantTracks(s, h, r, i);
      LegalExtend(h, Grant(s.info[l].trx, s.info[l].rec, s.info[l].exclusive));
      assert QueueOk(s, r) && LockOk(s, l) && OwnerOk(s, s.info[l].trx);
    }
  }

  // ----- Waking the locks behind a released head -----

  /** Signals the shared locks from position i on, up to the first exclusive one. */
  ghost function WakeShared<L>(s: State<L>, h: seq<Event>, q: seq<L>, i: nat): (State<L>, seq<Event>)
    requires forall j :: 0 <= j < |q| ==> q[j] in s.info
    decreases |q| - i
  {
    if i >= |q| || s.info[q[i]].exclusive then (s, h)
    else WakeShared(GrantLock(s, q[i]), GrantEvent(s, h, q[i]), q, i + 1)
  }

  /** What a release at the head sets off: a waiting new head is signalled, and shared locks behind a shared head. */
  ghost function Wake<L>(s: State<L>, h: seq<Event>, r: Rec): (State<L>, seq<Event>)
    requires r in s.queue && s.queue[r] != [] && forall j :: 0 <= j < |s.queue[r]| ==> s.queue[r][j] in s.info
  {
    var q := s.queue[r];
    if s.info[q[0]].acquired then (s, h)
    else
      var s1, h1 := GrantLock(s, q[0]), GrantEvent(s, h, q[0]);
      if s.info[q[0]].exclusive then (s1, h1) else WakeShared(s1, h1, q, 1)
  }

  lemma {:induction false} WakeSharedStep<L>(s: State<L>, h: seq<Event>, r: Rec, i: nat)
    requires Inv(s, h) && r in s.queue && 0 < i && (forall j :: 0 <= j < |s.queue[r]| ==> s.queue[r][j] in s.info)
    requires forall j :: 0 <= j < i && j < |s.queue[r]| ==>
      s.info[s.queue[r][j]].granted && !s.info[s.queue[r][j]].exclusive
    ensures var w := WakeShared(s, h, s.queue[r], i);
      Inv(w.0, w.1) && SameButGranted(s, w.0) && h <= w.1
    decreases |s.queue[r]| - i
  {
    var q := s.queue[r];
    if i < |q| && !s.info[q[i]].exclusive {
      GrantStep(s, h, r, i);
      WakeSharedStep(GrantLock(s, q[i]), GrantEvent(s, h, q[i]), r, i + 1);
    }
  }

  /** Only grants were added. */
  ghost predicate SameButGranted<L>(s: State<L>, s': State<L>) {
    && s'.queue == s.queue && s'.owned == s.owned && s'.committing == s.committing && s'.last == s.last
    && s'.info.Keys == s.info.Keys
    && forall l :: l in s.info ==>
         s'.info[l] == s.info[l] || s'.info[l] == s.info[l].(granted := true)
  }

  lemma WakeStep<L>(s: State<L>, h: seq<Event>, r: Rec)
    requires Inv(s, h) && r in s.queue
    ensures s.queue[r] != [] && (forall j :: 0 <= j < |s.queue[r]| ==> s.queue[r][j] in s.info)
    ensures var w := Wake(s, h, r);
      && Inv(w.0, w.1) && SameButGranted(s, w.0) && h <= w.1
      && HeadGranted(w.0, r)
  {
    assert QueueOk(s, r);
    var q := s.queue[r];
    assert s.info[q[0]].acquired ==> s.info[q[0]].granted by { assert LockOk(s, q[0]); }
    hide Core, Tracks, TwoPhase, Legal, PairOk, LockOk;
    if !s.info[q[0]].acquired {
      GrantStep(s, h, r, 0);
      if !s.info[q[0]].exclusive {
        WakeSharedStep(GrantLock(s, q[0]), GrantEvent(s, h, q[0]), r, 1);
      }
    }
  }

  // ----- Release -----

  ghost predicate Full<L>(s: State<L>, h: seq<Event>) {
    Inv(s, h) && NoLostWakeup(s)
  }

  /** The transaction waits for nothing. */
  ghost predicate Running<L>(s: State<L>, t: int) {
    t in s.owned && forall i :: 0 <= i < |s.owned[t]| ==> s.owned[t][i] in s.info && s.info[s.owned[t][i]].granted
  }

  ghost function IndexOf<L>(q: seq<L>, l: L): (i: nat)
    requires l in q
    ensures i < |q| && q[i] == l && forall j :: 0 <= j < i ==> q[j] != l
  {
    if q[0] == l then 0 else 1 + IndexOf(q[1..], l)
  }

  /** t's oldest lock, which a commit releases next. */
  ghost predicate Releasable<L>(s: State<L>, l: L) {
    && l in s.info && s.info[l].rec in s.queue && l in s.queue[s.info[l].rec]
    && s.info[l].trx in s.owned && s.owned[s.info[l].trx] != [] && s.owned[s.info[l].trx][0] == l
    && Running(s, s.info[l].trx)
  }

  /** l leaves its queue and its owner. */
  ghost function RemoveLock<L>(s: State<L>, l: L): State<L>
    requires Releasable(s, l)
  {
    var v := s.info[l];
    var q := s.queue[v.rec];
    s.(queue := if |q| == 1 then s.queue - {v.rec} else s.queue[v.rec := Without(q, IndexOf(q, l))],
       info := s.info - {l},
       owned := s.owned[v.trx := s.owned[v.trx][1..]],
       committing := s.committing + {v.trx})
  }

  /** Taking an element out of a queue keeps the pairs of the others. */
  lemma WithoutPairs<L>(s: State<L>, q: seq<L>, i: nat)
    requires i < |q| && Distinct(q) && (forall j :: 0 <= j < |q| ==> q[j] in s.info)
    requires forall a, b :: 0 <= a < b < |q| ==> PairOk(s.info[q[a]], s.info[q[b]])
    ensures var p := Without(q, i);
      && Distinct(p) && q[i] !in p && (forall x :: x in p <==> x in q && x != q[i])
      && forall a, b :: 0 <= a < b < |p| ==> PairOk(s.info[p[a]], s.info[p[b]])
  {
    var p := Without(q, i);
    forall a, b | 0 <= a < b < |p| ensures PairOk(s.info[p[a]], s.info[p[b]]) {
      var x, y := if a < i then a else a + 1, if b < i then b else b + 1;
      assert p[a] == q[x] && p[b] == q[y];
    }
    forall x | x in q && x != q[i] ensures x in p {
      var j :| 0 <= j < |q| && q[j] == x;
      assert p[if j < i then j else j - 1] == x;
    }
  }

  lemma RemoveQueues<L>(s: State<L>, l: L, r: Rec)
    requires Core(s) && Releasable(s, l)
    ensures var s' := RemoveLock(s, l); r in s'.queue ==> QueueOk(s', r)
  {
    var s' := RemoveLock(s, l);
    if r in s'.queue {
      assert QueueOk(s, r) && LockOk(s, l);
      var q := s.queue[r];
      if r == s.info[l].rec {
        WithoutPairs(s, q, IndexOf(q, l));
      } else {
        assert l !in q;
      }
      assert forall i :: 0 <= i < |s'.queue[r]| ==> s'.queue[r][i] in s.queue[r] && s'.queue[r][i] != l;
    }
  }

  lemma RemoveCore<L>(s: State<L>, l: L)
    requires Core(s) && Releasable(s, l)
    ensures Core(RemoveLock(s, l))
  {
    var s' := RemoveLock(s, l);
    var v := s.info[l];
    forall r | r in s'.queue ensures QueueOk(s', r) { RemoveQueues(s, l, r); }
    forall m | m in s'.info ensures LockOk(s', m) {
      assert LockOk(s, m) && QueueOk(s, s.info[m].rec) && OwnerOk(s, v.trx);
      if s.info[m].rec == v.rec {
        var q := s.queue[v.rec];
        WithoutPairs(s, q, IndexOf(q, l));
        assert IndexOf(q, m) != IndexOf(q, l);
      }
      if s.info[m].trx == v.trx {
        var o := s.owned[v.trx];
        var i :| 0 <= i < |o| && o[i] == m;
        assert o[1..][i - 1] == m;
      }
    }
    forall t | t in s'.owned ensures OwnerOk(s', t) {
      assert OwnerOk(s, t);
      if t == v.trx {
        var o := s.owned[t];
        assert forall i :: 0 <= i < |s'.owned[t]| ==> s'.owned[t][i] == o[i + 1] && o[i + 1] != l;
      } else {
        assert forall i :: 0 <= i < |s.owned[t]| ==> s.owned[t][i] != l;
      }
    }
  }

  lemma RemoveTracks<L>(s: State<L>, h: seq<Event>, l: L)
    requires Inv(s, h) && Releasable(s, l)
    ensures var g := h + [Release(s.info[l].trx, s.info[l].rec)]; Tracks(RemoveLock(s, l), g) && LegalAt(g, |h|)
  {
    var s', v := RemoveLock(s, l), s.info[l];
    var g := h + [Release(v.trx, v.rec)];
    assert g[..|g| - 1] == h && g[..|h|] == h && g[|g| - 1] == Release(v.trx, v.rec);
    assert LockOk(s, l) && s.info[l].granted;
    forall m | m in s'.info && s'.info[m].granted
      ensures Held(g, s'.info[m].trx, s'.info[m].rec) == if s'.info[m].exclusive then Exclusive else Shared
    {
      if s.info[m].rec == v.rec { GrantedDiffer(s, l, m); }
    }
    forall t, x | !Held(g, t, x).Free?
      ensures exists m {:trigger Grants(s', m, t, x)} :: m in s'.info && Grants(s', m, t, x) {
      assert Held(g, t, x) == Held(h, t, x);
      var m :| m in s.info && Grants(s, m, t, x);
      assert Grants(s', m, t, x);
    }
  }

  /** Two granted locks on one record belong to different transactions. */
  lemma GrantedDiffer<L>(s: State<L>, l: L, m: L)
    requires Core(s) && l in s.info && m in s.info && l != m
    requires s.info[l].granted && s.info[m].granted && s.info[l].rec == s.info[m].rec
    ensures s.info[l].trx != s.info[m].trx && !s.info[l].exclusive && !s.info[m].exclusive
  {
    assert LockOk(s, l) && LockOk(s, m) && QueueOk(s, s.info[l].rec);
    var q := s.queue[s.info[l].rec];
    var i, j := IndexOf(q, l), IndexOf(q, m);
    if i < j { assert PairOk(s.info[q[i]], s.info[q[j]]); } else { assert PairOk(s.info[q[j]], s.info[q[i]]); }
  }

  lemma RemoveStep<L>(s: State<L>, h: seq<Event>, l: L)
    requires Inv(s, h) && Releasable(s, l)
    ensures Inv(RemoveLock(s, l), h + [Release(s.info[l].trx, s.info[l].rec)])
  {
    RemoveCore(s, l);
    RemoveTracks(s, h, l);
    LegalExtend(h, Release(s.info[l].trx, s.info[l].rec));
    assert OwnerOk(s, s.info[l].trx);
  }

  /** lock_release: the lock leaves, and if it was the head the locks behind it are signalled. */
  ghost function ReleaseState<L>(s: State<L>, h: seq<Event>, l: L): (State<L>, seq<Event>)
    requires Inv(s, h) && Releasable(s, l)
  {
    RemoveStep(s, h, l);
    var r := s.info[l].rec;
    var s1, h1 := RemoveLock(s, l), h + [Release(s.info[l].trx, r)];
    if r in s1.queue && IndexOf(s.queue[r], l) == 0 then
      WakeStep(s1, h1, r);
      Wake(s1, h1, r)
    else (s1, h1)
  }

  lemma ReleaseStep<L>(s: State<L>, h: seq<Event>, l: L)
    requires Full(s, h) && Releasable(s, l)
    ensures var z := ReleaseState(s, h, l); Full(z.0, z.1) && SameButGranted(RemoveLock(s, l), z.0)
  {
    RemoveStep(s, h, l);
    var r := s.info[l].rec;
    var s1, h1 := RemoveLock(s, l), h + [Release(s.info[l].trx, r)];
    var z := ReleaseState(s, h, l);
    var woken := r in s1.queue && IndexOf(s.queue[r], l) == 0;
    if woken { WakeStep(s1, h1, r); }
    forall x | x in z.0.queue ensures HeadGranted(z.0, x) {
      assert QueueOk(s1, x) && QueueOk(s, x) && HeadGranted(s, x);
      if x != r {
        assert s1.queue[x] == s.queue[x];
      } else if !woken {
        assert s1.queue[x][0] == s.queue[x][0];
      }
    }
  }

  // ----- Acquisition -----

  /** How lock_acquire answers: with a lock t already has, after turning it exclusive, or with a new lock. */
  datatype Decision<L> = Existing(lock: L) | Upgrade(lock: L) | Enqueue(acquired: bool)

  /** t's lock l already gives it what it asks for. */
  ghost predicate Covers<L>(s: State<L>, l: L, t: int, x: bool)
    requires l in s.info
  {
    s.info[l].trx == t && (!x || s.info[l].exclusive)
  }

  ghost predicate Known<L>(s: State<L>, q: seq<L>) {
    forall i :: 0 <= i < |q| ==> q[i] in s.info
  }

  /** Some other transaction has a lock in q, of any kind or an exclusive one. */
  ghost predicate Others<L>(s: State<L>, q: seq<L>, t: int, exclusiveOnly: bool)
    requires Known(s, q)
  {
    exists i :: 0 <= i < |q| && s.info[q[i]].trx != t && (exclusiveOnly ==> s.info[q[i]].exclusive)
  }

  /** The decision is determined by the queue q of the record. */
  ghost predicate Decides<L>(s: State<L>, q: seq<L>, t: int, x: bool, d: Decision<L>)
    requires Known(s, q)
  {
    match d
    case Existing(l) => l in q && Covers(s, l, t, x)
    case Upgrade(l) =>
      && x && l in q && s.info[l].trx == t && !s.info[l].exclusive
      && (forall i :: 0 <= i < |q| ==> !Covers(s, q[i], t, x))
      && !Others(s, q, t, false)
    case Enqueue(a) =>
      && (forall i :: 0 <= i < |q| ==> !Covers(s, q[i], t, x))
      && (q == [] || Others(s, q, t, false))
      && (a <==> q == [] || (s.info[q[|q| - 1]].acquired && !Others(s, q, t, !x)))
  }

  ghost function Queue<L>(s: State<L>, r: Rec): seq<L> {
    if r in s.queue then s.queue[r] else []
  }

  ghost predicate MayAsk<L>(s: State<L>, t: int) {
    Running(s, t) && t !in s.committing
  }

  /** A queue of one transaction's locks is a single lock, or contains an exclusive one. */
  lemma OneOwner<L>(s: State<L>, r: Rec, t: int)
    requires r in s.queue && QueueOk(s, r) && forall i :: 0 <= i < |s.queue[r]| ==> s.info[s.queue[r][i]].trx == t
    ensures |s.queue[r]| == 1 || s.info[s.queue[r][|s.queue[r]| - 1]].exclusive
  {
    var q := s.queue[r];
    if |q| > 1 { assert PairOk(s.info[q[0]], s.info[q[|q| - 1]]); }
  }

  /** With nobody else in the queue, t's one lock there can turn exclusive in place. */
  lemma UpgradeAlone<L>(s: State<L>, t: int, r: Rec, m: L)
    requires Core(s) && MayAsk(s, t) && Known(s, Queue(s, r)) && Decides(s, Queue(s, r), t, true, Upgrade(m))
    ensures r in s.queue && s.queue[r] == [m] && s.info[m].granted && s.info[m].rec == r
  {
    assert QueueOk(s, r);
    var q := s.queue[r];
    assert OwnerOk(s, t);
    forall i | 0 <= i < |q| ensures s.info[q[i]].granted { assert LockOk(s, q[i]); }
    forall i | 0 <= i < |q| ensures s.info[q[i]].trx == t && !s.info[q[i]].exclusive {
      assert !Covers(s, q[i], t, true);
    }
    OneOwner(s, r, t);
    assert LockOk(s, m);
  }

  ghost function Upgraded<L>(s: State<L>, m: L): State<L>
    requires m in s.info
  {
    s.(info := s.info[m := s.info[m].(exclusive := true)])
  }

  lemma UpgradeCore<L>(s: State<L>, r: Rec, m: L)
    requires Core(s) && NoLostWakeup(s) && r in s.queue && s.queue[r] == [m] && m in s.info && s.info[m].rec == r
    ensures Core(Upgraded(s, m)) && NoLostWakeup(Upgraded(s, m))
  {
    var s' := Upgraded(s, m);
    forall x | x in s'.queue ensures QueueOk(s', x) { UpgradeQueue(s, r, m, x); }
    forall l | l in s'.info ensures LockOk(s', l) { UpgradeLock(s, m, l); }
    hide QueueOk, LockOk;
    forall u | u in s'.owned ensures OwnerOk(s', u) { assert OwnerOk(s, u); }
    hide OwnerOk;
    forall x | x in s'.queue ensures HeadGranted(s', x) { assert HeadGranted(s, x); }
  }

  lemma UpgradeLock<L>(s: State<L>, m: L, l: L)
    requires Core(s) && m in s.info && l in s.info
    ensures LockOk(Upgraded(s, m), l)
  {
    assert LockOk(s, l);
  }

  lemma UpgradeQueue<L>(s: State<L>, r: Rec, m: L, x: Rec)
    requires Core(s) && r in s.queue && s.queue[r] == [m] && m in s.info && s.info[m].rec == r && x in s.queue
    ensures QueueOk(Upgraded(s, m), x)
  {
    assert QueueOk(s, x);
    hide Core;
    var s', q := Upgraded(s, m), s.queue[x];
    forall a, b | 0 <= a < b < |q| ensures PairOk(s'.info[q[a]], s'.info[q[b]]) {
      assert PairOk(s.info[q[a]], s.info[q[b]]) && s.info[q[a]].rec == x && s.info[q[b]].rec == x;
    }
  }

  lemma UpgradeTracks<L>(s: State<L>, h: seq<Event>, t: int, r: Rec, m: L)
    requires Core(s) && Tracks(s, h) && m in s.info && s.info[m].granted && s.info[m].trx == t && s.info[m].rec == r
    requires r in s.queue && s.queue[r] == [m]
    ensures Tracks(Upgraded(s, m), h + [Grant(t, r, true)])
    ensures forall u :: u != t ==> Held(h, u, r).Free?
  {
    var s', g := Upgraded(s, m), h + [Grant(t, r, true)];
    assert g[..|g| - 1] == h && g[|g| - 1] == Grant(t, r, true);
    forall l | l in s.info && s.info[l].rec == r ensures l == m { assert LockOk(s, l); }
    forall u, x | !Held(g, u, x).Free?
      ensures exists l {:trigger Grants(s', l, u, x)} :: l in s'.info && Grants(s', l, u, x) {
      if u == t && x == r {
        assert Grants(s', m, u, x);
      } else {
        assert Held(g, u, x) == Held(h, u, x);
        var l :| l in s.info && Grants(s, l, u, x);
        assert Grants(s', l, u, x);
      }
    }
  }

  lemma UpgradeStep<L>(s: State<L>, h: seq<Event>, t: int, r: Rec, m: L)
    requires Full(s, h) && MayAsk(s, t) && Known(s, Queue(s, r)) && Decides(s, Queue(s, r), t, true, Upgrade(m))
    ensures Full(Upgraded(s, m), h + [Grant(t, r, true)])
  {
    UpgradeAlone(s, t, r, m);
    UpgradeCore(s, r, m);
    UpgradeTracks(s, h, t, r, m);
    AskedGrant(s, h, t, r, true);
    assert OwnerOk(s, t);
  }

  /** A grant to a transaction that may ask is legal if nobody else holds the record in a conflicting mode. */
  lemma AskedGrant<L>(s: State<L>, h: seq<Event>, t: int, r: Rec, x: bool)
    requires Inv(s, h) && MayAsk(s, t) && forall u :: u != t ==> !Conflict(x, Held(h, u, r))
    ensures Legal(h + [Grant(t, r, x)]) && TwoPhase(s, h + [Grant(t, r, x)])
  {
    var g := h + [Grant(t, r, x)];
    assert g[..|h|] == h;
    assert OwnerOk(s, t);
    assert forall j :: 0 <= j < |h| ==> g[j] == h[j];
    LegalExtend(h, Grant(t, r, x));
  }

  // ----- Queueing a new lock -----

  ghost function Enqueued<L>(s: State<L>, t: int, r: Rec, x: bool, a: bool, l: L): State<L>
    requires t in s.owned
  {
    s.(queue := s.queue[r := Queue(s, r) + [l]],
       info := s.info[l := Info(r, t, x, a, a)],
       owned := s.owned[t := s.owned[t] + [l]])
  }

  /** The new lock fits behind every lock of the queue. */
  lemma NewPairs<L>(s: State<L>, t: int, r: Rec, x: bool, a: bool, i: nat)
    requires Core(s) && MayAsk(s, t) && Known(s, Queue(s, r)) && Decides(s, Queue(s, r), t, x, Enqueue(a))
    requires i < |Queue(s, r)|
    ensures PairOk(s.info[Queue(s, r)[i]], Info(r, t, x, a, a))
  {
    var q := Queue(s, r);
    assert QueueOk(s, r) && LockOk(s, q[i]) && LockOk(s, q[|q| - 1]) && OwnerOk(s, t);
    assert !Covers(s, q[i], t, x);
    if i < |q| - 1 { assert PairOk(s.info[q[i]], s.info[q[|q| - 1]]); }
  }

  lemma EnqueueQueue<L>(s: State<L>, t: int, r: Rec, x: bool, a: bool, l: L, y: Rec)
    requires Core(s) && NoLostWakeup(s) && MayAsk(s, t) && l !in s.info
    requires Known(s, Queue(s, r)) && Decides(s, Queue(s, r), t, x, Enqueue(a))
    ensures var s' := Enqueued(s, t, r, x, a, l); y in s'.queue ==> QueueOk(s', y) && HeadGranted(s', y)
  {
    var s' := Enqueued(s, t, r, x, a, l);
    var q := Queue(s, r);
    assert y in s.queue ==> QueueOk(s, y) && HeadGranted(s, y);
    if y == r {
      forall i, j | 0 <= i < j < |q| + 1 ensures PairOk(s'.info[s'.queue[r][i]], s'.info[s'.queue[r][j]]) {
        if j < |q| { assert PairOk(s.info[q[i]], s.info[q[j]]); } else { NewPairs(s, t, r, x, a, i); }
      }
    }
  }

  lemma EnqueueCore<L>(s: State<L>, t: int, r: Rec, x: bool, a: bool, l: L)
    requires Core(s) && NoLostWakeup(s) && MayAsk(s, t) && l !in s.info
    requires Known(s, Queue(s, r)) && Decides(s, Queue(s, r), t, x, Enqueue(a))
    ensures var s' := Enqueued(s, t, r, x, a, l); Core(s') && NoLostWakeup(s')
  {
    hide QueueOk, HeadGranted, LockOk, PairOk, Decides;
    var s' := Enqueued(s, t, r, x, a, l);
    forall y | y in s'.queue ensures QueueOk(s', y) && HeadGranted(s', y) { EnqueueQueue(s, t, r, x, a, l, y); }
    forall m | m in s'.info ensures LockOk(s', m) { EnqueueLock(s, t, r, x, a, l, m); }
    forall u | u in s'.owned ensures OwnerOk(s', u) { assert OwnerOk(s, u); }
  }

  lemma EnqueueLock<L>(s: State<L>, t: int, r: Rec, x: bool, a: bool, l: L, m: L)
    requires Core(s) && t in s.owned && l !in s.info
    ensures var s' := Enqueued(s, t, r, x, a, l); m in s'.info ==> LockOk(s', m)
  {
    var s' := Enqueued(s, t, r, x, a, l);
    assert s'.queue[r][|Queue(s, r)|] == l && s'.owned[t][|s.owned[t]|] == l;
    if m in s.info { assert LockOk(s, m); }
  }

  lemma EnqueueTracks<L>(s: State<L>, h: seq<Event>, t: int, r: Rec, x: bool, a: bool, l: L)
    requires Inv(s, h) && MayAsk(s, t) && l !in s.info
    requires Known(s, Queue(s, r)) && Decides(s, Queue(s, r), t, x, Enqueue(a))
    ensures Tracks(Enqueued(s, t, r, x, a, l), if a then h + [Grant(t, r, x)] else h)
    ensures a ==> forall u :: u != t ==> !Conflict(x, Held(h, u, r))
  {
    var s', g := Enqueued(s, t, r, x, a, l), if a then h + [Grant(t, r, x)] else h;
    if a { assert g[..|g| - 1] == h && g[|g| - 1] == Grant(t, r, x); }
    if a { AcquiredCompatible(s, h, t, r, x); }
    forall m | m in s'.info && s'.info[m].granted
      ensures Held(g, s'.info[m].trx, s'.info[m].rec) == if s'.info[m].exclusive then Exclusive else Shared
    {
      assert m != l ==> LockOk(s, m) && s'.info[m] == s.info[m];
    }
    forall u, y | !Held(g, u, y).Free?
      ensures exists m {:trigger Grants(s', m, u, y)} :: m in s'.info && Grants(s', m, u, y) {
      if a && u == t && y == r {
        assert Grants(s', l, u, y);
      } else {
        assert Held(g, u, y) == Held(h, u, y);
        var m :| m in s.info && Grants(s, m, u, y);
        assert Grants(s', m, u, y);
      }
    }
  }

  /** A lock that is acquired at once conflicts with nobody, and its owner held nothing on the record. */
  lemma AcquiredCompatible<L>(s: State<L>, h: seq<Event>, t: int, r: Rec, x: bool)
    requires Inv(s, h) && MayAsk(s, t) && Known(s, Queue(s, r)) && Decides(s, Queue(s, r), t, x, Enqueue(true))
    ensures Held(h, t, r).Free?
    ensures forall u :: u != t ==> !Conflict(x, Held(h, u, r))
  {
    var q := Queue(s, r);
    forall u | !Held(h, u, r).Free? ensures u != t && !Conflict(x, Held(h, u, r)) {
      var m :| m in s.info && Grants(s, m, u, r);
      assert LockOk(s, m);
      var i := IndexOf(q, m);
      assert !Covers(s, q[i], t, x);
    }
  }

  lemma EnqueueStep<L>(s: State<L>, h: seq<Event>, t: int, r: Rec, x: bool, a: bool, l: L)
    requires Full(s, h) && MayAsk(s, t) && l !in s.info
    requires Known(s, Queue(s, r)) && Decides(s, Queue(s, r), t, x, Enqueue(a))
    ensures Full(Enqueued(s, t, r, x, a, l), if a then h + [Grant(t, r, x)] else h)
  {
    EnqueueCore(s, t, r, x, a, l);
    EnqueueTracks(s, h, t, r, x, a, l);
    if a { AskedGrant(s, h, t, r, x); }
  }

  // ----- The whole of lock_acquire -----

  /** The state and the history after the decision. */
  ghost function Decided<L>(s: State<L>, h: seq<Event>, t: int, r: Rec, x: bool, d: Decision<L>, l: L)
    : (State<L>, seq<Event>)
    requires t in s.owned && (d.Upgrade? ==> d.lock in s.info)
  {
    match d
    case Existing(_) => (s, h)
    case Upgrade(m) => (Upgraded(s, m), h + [Grant(t, r, true)])
    case Enqueue(a) => (Enqueued(s, t, r, x, a, l), if a then h + [Grant(t, r, x)] else h)
  }

  lemma QueueKnown<L>(s: State<L>, r: Rec)
    requires Core(s)
    ensures Known(s, Queue(s, r))
  {
    assert r in s.queue ==> QueueOk(s, r);
  }

  lemma AcquireStep<L>(s: State<L>, h: seq<Event>, t: int, r: Rec, x: bool, d: Decision<L>, l: L)
    requires Full(s, h) && MayAsk(s, t) && (d.Enqueue? ==> l !in s.info)
    requires Known(s, Queue(s, r)) && Decides(s, Queue(s, r), t, x, d)
    ensures d.Upgrade? ==> d.lock in s.info
    ensures var z := Decided(s, h, t, r, x, d, l); Full(z.0, z.1)
  {
    match d
    case Existing(_) =>
    case Upgrade(m) => UpgradeStep(s, h, t, r, m);
    case Enqueue(a) => EnqueueStep(s, h, t, r, x, a, l);
  }

  /** The decision is unique. */
  lemma DecisionUnique<L>(s: State<L>, t: int, r: Rec, x: bool, d: Decision<L>, e: Decision<L>)
    requires Core(s) && MayAsk(s, t) && Known(s, Queue(s, r))
    requires Decides(s, Queue(s, r), t, x, d) && Decides(s, Queue(s, r), t, x, e)
    ensures d == e
  {
    var q := Queue(s, r);
    assert d.Existing? ==> q[IndexOf(q, d.lock)] == d.lock;
    assert e.Existing? ==> q[IndexOf(q, e.lock)] == e.lock;
    if d.Existing? && e.Existing? {
      assert OwnerOk(s, t) && LockOk(s, d.lock) && LockOk(s, e.lock) && QueueOk(s, r);
      if d.lock != e.lock { GrantedDiffer(s, d.lock, e.lock); }
    } else if d.Upgrade? && e.Upgrade? {
      UpgradeAlone(s, t, r, d.lock);
    }
  }
}

/**
 Histories of a locking scheduler: which transaction was granted, used and gave up which record, in order.
 A history is legal if grants are compatible with what others hold, accesses happen under a held lock, and
 no transaction is granted anything after its first release. Legal histories are conflict-serializable.
 */
module LockHistory {
  /** A record: its table, its page and its key. */
  datatype Rec = Rec(table: int, page: int, key: int)

  datatype Event =
    | Grant(trx: int, rec: Rec, exclusive: bool)
    | Access(trx: int, rec: Rec, write: bool)
    | Release(trx: int, rec: Rec)

  datatype Hold = Free | Shared | Exclusive

  /** What t holds on r after the history h. A shared grant never weakens an exclusive hold. */
  ghost function Held(h: seq<Event>, t: int, r: Rec): Hold {
    if h == [] then Free
    else
      var before := Held(h[..|h| - 1], t, r);
      match h[|h| - 1]
      case Grant(u, q, x) =>
        if u != t || q != r then before else if x || before.Exclusive? then Exclusive else Shared
      case Access(_, _, _) => before
      case Release(u, q) => if u == t && q == r then Free else before
  }

  ghost predicate Conflict(x: bool, hold: Hold) {
    hold.Exclusive? || (x && hold.Shared?)
  }

  /** The scheduler's rule for the event at position k. */
  ghost predicate LegalAt(h: seq<Event>, k: nat)
    requires k < |h|
  {
    match h[k]
    case Grant(t, r, x) =>
      && (forall u {:trigger Held(h[..k], u, r)} :: u != t ==> !Conflict(x, Held(h[..k], u, r)))
      && (forall j :: 0 <= j < k && h[j].Release? ==> h[j].trx != t)
    case Access(t, r, w) => if w then Held(h[..k], t, r).Exclusive? else !Held(h[..k], t, r).Free?
    case Release(t, r) => !Held(h[..k], t, r).Free?
  }

  ghost predicate Legal(h: seq<Event>) {
    forall k :: 0 <= k < |h| ==> LegalAt(h, k)
  }

  lemma LegalExtend(h: seq<Event>, e: Event)
    requires Legal(h) && LegalAt(h + [e], |h|)
    ensures Legal(h + [e])
  {
    var g := h + [e];
    forall k | 0 <= k < |g| ensures LegalAt(g, k) {
      if k < |h| {
        assert LegalAt(h, k);
        assert g[..k] == h[..k];
      }
    }
  }

  // ----- Holding and conflicts -----

  /** No two transactions ever hold a record in conflicting modes. */
  lemma {:induction false} HoldsCompatible(h: seq<Event>, t: int, u: int, r: Rec)
    requires Legal(h) && t != u
    ensures Held(h, t, r).Exclusive? ==> Held(h, u, r).Free?
  {
    if h != [] {
      var n := |h| - 1;
      var g := h[..n];
      assert Legal(g) by { PrefixLegal(h, n); }
      HoldsCompatible(g, t, u, r);
      HoldsCompatible(g, u, t, r);
      assert LegalAt(h, n);
      assert Held(g, u, r) == Held(h[..n], u, r) && Held(g, t, r) == Held(h[..n], t, r);
    }
  }

  lemma PrefixLegal(h: seq<Event>, n: nat)
    requires Legal(h) && n <= |h|
    ensures Legal(h[..n])
  {
    forall k | 0 <= k < n ensures LegalAt(h[..n], k) {
      assert LegalAt(h, k);
      assert h[..n][..k] == h[..k];
    }
  }

  /** Between two points at which a transaction stops holding a record there is a release of it. */
  lemma {:induction false} LostByRelease(h: seq<Event>, i: nat, j: nat, t: int, r: Rec) returns (k: nat)
    requires i <= j <= |h| && !Held(h[..i], t, r).Free?
    requires Held(h[..j], t, r).Free?
    ensures i <= k < j && h[k] == Release(t, r)
  {
    assert i != j;
    assert h[..j][..j - 1] == h[..j - 1];
    if h[j - 1] == Release(t, r) {
      k := j - 1;
    } else {
      k := LostByRelease(h, i, j - 1, t, r);
    }
  }

  /** Between a point where t does not hold r exclusively and one where it does there is an exclusive grant. */
  lemma {:induction false} GainedByGrant(h: seq<Event>, i: nat, j: nat, t: int, r: Rec, x: bool) returns (k: nat)
    requires i <= j <= |h|
    requires if x then !Held(h[..i], t, r).Exclusive? else Held(h[..i], t, r).Free?
    requires if x then Held(h[..j], t, r).Exclusive? else !Held(h[..j], t, r).Free?
    ensures i <= k < j && h[k].Grant? && h[k].trx == t && h[k].rec == r && (x ==> h[k].exclusive)
  {
    assert i != j;
    assert h[..j][..j - 1] == h[..j - 1];
    if h[j - 1].Grant? && h[j - 1].trx == t && h[j - 1].rec == r && (x ==> h[j - 1].exclusive) {
      k := j - 1;
    } else {
      k := GainedByGrant(h, i, j - 1, t, r, x);
    }
  }

  // ----- Serializability -----

  /** Two accesses of different transactions to one record, not both reads, the first one by t. */
  ghost predicate ConflictAt(h: seq<Event>, t: int, u: int, i: nat, j: nat) {
    && i < j < |h| && t != u
    && h[i].Access? && h[j].Access? && h[i].trx == t && h[j].trx == u
    && h[i].rec == h[j].rec && (h[i].write || h[j].write)
  }

  /** t must come before u in any equivalent serial order. */
  ghost predicate Precedes(h: seq<Event>, t: int, u: int) {
    exists i: nat, j: nat :: ConflictAt(h, t, u, i, j)
  }

  /** The position after t's last grant: its place in the serial order. */
  ghost function LockPoint(h: seq<Event>, t: int): nat {
    if h == [] then 0
    else if h[|h| - 1].Grant? && h[|h| - 1].trx == t then |h|
    else LockPoint(h[..|h| - 1], t)
  }

  lemma {:induction false} LockPointIsLast(h: seq<Event>, t: int, k: nat)
    requires k < |h| && h[k].Grant? && h[k].trx == t
    ensures LockPoint(h, t) > k
  {
    if k < |h| - 1 { LockPointIsLast(h[..|h| - 1], t, k); }
  }

  /** All grants of t come before its first release. */
  lemma {:induction false} LockPointBeforeRelease(h: seq<Event>, t: int, k: nat)
    requires Legal(h) && k < |h| && h[k].Release? && h[k].trx == t
    ensures LockPoint(h, t) <= k
  {
    var n := |h| - 1;
    assert LegalAt(h, n);
    if k < n {
      PrefixLegal(h, n);
      LockPointBeforeRelease(h[..n], t, k);
    } else {
      LockPointBound(h[..n], t);
    }
  }

  lemma {:induction false} LockPointBound(h: seq<Event>, t: int)
    ensures LockPoint(h, t) <= |h|
  {
    if h != [] { LockPointBound(h[..|h| - 1], t); }
  }

  /** Conflicting accesses follow the order of the lock points. */
  lemma PrecedesByLockPoint(h: seq<Event>, t: int, u: int)
    requires Legal(h) && Precedes(h, t, u)
    ensures LockPoint(h, t) < LockPoint(h, u)
  {
    var i: nat, j: nat :| ConflictAt(h, t, u, i, j);
    var r := h[i].rec;
    assert LegalAt(h, i) && LegalAt(h, j);
    // At j, u holds r in a mode that excludes what t held at i; so t lost r in between, and u gained it after.
    PrefixLegal(h, i);
    PrefixLegal(h, j);
    HoldsCompatible(h[..i], t, u, r);
    HoldsCompatible(h[..i], u, t, r);
    HoldsCompatible(h[..j], t, u, r);
    HoldsCompatible(h[..j], u, t, r);
    var k, g := HandOver(h, i, j, t, u, r, h[i].write, h[j].write);
    LockPointBeforeRelease(h, t, k);
    LockPointIsLast(h, u, g);
  }

  /** t gives r up before u is granted the mode that conflicts with t's. */
  lemma {:induction false} HandOver(h: seq<Event>, i: nat, j: nat, t: int, u: int, r: Rec, wt: bool, wu: bool)
    returns (k: nat, g: nat)
    requires Legal(h) && i < j <= |h| && t != u && (wt || wu)
    requires if wt then Held(h[..i], t, r).Exclusive? else !Held(h[..i], t, r).Free?
    requires if wu then Held(h[..j], u, r).Exclusive? else !Held(h[..j], u, r).Free?
    ensures i <= k < g < j && h[k] == Release(t, r) && h[g].Grant? && h[g].trx == u
  {
    PrefixLegal(h, i);
    HoldsCompatible(h[..i], t, u, r);
    HoldsCompatible(h[..i], u, t, r);
    // The last grant that brought u into its mode: before it, u was not yet in conflict with t's hold at i.
    g := GainedByGrant(h, i, j, u, r, wu);
    assert LegalAt(h, g);
    assert !Conflict(h[g].exclusive, Held(h[..g], t, r));
    if Held(h[..g], t, r).Free? {
      k := LostByRelease(h, i, g, t, r);
    } else {
      // t still holds r, shared, and the grant was shared: so t wrote under an exclusive hold, and lost it.
      assert wt && !h[g].exclusive;
      k := LostExclusive(h, i, g, t, r);
    }
  }

  /** An exclusive hold that has become a shared one was released in between. */
  lemma {:induction false} LostExclusive(h: seq<Event>, i: nat, j: nat, t: int, r: Rec) returns (k: nat)
    requires i <= j <= |h| && Held(h[..i], t, r).Exclusive? && !Held(h[..j], t, r).Exclusive?
    ensures i <= k < j && h[k] == Release(t, r)
  {
    assert i != j;
    assert h[..j][..j - 1] == h[..j - 1];
    if h[j - 1] == Release(t, r) {
      k := j - 1;
    } else {
      k := LostExclusive(h, i, j - 1, t, r);
    }
  }

  /** A path of the precedence relation. */
  ghost predicate Path(h: seq<Event>, ts: seq<int>) {
    |ts| >= 2 && forall i :: 0 <= i < |ts| - 1 ==> Precedes(h, ts[i], ts[i + 1])
  }

  lemma {:induction false} PathIncreases(h: seq<Event>, ts: seq<int>)
    requires Legal(h) && Path(h, ts)
    ensures LockPoint(h, ts[0]) < LockPoint(h, ts[|ts| - 1])
  {
    var n := |ts| - 1;
    PrecedesByLockPoint(h, ts[n - 1], ts[n]);
    if n >= 2 { PathIncreases(h, ts[..n]); }
  }

  /** Conflict-serializability: the precedence relation of a legal history has no cycle. */
  lemma Serializable(h: seq<Event>, ts: seq<int>)
    requires Legal(h) && Path(h, ts)
    ensures ts[0] != ts[|ts| - 1]
  {
    PathIncreases(h, ts);
  }
}

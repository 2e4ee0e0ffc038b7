/**
 The lock table of lock_table.cc and the transaction table of trx.cc, as linked objects updated in place.
 A lock stands in the queue of its record (prev, next) and in the list of its transaction (trxPrev, trxNext).
 The class at the end keeps the state of module LockState as a ghost field; its methods are the sections that
 the source runs under its latches.
 */
module LockTable {
  import opened Sequences
  import opened LockHistory
  import opened LockState
  import opened LockRuns
  import opened LockCommit
  import opened LockReach
  import opened LockAnswers

  type Mode = m: int | 0 <= m <= 1

  const SHARED: Mode := 0
  const EXCLUSIVE: Mode := 1

  class HashEntry {
    const tableId: int
    const pageId: int
    var headMap: map<int, Lock>
    var tailMap: map<int, Lock>

    constructor (tableId: int, pageId: int)
      ensures this.tableId == tableId && this.pageId == pageId && headMap == map[] && tailMap == map[]
    {
      this.tableId, this.pageId, headMap, tailMap := tableId, pageId, map[], map[];
    }
  }

  class Lock {
    var prev: Lock?
    var next: Lock?
    const sentinel: HashEntry
    const recordId: int
    var lockMode: Mode
    var trxPrev: Lock?
    var trxNext: Lock?
    const trxId: int
    var isAcquired: bool
    var waiting: bool  // the owner's thread waits on the lock's condition variable

    constructor (sentinel: HashEntry, recordId: int, lockMode: Mode, trxId: int, isAcquired: bool)
      ensures prev == null && next == null && trxPrev == null && trxNext == null
      ensures this.sentinel == sentinel && this.recordId == recordId && this.lockMode == lockMode && this.trxId == trxId
      ensures this.isAcquired == isAcquired && !waiting
    {
      prev, next, trxPrev, trxNext := null, null, null, null;
      this.sentinel, this.recordId, this.lockMode, this.trxId := sentinel, recordId, lockMode, trxId;
      this.isAcquired, waiting := isAcquired, false;
    }

    ghost function Value(): Info
      reads `lockMode, `isAcquired, `waiting
    {
      Info(Rec(sentinel.tableId, sentinel.pageId, recordId), trxId, lockMode == EXCLUSIVE, isAcquired, !waiting)
    }
  }

  class TrxEntry {
    const trxId: int
    var first: Lock?
    var last: Lock?

    constructor (trxId: int)
      ensures this.trxId == trxId && first == null && last == null
    {
      this.trxId, first, last := trxId, null, null;
    }
  }

  type Table = map<(int, int), HashEntry>
  type TrxTable = map<int, TrxEntry?>

  // ----- What the objects say -----

  datatype Link = Link(prev: Lock?, next: Lock?)

  datatype Ends = Ends(heads: map<int, Lock>, tails: map<int, Lock>)

  datatype Span = Span(first: Lock?, last: Lock?)

  ghost function Infos(locks: set<Lock>): map<Lock, Info>
    reads locks`lockMode, locks`isAcquired, locks`waiting
  {
    map l | l in locks :: l.Value()
  }

  /** The neighbours of the locks in their queues. */
  ghost function Links(locks: set<Lock>): map<Lock, Link>
    reads locks`prev, locks`next
  {
    map l | l in locks :: Link(l.prev, l.next)
  }

  /** The neighbours of the locks in the lists of their transactions. */
  ghost function TrxLinks(locks: set<Lock>): map<Lock, Link>
    reads locks`trxPrev, locks`trxNext
  {
    map l | l in locks :: Link(l.trxPrev, l.trxNext)
  }

  ghost function EndsOf(table: Table): map<(int, int), Ends>
    reads table.Values`headMap, table.Values`tailMap
  {
    map k | k in table :: Ends(table[k].headMap, table[k].tailMap)
  }

  /** The live transactions; the entry of a finished one is null. */
  ghost function Spans(trxTable: TrxTable): map<int, Span>
    reads trxTable.Values`first, trxTable.Values`last
  {
    map t | t in trxTable && trxTable[t] != null :: Span(trxTable[t].first, trxTable[t].last)
  }

  // ----- The objects against the state -----

  ghost function At(q: seq<Lock>, k: int): Lock? {
    if 0 <= k < |q| then q[k] else null
  }

  ghost predicate Chained(links: map<Lock, Link>, q: seq<Lock>) {
    forall i {:trigger q[i]} :: 0 <= i < |q| ==> q[i] in links && links[q[i]] == Link(At(q, i - 1), At(q, i + 1))
  }

  ghost predicate QueuesIn(links: map<Lock, Link>, queue: map<Rec, seq<Lock>>) {
    forall r {:trigger queue[r]} :: r in queue ==> Chained(links, queue[r])
  }

  /** A transaction's list. While it commits, the first lock's trxPrev is not kept up to date. */
  ghost predicate Listed(links: map<Lock, Link>, o: seq<Lock>, committing: bool) {
    forall i {:trigger o[i]} :: 0 <= i < |o| ==>
      && o[i] in links && links[o[i]].next == At(o, i + 1)
      && (i > 0 || !committing ==> links[o[i]].prev == At(o, i - 1))
  }

  ghost predicate OwnersIn(links: map<Lock, Link>, owned: map<int, seq<Lock>>, committing: set<int>) {
    forall t {:trigger owned[t]} :: t in owned ==> Listed(links, owned[t], t in committing)
  }

  ghost function QueueIn(queue: map<Rec, seq<Lock>>, r: Rec): seq<Lock> {
    if r in queue then queue[r] else []
  }

  /** The head and tail maps of one page know the queue q of the key. */
  ghost predicate EndsAt(ends: Ends, q: seq<Lock>, key: int) {
    if q == [] then key !in ends.heads && key !in ends.tails
    else key in ends.heads && ends.heads[key] == q[0] && key in ends.tails && ends.tails[key] == q[|q| - 1]
  }

  ghost predicate EndsIn(ends: map<(int, int), Ends>, queue: map<Rec, seq<Lock>>) {
    && (forall k, key :: k in ends ==> EndsAt(ends[k], QueueIn(queue, Rec(k.0, k.1, key)), key))
    && (forall r {:trigger queue[r]} :: r in queue ==> queue[r] != [] && (r.table, r.page) in ends)
  }

  ghost predicate SpanAt(span: Span, o: seq<Lock>) {
    if o == [] then span.first == null else span == Span(o[0], o[|o| - 1])
  }

  /** While a transaction commits, its entry is not kept up to date. */
  ghost predicate SpansIn(spans: map<int, Span>, owned: map<int, seq<Lock>>, committing: set<int>) {
    && spans.Keys == owned.Keys
    && (forall t {:trigger owned[t]} :: t in owned && t !in committing ==> SpanAt(spans[t], owned[t]))
  }

  /** The entries stand under their own identifiers. */
  ghost predicate TableIds(table: Table) {
    forall k {:trigger table[k]} :: k in table ==> table[k].tableId == k.0 && table[k].pageId == k.1
  }

  ghost predicate TrxIds(trxTable: TrxTable) {
    forall t {:trigger trxTable[t]} :: t in trxTable ==> t >= 1 && (trxTable[t] != null ==> trxTable[t].trxId == t)
  }

  ghost predicate Sentinels(locks: set<Lock>, table: Table) {
    forall l :: l in locks ==>
      && (l.sentinel.tableId, l.sentinel.pageId) in table
      && table[(l.sentinel.tableId, l.sentinel.pageId)] == l.sentinel
  }

  ghost predicate Represents(table: Table, trxTable: TrxTable, s: State<Lock>)
    reads s.info.Keys, table.Values, trxTable.Values
  {
    && TableIds(table) && TrxIds(trxTable) && Sentinels(s.info.Keys, table)
    && Infos(s.info.Keys) == s.info
    && QueuesIn(Links(s.info.Keys), s.queue) && EndsIn(EndsOf(table), s.queue)
    && OwnersIn(TrxLinks(s.info.Keys), s.owned, s.committing) && SpansIn(Spans(trxTable), s.owned, s.committing)
  }

  lemma Parts(table: Table, trxTable: TrxTable, s: State<Lock>)
    requires Represents(table, trxTable, s)
    ensures TableIds(table) && TrxIds(trxTable) && Sentinels(s.info.Keys, table) && Infos(s.info.Keys) == s.info
    ensures QueuesIn(Links(s.info.Keys), s.queue) && EndsIn(EndsOf(table), s.queue)
    ensures OwnersIn(TrxLinks(s.info.Keys), s.owned, s.committing) && SpansIn(Spans(trxTable), s.owned, s.committing)
  {}

  lemma Whole(table: Table, trxTable: TrxTable, s: State<Lock>, locks: set<Lock>)
    requires s.info.Keys == locks
    requires TableIds(table) && TrxIds(trxTable) && Sentinels(locks, table) && Infos(locks) == s.info
    requires QueuesIn(Links(locks), s.queue) && EndsIn(EndsOf(table), s.queue)
    requires OwnersIn(TrxLinks(locks), s.owned, s.committing) && SpansIn(Spans(trxTable), s.owned, s.committing)
    ensures Represents(table, trxTable, s)
  {}

  /** No lock stands twice in the lists of m. */
  ghost predicate Apart<K(!new), L>(m: map<K, seq<L>>) {
    && (forall r {:trigger m[r]} :: r in m ==> Distinct(m[r]))
    && (forall r, x, i, j {:trigger m[r][i], m[x][j]} ::
          r in m && x in m && r != x && 0 <= i < |m[r]| && 0 <= j < |m[x]| ==>
          m[r][i] != m[x][j])
  }

  lemma CoreApart(s: State<Lock>)
    requires Core(s)
    ensures Apart(s.queue) && Apart(s.owned)
  {
    forall r | r in s.queue ensures QueueOk(s, r) {}
    forall t | t in s.owned ensures OwnerOk(s, t) {}
  }

  // ----- Leaving a queue -----

  /** The links once p and n have become neighbours. */
  ghost function Joined(links: map<Lock, Link>, p: Lock?, n: Lock?): map<Lock, Link> {
    map m | m in links :: Link(if m == n then p else links[m].prev, if m == p then n else links[m].next)
  }

  /** The map of the queues' ends after a lock has left whose neighbours are ahead, towards the end, and behind. */
  ghost function EndWithout(end: map<int, Lock>, key: int, ahead: Lock?, behind: Lock?): map<int, Lock> {
    if ahead != null then end
    else if behind == null then end - {key}
    else end[key := behind]
  }

  /** l leaves its queue: its neighbours close up around it, and the ends of the queue are updated. */
  method Unlink(l: Lock, ghost locks: set<Lock>)
    requires (l.prev != null ==> l.prev in locks && l.prev != l) && (l.next != null ==> l.next in locks && l.next != l)
    modifies locks`prev, locks`next, l.sentinel`headMap, l.sentinel`tailMap
    ensures l.prev == old(l.prev) && l.next == old(l.next)
    ensures Links(locks) == Joined(old(Links(locks)), l.prev, l.next)
    ensures l.sentinel.headMap == EndWithout(old(l.sentinel.headMap), l.recordId, l.prev, l.next)
    ensures l.sentinel.tailMap == EndWithout(old(l.sentinel.tailMap), l.recordId, l.next, l.prev)
  {
    var entry := l.sentinel;
    if l.prev == null && l.next == null {
      entry.headMap := entry.headMap - {l.recordId};
      entry.tailMap := entry.tailMap - {l.recordId};
    } else if l.prev != null && l.next == null {
      entry.tailMap := entry.tailMap[l.recordId := l.prev];
      l.prev.next := null;
    } else if l.prev == null && l.next != null {
      entry.headMap := entry.headMap[l.recordId := l.next];
      l.next.prev := null;
    } else {
      l.prev.next := l.next;
      l.next.prev := l.prev;
    }
  }

  /** Closing up around q[i] gives every other element its neighbours in the queue without q[i]. */
  lemma NeighboursWithout(q: seq<Lock>, i: nat, k: nat)
    requires Distinct(q) && i < |q| && k < |q| - 1
    ensures
      var p := Without(q, i);
      var x := if k < i then k else k + 1;
      && p[k] == q[x] && x != i
      && At(p, k - 1) == (if q[x] == At(q, i + 1) then At(q, i - 1) else At(q, x - 1))
      && At(p, k + 1) == (if q[x] == At(q, i - 1) then At(q, i + 1) else At(q, x + 1))
  {
    var x := if k < i then k else k + 1;
    assert i + 1 < |q| && x != i + 1 ==> q[x] != q[i + 1];
    assert i > 0 && x != i - 1 ==> q[x] != q[i - 1];
  }

  lemma ChainWithout(links: map<Lock, Link>, q: seq<Lock>, i: nat)
    requires Chained(links, q) && Distinct(q) && i < |q|
    ensures Chained(Joined(links, At(q, i - 1), At(q, i + 1)) - {q[i]}, Without(q, i))
  {
    hide Distinct, At;
    var p, links' := Without(q, i), Joined(links, At(q, i - 1), At(q, i + 1));
    forall k | 0 <= k < |p| ensures p[k] in links' && links'[p[k]] == Link(At(p, k - 1), At(p, k + 1)) && p[k] != q[i] {
      NeighboursWithout(q, i, k);
      var x := if k < i then k else k + 1;
      assert q[x] in links && links[q[x]] == Link(At(q, x - 1), At(q, x + 1));
      assert q[x] != q[i] by { DistinctAt(q, x, i); }
    }
  }

  ghost function QueueWithout(queue: map<Rec, seq<Lock>>, r: Rec, i: nat): map<Rec, seq<Lock>>
    requires r in queue && i < |queue[r]|
  {
    if |queue[r]| == 1 then queue - {r} else queue[r := Without(queue[r], i)]
  }

  lemma OtherChain(links: map<Lock, Link>, q: seq<Lock>, i: nat, p: seq<Lock>)
    requires Chained(links, p) && i < |q|
    requires forall k, j :: 0 <= k < |p| && 0 <= j < |q| ==> p[k] != q[j]
    ensures Chained(Joined(links, At(q, i - 1), At(q, i + 1)) - {q[i]}, p)
  {}

  lemma QueuesWithout(links: map<Lock, Link>, queue: map<Rec, seq<Lock>>, r: Rec, i: nat)
    requires Apart(queue) && QueuesIn(links, queue) && r in queue && i < |queue[r]|
    ensures var q := queue[r];
      QueuesIn(Joined(links, At(q, i - 1), At(q, i + 1)) - {q[i]}, QueueWithout(queue, r, i))
  {
    hide Chained, At, Joined;
    var q, queue' := queue[r], QueueWithout(queue, r, i);
    var links' := Joined(links, At(q, i - 1), At(q, i + 1)) - {q[i]};
    forall x | x in queue' ensures Chained(links', queue'[x]) {
      if x == r { ChainWithout(links, q, i); } else { OtherChain(links, q, i, queue[x]); }
    }
  }

  ghost function EndsMinus(e: Ends, q: seq<Lock>, i: nat, key: int): Ends {
    Ends(EndWithout(e.heads, key, At(q, i - 1), At(q, i + 1)), EndWithout(e.tails, key, At(q, i + 1), At(q, i - 1)))
  }

  lemma EndsMinusAt(e: Ends, q: seq<Lock>, i: nat, key: int)
    requires EndsAt(e, q, key) && i < |q|
    ensures EndsAt(EndsMinus(e, q, i, key), Without(q, i), key)
  {}

  lemma EndsMinusOther(e: Ends, q: seq<Lock>, i: nat, key: int, p: seq<Lock>, other: int)
    requires EndsAt(e, p, other) && other != key
    ensures EndsAt(EndsMinus(e, q, i, key), p, other)
  {}

  lemma EndsWithout(ends: map<(int, int), Ends>, queue: map<Rec, seq<Lock>>, r: Rec, i: nat)
    requires EndsIn(ends, queue) && r in queue && i < |queue[r]|
    ensures (r.table, r.page) in ends
    ensures EndsIn(ends[(r.table, r.page) := EndsMinus(ends[(r.table, r.page)], queue[r], i, r.key)],
      QueueWithout(queue, r, i))
  {
    hide EndsMinus, EndsAt, EndWithout;
    var q, e := queue[r], ends[(r.table, r.page)];
    var ends', queue' := ends[(r.table, r.page) := EndsMinus(e, q, i, r.key)], QueueWithout(queue, r, i);
    forall k, key | k in ends' ensures EndsAt(ends'[k], QueueIn(queue', Rec(k.0, k.1, key)), key) {
      var p := QueueIn(queue, Rec(k.0, k.1, key));
      assert EndsAt(ends[k], p, key);
      if k == (r.table, r.page) {
        if key == r.key { EndsMinusAt(e, q, i, key); } else { EndsMinusOther(e, q, i, r.key, p, key); }
      }
    }
  }

  /** l leaves the queue of its record. */
  method LeaveQueue(l: Lock, ghost table: Table, ghost queue: map<Rec, seq<Lock>>, ghost r: Rec, ghost i: nat,
      ghost locks: set<Lock>)
    requires Apart(queue) && QueuesIn(Links(locks), queue) && EndsIn(EndsOf(table), queue)
    requires r in queue && i < |queue[r]| && queue[r][i] == l
    requires (r.table, r.page) in table && table[(r.table, r.page)] == l.sentinel && r.key == l.recordId
    requires TableIds(table)
    modifies locks`prev, locks`next, l.sentinel`headMap, l.sentinel`tailMap
    ensures QueuesIn(Links(locks - {l}), QueueWithout(queue, r, i)) && EndsIn(EndsOf(table), QueueWithout(queue, r, i))
    ensures l.prev == At(queue[r], i - 1) && l.next == At(queue[r], i + 1)
  {
    hide Apart, QueuesIn, EndsIn, Chained, Joined, EndWithout, QueueWithout, At, Distinct;
    ghost var q, links, ends := queue[r], Links(locks), EndsOf(table);
    LinkOf(l, queue, r, i, locks);
    QueuesWithout(links, queue, r, i);
    EndsWithout(ends, queue, r, i);
    Unlink(l, locks);
    assert Links(locks - {l}) == Links(locks) - {l};
    assert EndsOf(table) == ends[(r.table, r.page) := Ends(l.sentinel.headMap, l.sentinel.tailMap)];
  }

  lemma LinkOf(l: Lock, queue: map<Rec, seq<Lock>>, r: Rec, i: nat, locks: set<Lock>)
    requires Apart(queue) && QueuesIn(Links(locks), queue) && r in queue && i < |queue[r]| && queue[r][i] == l
    ensures l in locks && l.prev == At(queue[r], i - 1) && l.next == At(queue[r], i + 1)
    ensures (l.prev != null ==> l.prev in locks && l.prev != l) && (l.next != null ==> l.next in locks && l.next != l)
  {
    var q := queue[r];
    assert Chained(Links(locks), q) && Distinct(q) && q[i] == l;
    assert i > 0 ==> q[i - 1] in Links(locks);
    assert i + 1 < |q| ==> q[i + 1] in Links(locks);
  }

  // ----- Joining a queue -----

  ghost function Behind(links: map<Lock, Link>, q: seq<Lock>, l: Lock): map<Lock, Link>
    requires q != [] ==> q[|q| - 1] in links
  {
    if q == [] then links[l := Link(null, null)]
    else links[q[|q| - 1] := Link(links[q[|q| - 1]].prev, l)][l := Link(q[|q| - 1], null)]
  }

  ghost function EndsPlus(e: Ends, q: seq<Lock>, key: int, l: Lock): Ends {
    Ends(if q == [] then e.heads[key := l] else e.heads, e.tails[key := l])
  }

  lemma ChainBehind(links: map<Lock, Link>, q: seq<Lock>, l: Lock)
    requires Chained(links, q) && Distinct(q) && l !in links
    ensures Chained(Behind(links, q, l), q + [l])
  {
    var p, links' := q + [l], Behind(links, q, l);
    forall k | 0 <= k < |p| ensures p[k] in links' && links'[p[k]] == Link(At(p, k - 1), At(p, k + 1)) {
      if k < |q| { assert p[k] == q[k] && q[k] in links; }
    }
  }

  lemma QueuesBehind(links: map<Lock, Link>, queue: map<Rec, seq<Lock>>, r: Rec, l: Lock)
    requires Apart(queue) && QueuesIn(links, queue) && l !in links
    ensures QueueIn(queue, r) != [] ==> QueueIn(queue, r)[|QueueIn(queue, r)| - 1] in links
    ensures QueuesIn(Behind(links, QueueIn(queue, r), l), queue[r := QueueIn(queue, r) + [l]])
  {
    var q := QueueIn(queue, r);
    ChainBehind(links, q, l);
    forall x | x in queue && x != r ensures Chained(Behind(links, q, l), queue[x]) {
      assert Chained(links, queue[x]);
    }
  }

  lemma EndsBehind(ends: map<(int, int), Ends>, queue: map<Rec, seq<Lock>>, r: Rec, l: Lock)
    requires EndsIn(ends, queue) && (r.table, r.page) in ends
    ensures
      var q := QueueIn(queue, r);
      EndsIn(ends[(r.table, r.page) := EndsPlus(ends[(r.table, r.page)], q, r.key, l)], queue[r := q + [l]])
  {
    var q, e := QueueIn(queue, r), ends[(r.table, r.page)];
    var ends', queue' := ends[(r.table, r.page) := EndsPlus(e, q, r.key, l)], queue[r := q + [l]];
    forall k, key | k in ends' ensures EndsAt(ends'[k], QueueIn(queue', Rec(k.0, k.1, key)), key) {
      assert EndsAt(ends[k], QueueIn(queue, Rec(k.0, k.1, key)), key);
    }
  }

  /** The new lock l goes behind the last lock of its queue q. */
  method Append(l: Lock, ghost q: seq<Lock>, ghost locks: set<Lock>)
    requires l !in locks && l.prev == null && l.next == null && (q != [] ==> q[|q| - 1] in locks)
    requires EndsAt(Ends(l.sentinel.headMap, l.sentinel.tailMap), q, l.recordId)
    modifies locks`next, l`prev, l.sentinel`headMap, l.sentinel`tailMap
    ensures Links(locks + {l}) == Behind(old(Links(locks)), q, l)
    ensures Ends(l.sentinel.headMap, l.sentinel.tailMap)
      == EndsPlus(old(Ends(l.sentinel.headMap, l.sentinel.tailMap)), q, l.recordId, l)
  {
    var entry := l.sentinel;
    if l.recordId !in entry.headMap && l.recordId !in entry.tailMap {
      entry.headMap := entry.headMap[l.recordId := l];
      entry.tailMap := entry.tailMap[l.recordId := l];
    } else {
      var tail := entry.tailMap[l.recordId];
      tail.next := l;
      l.prev := tail;
      entry.tailMap := entry.tailMap[l.recordId := l];
    }
  }

  /** The new lock l joins the queue of its record. */
  method JoinQueue(l: Lock, ghost table: Table, ghost queue: map<Rec, seq<Lock>>, ghost r: Rec, ghost locks: set<Lock>)
    requires Apart(queue) && QueuesIn(Links(locks), queue) && EndsIn(EndsOf(table), queue)
    requires l !in locks && l.prev == null && l.next == null
    requires (r.table, r.page) in table && table[(r.table, r.page)] == l.sentinel && r.key == l.recordId
    requires TableIds(table)
    modifies locks`next, l`prev, l.sentinel`headMap, l.sentinel`tailMap
    ensures QueuesIn(Links(locks + {l}), queue[r := QueueIn(queue, r) + [l]])
    ensures EndsIn(EndsOf(table), queue[r := QueueIn(queue, r) + [l]])
  {
    ghost var q, links, ends := QueueIn(queue, r), Links(locks), EndsOf(table);
    QueuesBehind(links, queue, r, l);
    EndsBehind(ends, queue, r, l);
    assert EndsAt(ends[(r.table, r.page)], q, r.key);
    hide Apart, QueuesIn, EndsIn, Chained, EndsAt, EndsPlus, Behind, QueueIn;
    Append(l, q, locks);
    assert EndsOf(table) == ends[(r.table, r.page) := Ends(l.sentinel.headMap, l.sentinel.tailMap)];
  }

  // ----- The transactions' lists -----

  lemma ListsBehind(links: map<Lock, Link>, owned: map<int, seq<Lock>>, committing: set<int>, t: int, l: Lock)
    requires Apart(owned) && OwnersIn(links, owned, committing) && t in owned && t !in committing && l !in links
    ensures owned[t] != [] ==> owned[t][|owned[t]| - 1] in links
    ensures OwnersIn(Behind(links, owned[t], l), owned[t := owned[t] + [l]], committing)
  {
    var o := owned[t];
    assert Listed(links, o, false) && Chained(links, o);
    ChainBehind(links, o, l);
    var links' := Behind(links, o, l);
    assert Chained(links', o + [l]) ==> Listed(links', o + [l], false);
    forall u | u in owned && u != t ensures Listed(links', owned[u], u in committing) {
      assert Listed(links, owned[u], u in committing);
    }
  }

  /** The lock l goes behind the last lock of the transaction's list o. */
  method AppendTo(trx: TrxEntry, l: Lock, ghost o: seq<Lock>, ghost locks: set<Lock>)
    requires l !in locks && SpanAt(Span(trx.first, trx.last), o) && (o != [] ==> o[|o| - 1] in locks)
    modifies trx`first, trx`last, l`trxPrev, l`trxNext, locks`trxNext
    ensures TrxLinks(locks + {l}) == Behind(old(TrxLinks(locks)), o, l)
    ensures SpanAt(Span(trx.first, trx.last), o + [l])
  {
    if trx.first == null {
      l.trxNext, l.trxPrev := null, null;
      trx.first, trx.last := l, l;
    } else {
      l.trxNext, l.trxPrev := null, trx.last;
      trx.last.trxNext := l;
      trx.last := l;
    }
  }

  /** trx_add: the lock goes behind the last lock of its transaction. An unknown transaction is refused. */
  method TrxAdd(trxTable: TrxTable, t: int, l: Lock, ghost owned: map<int, seq<Lock>>, ghost committing: set<int>,
      ghost locks: set<Lock>)
    returns (ok: bool)
    requires TrxIds(trxTable) && Apart(owned)
    requires OwnersIn(TrxLinks(locks), owned, committing) && SpansIn(Spans(trxTable), owned, committing)
    requires t !in committing && l !in locks
    modifies trxTable.Values`first, trxTable.Values`last, l`trxPrev, l`trxNext, locks`trxNext
    ensures ok <==> t in owned
    ensures ok ==> OwnersIn(TrxLinks(locks + {l}), owned[t := owned[t] + [l]], committing)
    ensures ok ==> SpansIn(Spans(trxTable), owned[t := owned[t] + [l]], committing)
  {
    assert Spans(trxTable).Keys == owned.Keys;
    if t < 1 || t !in trxTable || trxTable[t] == null {
      return false;
    }
    ok := true;
    assert t in Spans(trxTable).Keys;
    ghost var o, spans := owned[t], Spans(trxTable);
    ListsBehind(TrxLinks(locks), owned, committing, t, l);
    assert SpanAt(spans[t], o);
    OtherEntries(trxTable, t);
    hide Apart, OwnersIn, Behind, SpanAt, TrxIds;
    AppendTo(trxTable[t], l, o, locks);
    ghost var spans' := Spans(trxTable);
    forall u | u in spans && u != t ensures spans'[u] == spans[u] { assert trxTable[u] != trxTable[t]; }
    assert spans' == spans[t := Span(trxTable[t].first, trxTable[t].last)];
  }

  lemma OtherEntries(trxTable: TrxTable, t: int)
    requires TrxIds(trxTable) && t in trxTable && trxTable[t] != null
    ensures forall u {:trigger trxTable[u]} :: u in trxTable && u != t ==> trxTable[u] != trxTable[t]
  {
    assert trxTable[t].trxId == t;
  }

  // ----- Deciding a request -----

  /** What the walk over the first n locks of the queue has seen. */
  ghost predicate Seen(s: State<Lock>, q: seq<Lock>, n: nat, t: int, x: bool, same: Lock?, other: Lock?,
      exclusiveOther: Lock?)
    requires Known(s, q) && n <= |q|
  {
    && (forall i :: 0 <= i < n ==> !Covers(s, q[i], t, x))
    && (if same == null then forall i :: 0 <= i < n ==> s.info[q[i]].trx != t else same in q && s.info[same].trx == t)
    && (if other == null then forall i :: 0 <= i < n ==> s.info[q[i]].trx == t
        else exists i :: 0 <= i < n && s.info[q[i]].trx != t)
    && (if exclusiveOther == null then forall i :: 0 <= i < n ==> s.info[q[i]].trx != t ==> !s.info[q[i]].exclusive
        else exists i :: 0 <= i < n && s.info[q[i]].trx != t && s.info[q[i]].exclusive)
  }

  lemma SeenNext(s: State<Lock>, q: seq<Lock>, n: nat, t: int, x: bool, same: Lock?, other: Lock?,
      exclusiveOther: Lock?)
    requires Known(s, q) && n < |q| && Seen(s, q, n, t, x, same, other, exclusiveOther) && !Covers(s, q[n], t, x)
    ensures
      var l := q[n];
      if s.info[l].trx == t then Seen(s, q, n + 1, t, x, l, other, exclusiveOther)
      else Seen(s, q, n + 1, t, x, same, l, if s.info[l].exclusive then l else exclusiveOther)
  {}

  lemma NothingSeen(s: State<Lock>, q: seq<Lock>, t: int, x: bool)
    requires Known(s, q)
    ensures Seen(s, q, 0, t, x, null, null, null)
  {}

  lemma ReadLock(s: State<Lock>, q: seq<Lock>, n: nat)
    requires Infos(s.info.Keys) == s.info && Chained(Links(s.info.Keys), q) && n < |q|
    ensures q[n] in s.info && q[n].Value() == s.info[q[n]] && q[n].next == At(q, n + 1)
  {
    assert q[n] in Links(s.info.Keys);
  }

  /** Walks over the queue: a lock that already covers the request, or what else is there. */
  method Scan(head: Lock?, trxId: int, lockMode: Mode, ghost s: State<Lock>, ghost q: seq<Lock>)
    returns (covering: Lock?, same: Lock?, other: Lock?, exclusiveOther: Lock?)
    requires Known(s, q) && Infos(s.info.Keys) == s.info && Chained(Links(s.info.Keys), q) && head == At(q, 0)
    ensures covering != null ==> covering in q && Covers(s, covering, trxId, lockMode == EXCLUSIVE)
    ensures covering == null ==> Seen(s, q, |q|, trxId, lockMode == EXCLUSIVE, same, other, exclusiveOther)
  {
    hide Seen, Infos, Links, Chained;
    var temp := head;
    ghost var n := 0;
    assert Seen(s, q, n, trxId, lockMode == EXCLUSIVE, null, null, null) by {
      NothingSeen(s, q, trxId, lockMode == EXCLUSIVE);
    }
    covering, same, other, exclusiveOther := null, null, null, null;
    while temp != null
      invariant n <= |q| && temp == At(q, n)
      invariant Seen(s, q, n, trxId, lockMode == EXCLUSIVE, same, other, exclusiveOther)
      decreases |q| - n
    {
      ReadLock(s, q, n);
      if temp.trxId == trxId {
        if lockMode == SHARED || temp.lockMode == EXCLUSIVE {
          covering := temp;
          return;
        }
        SeenNext(s, q, n, trxId, lockMode == EXCLUSIVE, same, other, exclusiveOther);
        same := temp;
      } else {
        SeenNext(s, q, n, trxId, lockMode == EXCLUSIVE, same, other, exclusiveOther);
        other := temp;
        if temp.lockMode == EXCLUSIVE {
          exclusiveOther := temp;
        }
      }
      temp := temp.next;
      n := n + 1;
    }
  }

  /** How the request is answered, from the queue of the key. */
  method Decide(entry: HashEntry, key: int, trxId: int, lockMode: Mode, ghost s: State<Lock>, ghost q: seq<Lock>)
    returns (d: Decision<Lock>)
    requires Known(s, q) && Infos(s.info.Keys) == s.info && Chained(Links(s.info.Keys), q)
    requires EndsAt(Ends(entry.headMap, entry.tailMap), q, key)
    ensures Decides(s, q, trxId, lockMode == EXCLUSIVE, d)
  {
    if key !in entry.headMap && key !in entry.tailMap {
      return Enqueue(true);
    }
    var tail := entry.tailMap[key];
    var covering, same, other, exclusiveOther := Scan(entry.headMap[key], trxId, lockMode, s, q);
    if covering != null {
      return Existing(covering);
    }
    if same != null && other == null {
      return Upgrade(same);
    }
    assert tail.Value() == s.info[tail];
    if !tail.isAcquired {
      d := Enqueue(false);
    } else if lockMode == SHARED {
      d := Enqueue(exclusiveOther == null);
    } else {
      d := Enqueue(other == null);
    }
  }

  // ----- Waking -----

  /** Signals one lock: its thread goes on. */
  method Signal(l: Lock, ghost s: State<Lock>)
    requires l in s.info && Infos(s.info.Keys) == s.info
    modifies l`waiting
    ensures Infos(s.info.Keys) == GrantLock(s, l).info
  {
    assert l.Value() == s.info[l];
    l.waiting := false;
  }

  /** Signals the shared locks from q[i] on, up to the first exclusive one. */
  method SignalShared(first: Lock?, ghost s: State<Lock>, ghost h: seq<Event>, ghost q: seq<Lock>, ghost i: nat)
    requires Known(s, q) && Infos(s.info.Keys) == s.info && Chained(Links(s.info.Keys), q) && first == At(q, i)
    modifies s.info.Keys`waiting
    ensures WakeShared(s, h, q, i).0.info.Keys == s.info.Keys && Infos(s.info.Keys) == WakeShared(s, h, q, i).0.info
  {
    hide Infos, Links, Chained;
    ghost var locks := s.info.Keys;
    var temp := first;
    ghost var n, s', h' := i, s, h;
    while temp != null
      invariant temp == At(q, n) && s'.info.Keys == locks && Known(s', q)
      invariant Infos(locks) == s'.info && Chained(Links(locks), q)
      invariant WakeShared(s', h', q, n) == WakeShared(s, h, q, i)
      decreases |q| - n
    {
      ReadLock(s', q, n);
      if temp.lockMode != SHARED {
        break;
      }
      Signal(temp, s');
      s', h' := GrantLock(s', temp), GrantEvent(s', h', temp);
      temp := temp.next;
      n := n + 1;
    }
  }

  /** Signals the waiting locks behind a head that has left; head is the new head of the queue of r. */
  method WakeLocks(head: Lock, ghost s: State<Lock>, ghost h: seq<Event>, ghost r: Rec)
    requires r in s.queue && s.queue[r] != [] && s.queue[r][0] == head && Known(s, s.queue[r])
    requires Infos(s.info.Keys) == s.info && Chained(Links(s.info.Keys), s.queue[r])
    modifies s.info.Keys`waiting
    ensures Wake(s, h, r).0.info.Keys == s.info.Keys && Infos(s.info.Keys) == Wake(s, h, r).0.info
    ensures forall m :: m in s.info ==>
      (!m.waiting <==>
        s.info[m].granted || (!s.info[head].acquired && (m == head || BehindShared(s, s.queue[r], 0, m))))
  {
    hide Infos, Links, Chained, WakeShared, BehindShared;
    ghost var q := s.queue[r];
    ReadLock(s, q, 0);
    if !head.isAcquired {
      Signal(head, s);
      assert GrantLock(s, head).info.Keys == s.info.Keys;
      if head.lockMode == SHARED {
        SignalShared(head.next, GrantLock(s, head), GrantEvent(s, h, head), q, 1);
      }
    }
    hide Wake;
    forall m | m in s.info ensures m in Wake(s, h, r).0.info && !m.waiting == Wake(s, h, r).0.info[m].granted {
      Standing(m, s.info.Keys);
    }
    forall m | m in s.info
      ensures m in Wake(s, h, r).0.info && (Wake(s, h, r).0.info[m].granted <==>
        (s.info[m].granted || (!s.info[head].acquired && (m == head || BehindShared(s, q, 0, m)))))
    {
      WakeIs(s, h, r, m);
    }
  }

  lemma Standing(m: Lock, locks: set<Lock>)
    requires m in locks
    ensures m in Infos(locks) && Infos(locks)[m].granted == !m.waiting
  {}

  // ----- The sections under the latches -----

  /** The entry of a page, made on first use. */
  method EntryFor(table: Table, tableId: int, pageId: int, ghost queue: map<Rec, seq<Lock>>)
    returns (table': Table, entry: HashEntry)
    requires TableIds(table) && EndsIn(EndsOf(table), queue)
    ensures TableIds(table') && EndsIn(EndsOf(table'), queue)
    ensures (tableId, pageId) in table' && table'[(tableId, pageId)] == entry
    ensures forall k :: k in table ==> k in table' && table'[k] == table[k]
    ensures fresh(table'.Values - table.Values)
  {
    if (tableId, pageId) in table {
      return table, table[(tableId, pageId)];
    }
    entry := new HashEntry(tableId, pageId);
    table' := table[(tableId, pageId) := entry];
    ghost var ends := EndsOf(table');
    assert ends == EndsOf(table)[(tableId, pageId) := Ends(map[], map[])];
  }

  /** A new lock that has joined its queue and the list of its transaction is part of the table. */
  lemma Joins(table: Table, trxTable: TrxTable, s: State<Lock>, s': State<Lock>, t: int, r: Rec, x: bool, a: bool,
      l: Lock)
    requires t in s.owned && s' == Enqueued(s, t, r, x, a, l)
    requires TableIds(table) && TrxIds(trxTable) && Sentinels(s.info.Keys, table) && Infos(s.info.Keys) == s.info
    requires l.Value() == Info(r, t, x, a, a) && r.table == l.sentinel.tableId && r.page == l.sentinel.pageId
    requires (r.table, r.page) in table && table[(r.table, r.page)] == l.sentinel
    requires QueuesIn(Links(s.info.Keys + {l}), s.queue[r := QueueIn(s.queue, r) + [l]])
    requires EndsIn(EndsOf(table), s.queue[r := QueueIn(s.queue, r) + [l]])
    requires OwnersIn(TrxLinks(s.info.Keys + {l}), s.owned[t := s.owned[t] + [l]], s.committing)
    requires SpansIn(Spans(trxTable), s.owned[t := s.owned[t] + [l]], s.committing)
    ensures Represents(table, trxTable, s')
  {
    hide QueuesIn, EndsIn, OwnersIn, SpansIn, TableIds, TrxIds;
    Whole(table, trxTable, s', s.info.Keys + {l});
  }

  /** The new lock goes behind its queue and behind the list of its transaction. */
  method JoinBoth(l: Lock, table: Table, trxTable: TrxTable, ghost s: State<Lock>, ghost r: Rec)
    returns (ok: bool)
    requires Core(s) && Represents(table, trxTable, s) && l.trxId !in s.committing
    requires l !in s.info.Keys && l.prev == null && l.next == null && r.key == l.recordId
    requires (r.table, r.page) in table && table[(r.table, r.page)] == l.sentinel
    modifies table.Values`headMap, table.Values`tailMap, trxTable.Values`first, trxTable.Values`last
    modifies s.info.Keys`next, s.info.Keys`trxNext, l`prev, l`trxPrev, l`trxNext
    ensures ok <==> l.trxId in s.owned
    ensures Infos(s.info.Keys) == s.info
    ensures ok ==>
      && QueuesIn(Links(s.info.Keys + {l}), s.queue[r := QueueIn(s.queue, r) + [l]])
      && EndsIn(EndsOf(table), s.queue[r := QueueIn(s.queue, r) + [l]])
      && OwnersIn(TrxLinks(s.info.Keys + {l}), s.owned[l.trxId := s.owned[l.trxId] + [l]], s.committing)
      && SpansIn(Spans(trxTable), s.owned[l.trxId := s.owned[l.trxId] + [l]], s.committing)
  {
    hide *;
    CoreApart(s);
    Parts(table, trxTable, s);
    JoinQueue(l, table, s.queue, r, s.info.Keys);
    ok := TrxAdd(trxTable, l.trxId, l, s.owned, s.committing, s.info.Keys);
  }

  /** Makes a new lock; if it is not acquired its thread waits for it. */
  method AddLock(
    entry: HashEntry, table: Table, trxTable: TrxTable, key: int, trxId: int, lockMode: Mode, acquired: bool,
    ghost s: State<Lock>)
    returns (ok: bool, l: Lock)
    requires Core(s) && Represents(table, trxTable, s) && trxId !in s.committing
    requires (entry.tableId, entry.pageId) in table && table[(entry.tableId, entry.pageId)] == entry
    modifies table.Values, trxTable.Values, s.info.Keys
    ensures ok <==> trxId in s.owned
    ensures l !in s.info && fresh(l)
    ensures ok ==>
      Represents(table, trxTable,
        Enqueued(s, trxId, Rec(entry.tableId, entry.pageId, key), lockMode == EXCLUSIVE, acquired, l))
  {
    hide *;
    ghost var r, x := Rec(entry.tableId, entry.pageId, key), lockMode == EXCLUSIVE;
    Parts(table, trxTable, s);
    l := new Lock(entry, key, lockMode, trxId, acquired);
    ok := JoinBoth(l, table, trxTable, s, r);
    l.waiting := !acquired;
    if ok {
      NewValue(l);
      Joins(table, trxTable, s, Enqueued(s, trxId, r, x, acquired, l), trxId, r, x, acquired, l);
    }
  }

  lemma NewValue(l: Lock)
    ensures l.Value() == Info(Rec(l.sentinel.tableId, l.sentinel.pageId, l.recordId), l.trxId,
      l.lockMode == EXCLUSIVE, l.isAcquired, !l.waiting)
  {}

  /** Turns the lock m exclusive in place. */
  method UpgradeLock(m: Lock, ghost table: Table, ghost trxTable: TrxTable, ghost s: State<Lock>)
    requires m in s.info && Represents(table, trxTable, s)
    modifies m`lockMode
    ensures Represents(table, trxTable, Upgraded(s, m))
  {
    hide *;
    Parts(table, trxTable, s);
    SetExclusive(m, s);
    Upgrades(table, trxTable, s, m);
  }

  method SetExclusive(m: Lock, ghost s: State<Lock>)
    requires m in s.info && Infos(s.info.Keys) == s.info
    modifies m`lockMode
    ensures Infos(s.info.Keys) == Upgraded(s, m).info
  {
    assert m.Value() == s.info[m];
    m.lockMode := EXCLUSIVE;
  }

  lemma Upgrades(table: Table, trxTable: TrxTable, s: State<Lock>, m: Lock)
    requires m in s.info && Infos(s.info.Keys) == Upgraded(s, m).info
    requires TableIds(table) && TrxIds(trxTable) && Sentinels(s.info.Keys, table)
    requires QueuesIn(Links(s.info.Keys), s.queue) && EndsIn(EndsOf(table), s.queue)
    requires OwnersIn(TrxLinks(s.info.Keys), s.owned, s.committing) && SpansIn(Spans(trxTable), s.owned, s.committing)
    ensures Represents(table, trxTable, Upgraded(s, m))
  {
    hide QueuesIn, EndsIn, OwnersIn, SpansIn, TableIds, TrxIds;
    Whole(table, trxTable, Upgraded(s, m), s.info.Keys);
  }

  // ----- Release -----

  lemma OwnersWithout(links: map<Lock, Link>, owned: map<int, seq<Lock>>, committing: set<int>, t: int)
    requires Apart(owned) && OwnersIn(links, owned, committing) && t in owned && owned[t] != []
    ensures OwnersIn(links - {owned[t][0]}, owned[t := owned[t][1..]], committing + {t})
  {
    var o, l := owned[t], owned[t][0];
    var links', owned' := links - {l}, owned[t := o[1..]];
    assert Listed(links, o, t in committing) && Distinct(o);
    forall u | u in owned ensures Listed(links', owned'[u], u in committing + {t}) {
      if u == t {
        assert forall k {:trigger o[1..][k]} :: 0 <= k < |o| - 1 ==> o[1..][k] == o[k + 1];
      } else {
        assert Listed(links, owned[u], u in committing);
      }
    }
  }

  lemma LinksMinus(locks: set<Lock>, l: Lock)
    ensures Infos(locks - {l}) == Infos(locks) - {l} && TrxLinks(locks - {l}) == TrxLinks(locks) - {l}
  {}

  /** With l out of its queue, the objects stand for the state without l. */
  lemma Leaves(table: Table, trxTable: TrxTable, s: State<Lock>, l: Lock, r: Rec, i: nat)
    requires Core(s) && Releasable(s, l) && r == s.info[l].rec && i == IndexOf(s.queue[r], l)
    requires TableIds(table) && TrxIds(trxTable) && Sentinels(s.info.Keys, table) && Infos(s.info.Keys) == s.info
    requires QueuesIn(Links(s.info.Keys - {l}), QueueWithout(s.queue, r, i))
      && EndsIn(EndsOf(table), QueueWithout(s.queue, r, i))
    requires OwnersIn(TrxLinks(s.info.Keys), s.owned, s.committing) && SpansIn(Spans(trxTable), s.owned, s.committing)
    ensures Represents(table, trxTable, RemoveLock(s, l))
  {
    hide *;
    CoreApart(s);
    RemoveLockIs(s, l);
    var t := s.info[l].trx;
    OwnersWithout(TrxLinks(s.info.Keys), s.owned, s.committing, t);
    SpansWithout(Spans(trxTable), s.owned, s.committing, t);
    LinksMinus(s.info.Keys, l);
    SentinelsLess(s.info.Keys, table, l);
    Whole(table, trxTable, RemoveLock(s, l), s.info.Keys - {l});
  }

  lemma RemoveLockIs(s: State<Lock>, l: Lock)
    requires Releasable(s, l)
    ensures l in s.info && s.info[l].rec in s.queue && l in s.queue[s.info[l].rec]
    ensures
      var r, t := s.info[l].rec, s.info[l].trx;
      && t in s.owned && s.owned[t] != [] && s.owned[t][0] == l
      && RemoveLock(s, l) == State(QueueWithout(s.queue, r, IndexOf(s.queue[r], l)), s.info - {l},
                                   s.owned[t := s.owned[t][1..]], s.committing + {t}, s.last)
  {}

  lemma SpansWithout(spans: map<int, Span>, owned: map<int, seq<Lock>>, committing: set<int>, t: int)
    requires SpansIn(spans, owned, committing) && t in owned && owned[t] != []
    ensures SpansIn(spans, owned[t := owned[t][1..]], committing + {t})
  {}

  lemma SentinelsLess(locks: set<Lock>, table: Table, l: Lock)
    requires Sentinels(locks, table)
    ensures Sentinels(locks - {l}, table)
  {}

  /** l leaves its queue; its transaction will not look at it again. */
  method RemoveFrom(l: Lock, table: Table, ghost trxTable: TrxTable, ghost s: State<Lock>)
    requires Core(s) && Releasable(s, l) && Represents(table, trxTable, s)
    requires l in s.info && s.info[l].rec in s.queue && l in s.queue[s.info[l].rec]
    modifies table.Values`headMap, table.Values`tailMap, s.info.Keys`prev, s.info.Keys`next
    ensures Represents(table, trxTable, RemoveLock(s, l))
    ensures
      var q := s.queue[s.info[l].rec];
      l.prev == At(q, IndexOf(q, l) - 1) && l.next == At(q, IndexOf(q, l) + 1)
  {
    hide *;
    SentinelOf(l, table, trxTable, s);
    ghost var r := s.info[l].rec;
    ghost var i := IndexOf(s.queue[r], l);
    CoreApart(s);
    Parts(table, trxTable, s);
    LeaveQueue(l, table, s.queue, r, i, s.info.Keys);
    Leaves(table, trxTable, s, l, r, i);
  }

  lemma SentinelOf(l: Lock, table: Table, trxTable: TrxTable, s: State<Lock>)
    requires l in s.info && Represents(table, trxTable, s)
    ensures var r := s.info[l].rec;
      (r.table, r.page) in table && table[(r.table, r.page)] == l.sentinel && r.key == l.recordId
    ensures l.Value() == s.info[l]
  {
    assert l in Infos(s.info.Keys);
  }

  lemma Wakes(table: Table, trxTable: TrxTable, s: State<Lock>, s': State<Lock>)
    requires SameButGranted(s, s') && Infos(s.info.Keys) == s'.info
    requires TableIds(table) && TrxIds(trxTable) && Sentinels(s.info.Keys, table)
    requires QueuesIn(Links(s.info.Keys), s.queue) && EndsIn(EndsOf(table), s.queue)
    requires OwnersIn(TrxLinks(s.info.Keys), s.owned, s.committing) && SpansIn(Spans(trxTable), s.owned, s.committing)
    ensures Represents(table, trxTable, s')
  {
    hide QueuesIn, EndsIn, OwnersIn, SpansIn, TableIds, TrxIds;
    Whole(table, trxTable, s', s.info.Keys);
  }

  lemma ChainOf(links: map<Lock, Link>, queue: map<Rec, seq<Lock>>, r: Rec)
    requires QueuesIn(links, queue) && r in queue
    ensures Chained(links, queue[r])
  {}

  /** Signals behind the head of the queue of r that has just left. */
  method WakeBehind(head: Lock, ghost table: Table, ghost trxTable: TrxTable, ghost s: State<Lock>,
      ghost h: seq<Event>, ghost r: Rec)
    requires Inv(s, h) && Represents(table, trxTable, s)
    requires r in s.queue && s.queue[r] != [] && s.queue[r][0] == head && Known(s, s.queue[r])
    modifies s.info.Keys`waiting
    ensures Represents(table, trxTable, Wake(s, h, r).0)
  {
    hide *;
    WakeStep(s, h, r);
    Parts(table, trxTable, s);
    ChainOf(Links(s.info.Keys), s.queue, r);
    WakeLocks(head, s, h, r);
    Wakes(table, trxTable, s, Wake(s, h, r).0);
  }

  /** Whether and where a release signals depends on the neighbours of the lock. */
  lemma WhoIsWoken(s: State<Lock>, h: seq<Event>, l: Lock)
    requires Inv(s, h) && Releasable(s, l)
    ensures
      var r := s.info[l].rec;
      var q, s1, h1 := s.queue[r], RemoveLock(s, l), h + [LockHistory.Release(s.info[l].trx, r)];
      var i: int := IndexOf(q, l);
      && (At(q, i + 1) == null || At(q, i - 1) != null ==> ReleaseState(s, h, l) == (s1, h1))
      && (At(q, i + 1) != null && At(q, i - 1) == null ==>
            && r in s1.queue && s1.queue[r] != [] && s1.queue[r][0] == At(q, i + 1) && Known(s1, s1.queue[r])
            && ReleaseState(s, h, l) == Wake(s1, h1, r))
  {
    RemoveStep(s, h, l);
    hide Tracks, Legal, TwoPhase, Wake, Held, Running;
    var r := s.info[l].rec;
    var q, s1 := s.queue[r], RemoveLock(s, l);
    var i: int := IndexOf(q, l);
    if At(q, i + 1) != null && At(q, i - 1) == null {
      assert s1.queue[r] == q[1..];
      assert QueueOk(s1, r);
    }
  }

  /** lock_release. */
  method ReleaseIn(l: Lock, table: Table, ghost trxTable: TrxTable, ghost s: State<Lock>, ghost h: seq<Event>)
    requires Full(s, h) && Releasable(s, l) && Represents(table, trxTable, s)
    modifies table.Values, s.info.Keys
    ensures Represents(table, trxTable, ReleaseState(s, h, l).0)
  {
    ghost var r := s.info[l].rec;
    ghost var q := s.queue[r];
    ghost var s1, h1 := RemoveLock(s, l), h + [LockHistory.Release(s.info[l].trx, r)];
    RemoveStep(s, h, l);
    WhoIsWoken(s, h, l);
    hide *;
    RemoveFrom(l, table, trxTable, s);
    if l.next == null {
      return;
    }
    if l.prev == null {
      WakeBehind(l.next, table, trxTable, s1, h1, r);
    }
  }

  // ----- Beginning and committing -----

  lemma Begins(table: Table, trxTable: TrxTable, s: State<Lock>, e: TrxEntry)
    requires Core(s) && s.last >= 0 && Represents(table, trxTable, s)
    requires e.trxId == s.last + 1 && e.first == null
    ensures Represents(table, trxTable[s.last + 1 := e], Begun(s))
  {
    hide QueuesIn, EndsIn, TableIds, Sentinels, Infos, Links, TrxLinks, QueueOk, LockOk, Represents;
    var t, trxTable' := s.last + 1, trxTable[s.last + 1 := e];
    Parts(table, trxTable, s);
    assert t !in s.owned by { assert t in s.owned ==> OwnerOk(s, t); }
    assert Spans(trxTable') == Spans(trxTable)[t := Span(e.first, e.last)];
    Whole(table, trxTable', Begun(s), s.info.Keys);
  }

  lemma Finishes(table: Table, trxTable: TrxTable, s: State<Lock>, t: int)
    requires Represents(table, trxTable, s) && t in s.owned
    ensures Represents(table, trxTable[t := null], Ended(s, t))
  {
    hide QueuesIn, EndsIn, TableIds, Sentinels, Infos;
    Parts(table, trxTable, s);
    assert t in Spans(trxTable);
    assert Spans(trxTable[t := null]) == Spans(trxTable) - {t};
    Whole(table, trxTable[t := null], Ended(s, t), s.info.Keys);
  }

  lemma FirstOf(table: Table, trxTable: TrxTable, s: State<Lock>, t: int)
    requires Represents(table, trxTable, s)
    ensures t in s.owned <==> t in trxTable && trxTable[t] != null
    ensures t in s.owned ==> t >= 1
    ensures t in s.owned && t !in s.committing ==> trxTable[t].first == At(s.owned[t], 0)
  {
    Parts(table, trxTable, s);
    assert t in Spans(trxTable) <==> t in trxTable && trxTable[t] != null;
    if t in s.owned && t !in s.committing { assert SpanAt(Spans(trxTable)[t], s.owned[t]); }
  }

  lemma NextOf(table: Table, trxTable: TrxTable, s: State<Lock>, t: int)
    requires Represents(table, trxTable, s) && t in s.owned && s.owned[t] != []
    ensures s.owned[t][0].trxNext == At(s.owned[t], 1)
  {
    Parts(table, trxTable, s);
    assert Listed(TrxLinks(s.info.Keys), s.owned[t], t in s.committing);
  }

  lemma CommitNext(s: State<Lock>, h: seq<Event>, t: int)
    requires Full(s, h) && Running(s, t) && s.owned[t] != []
    ensures Inv(s, h) && Releasable(s, s.owned[t][0])
    ensures var z := ReleaseState(s, h, s.owned[t][0]);
      && Full(z.0, z.1) && Running(z.0, t) && t in z.0.owned && At(z.0.owned[t], 0) == At(s.owned[t], 1)
      && |z.0.owned[t]| < |s.owned[t]| && z.0.info.Keys <= s.info.Keys && z.0.last == s.last
      && Committed(z.0, z.1, t) == Committed(s, h, t)
  {
    hide ReleaseState, Core, Tracks, TwoPhase, Legal, NoLostWakeup;
    ReleaseNext(s, h, t);
  }

  /** Releases the transaction's locks along its list, the oldest first. */
  method ReleaseAll(first: Lock?, table: Table, ghost trxTable: TrxTable, t: int, ghost s: State<Lock>,
      ghost h: seq<Event>)
    returns (ghost s': State<Lock>, ghost h': seq<Event>)
    requires Full(s, h) && Running(s, t) && t in s.owned && Represents(table, trxTable, s) && first == At(s.owned[t], 0)
    modifies table.Values, s.info.Keys
    ensures Full(s', h') && Running(s', t) && t in s'.owned && s'.owned[t] == [] && Represents(table, trxTable, s')
    ensures Committed(s', h', t) == Committed(s, h, t) && s'.info.Keys <= s.info.Keys && s'.last == s.last
  {
    hide *;
    var lock := first;
    s', h' := s, h;
    while lock != null
      invariant Full(s', h') && Running(s', t) && t in s'.owned && Represents(table, trxTable, s')
      invariant lock == At(s'.owned[t], 0) && s'.info.Keys <= s.info.Keys && s'.last == s.last
      invariant Committed(s', h', t) == Committed(s, h, t)
      decreases |s'.owned[t]|
    {
      HeadOf(s'.owned[t]);
      NextOf(table, trxTable, s', t);
      CommitNext(s', h', t);
      var next := lock.trxNext;
      ghost var z := ReleaseState(s', h', lock);
      ReleaseIn(lock, table, trxTable, s', h');
      s', h' := z.0, z.1;
      lock := next;
    }
    HeadOf(s'.owned[t]);
  }

  lemma HeadOf(o: seq<Lock>)
    ensures At(o, 0) == null <==> o == []
    ensures o != [] ==> At(o, 0) == o[0]
  {}

  // ----- The lock manager -----

  /** An unknown transaction makes the source exit; a locked answer whose lock is waiting blocks its thread. */
  datatype Answer = Exit | Locked(lock: Lock)

  lemma EntryKnown(table: Table, table': Table, trxTable: TrxTable, s: State<Lock>)
    requires Represents(table, trxTable, s) && TableIds(table') && EndsIn(EndsOf(table'), s.queue)
    requires forall k :: k in table ==> k in table' && table'[k] == table[k]
    ensures Represents(table', trxTable, s)
  {
    hide QueuesIn, EndsIn, OwnersIn, SpansIn, TableIds, TrxIds, Infos;
    Parts(table, trxTable, s);
    Whole(table', trxTable, s, s.info.Keys);
  }

  /** What Decide needs to know about the queue of r. */
  lemma QueueOf(table: Table, trxTable: TrxTable, s: State<Lock>, r: Rec)
    requires Represents(table, trxTable, s) && Core(s) && (r.table, r.page) in table
    ensures Known(s, Queue(s, r)) && Infos(s.info.Keys) == s.info && Chained(Links(s.info.Keys), Queue(s, r))
    ensures var e := table[(r.table, r.page)];
      e.tableId == r.table && e.pageId == r.page && EndsAt(Ends(e.headMap, e.tailMap), Queue(s, r), r.key)
  {
    Parts(table, trxTable, s);
    QueueKnown(s, r);
    assert EndsAt(EndsOf(table)[(r.table, r.page)], QueueIn(s.queue, r), r.key);
  }

  /** Only a known transaction already has locks. */
  lemma OnlyKnown(s: State<Lock>, r: Rec, t: int, x: bool, d: Decision<Lock>)
    requires Core(s) && Known(s, Queue(s, r)) && Decides(s, Queue(s, r), t, x, d) && !d.Enqueue?
    ensures d.lock in s.info && t in s.owned
  {
    assert LockOk(s, d.lock);
  }

  lemma DecidedCases(s: State<Lock>, h: seq<Event>, t: int, r: Rec, x: bool, d: Decision<Lock>, l: Lock)
    ensures t in s.owned && (d.Upgrade? ==> d.lock in s.info) ==>
      Decided(s, h, t, r, x, d, l).0
        == match d case Existing(_) => s case Upgrade(m) => Upgraded(s, m) case Enqueue(a) => Enqueued(s, t, r, x, a, l)
  {}

  /** lock_acquire up to the point where the thread may have to wait. */
  method AcquireIn(table: Table, trxTable: TrxTable, r: Rec, trxId: int, lockMode: Mode, ghost s: State<Lock>,
      ghost h: seq<Event>)
    returns (table': Table, answer: Answer, ghost d: Decision<Lock>)
    requires Core(s) && Represents(table, trxTable, s) && trxId !in s.committing
    modifies table.Values, trxTable.Values, s.info.Keys
    ensures fresh(table'.Values - table.Values)
    ensures answer.Exit? <==> trxId !in s.owned
    ensures Known(s, Queue(s, r)) && Decides(s, Queue(s, r), trxId, lockMode == EXCLUSIVE, d)
    ensures d.Enqueue? || (answer.Locked? && answer.lock == d.lock && d.lock in s.info)
    ensures d.Enqueue? && answer.Locked? ==> fresh(answer.lock) && answer.lock !in s.info
    ensures answer.Locked? ==>
      Represents(table', trxTable, Decided(s, h, trxId, r, lockMode == EXCLUSIVE, d, answer.lock).0)
  {
    hide *;
    Parts(table, trxTable, s);
    var entry;
    table', entry := EntryFor(table, r.table, r.page, s.queue);
    EntryKnown(table, table', trxTable, s);
    QueueOf(table', trxTable, s, r);
    var decision := Decide(entry, r.key, trxId, lockMode, s, Queue(s, r));
    d := decision;
    match decision
    case Existing(m) =>
      OnlyKnown(s, r, trxId, lockMode == EXCLUSIVE, d);
      DecidedCases(s, h, trxId, r, lockMode == EXCLUSIVE, d, m);
      answer := Locked(m);
    case Upgrade(m) =>
      OnlyKnown(s, r, trxId, lockMode == EXCLUSIVE, d);
      DecidedCases(s, h, trxId, r, lockMode == EXCLUSIVE, d, m);
      UpgradeLock(m, table', trxTable, s);
      answer := Locked(m);
    case Enqueue(a) =>
      var ok, l := AddLock(entry, table', trxTable, r.key, trxId, lockMode, a, s);
      answer := if ok then Locked(l) else Exit;
      ghost var x := lockMode == EXCLUSIVE;
      assert ok ==> Decided(s, h, trxId, r, x, d, l).0 == Enqueued(s, trxId, r, x, a, l) by {
        DecidedCases(s, h, trxId, r, x, d, l);
      }
  }

  lemma AcquireFits(s: State<Lock>, h: seq<Event>, t: int, r: Rec, x: bool, d: Decision<Lock>, l: Lock)
    requires Full(s, h) && MayAsk(s, t) && Known(s, Queue(s, r)) && Decides(s, Queue(s, r), t, x, d)
    requires d.Enqueue? ==> l !in s.info
    ensures d.Upgrade? ==> d.lock in s.info
    ensures t in s.owned
    ensures var z := Decided(s, h, t, r, x, d, l);
      && Full(z.0, z.1) && Step(s, h, Op.Acquire(t, r, x, d, l), z.0, z.1) && z.0.last == s.last
      && z.0.info.Keys == (if d.Enqueue? then s.info.Keys + {l} else s.info.Keys)
      && Answers(s, t, r, x, if d.Enqueue? then l else d.lock, z.0)
      && HoldsAsked(z.0, z.1, t, r, x, if d.Enqueue? then l else d.lock)
  {
    AcquireStep(s, h, t, r, x, d, l);
    AcquireAnswers(s, h, t, r, x, d, l);
    hide Answers, HoldsAsked;
  }

  /** lock_acquire as a step of the state. */
  method AcquireFrom(
    table: Table, trxTable: TrxTable, r: Rec, trxId: int, lockMode: Mode, ghost s: State<Lock>, ghost h: seq<Event>)
    returns (table': Table, answer: Answer, ghost d: Decision<Lock>, ghost s': State<Lock>, ghost h': seq<Event>)
    requires Core(s) && Full(s, h) && Represents(table, trxTable, s)
    requires trxId !in s.committing && (trxId in s.owned ==> MayAsk(s, trxId))
    modifies table.Values, trxTable.Values, s.info.Keys
    ensures fresh(table'.Values - table.Values)
    ensures answer.Exit? <==> trxId !in s.owned
    ensures answer.Locked? ==>
      && Full(s', h') && Represents(table', trxTable, s') && s'.last == s.last
      && Step(s, h, Op.Acquire(trxId, r, lockMode == EXCLUSIVE, d, answer.lock), s', h')
      && (d.Enqueue? || answer.lock == d.lock)
      && Answers(s, trxId, r, lockMode == EXCLUSIVE, answer.lock, s')
      && HoldsAsked(s', h', trxId, r, lockMode == EXCLUSIVE, answer.lock)
    ensures answer.Locked? ==> fresh(s'.info.Keys - s.info.Keys)
  {
    hide *;
    table', answer, d := AcquireIn(table, trxTable, r, trxId, lockMode, s, h);
    s', h' := s, h;
    if answer.Locked? {
      AcquireFits(s, h, trxId, r, lockMode == EXCLUSIVE, d, answer.lock);
      ghost var z := Decided(s, h, trxId, r, lockMode == EXCLUSIVE, d, answer.lock);
      s', h' := z.0, z.1;
      assert s'.info.Keys - s.info.Keys <= {answer.lock};
    }
  }

  lemma BeginFits(s: State<Lock>, h: seq<Event>)
    requires Full(s, h)
    ensures Full(Begun(s), h) && Step(s, h, Op.Begin, Begun(s), h)
    ensures s.last + 1 !in s.owned && Begun(s).owned == s.owned[s.last + 1 := []]
    ensures Begun(s).last == s.last + 1 && Begun(s).info == s.info
  {
    BeginCore(s);
    BeginStep(s, h);
  }

  lemma ReleaseFits(s: State<Lock>, h: seq<Event>, l: Lock)
    requires Full(s, h) && Releasable(s, l)
    ensures Inv(s, h)
    ensures var z := ReleaseState(s, h, l);
      && Full(z.0, z.1) && Step(s, h, Op.ReleaseLock(l), z.0, z.1) && z.0.last == s.last
      && z.0.info.Keys == s.info.Keys - {l}
      && forall m :: m in z.0.info ==> (z.0.info[m].granted <==> s.info[m].granted || LetsGo(s, l, m))
    ensures l in s.info
  {
    hide Core, Tracks, TwoPhase, Legal, NoLostWakeup, LetsGo;
    ReleaseStep(s, h, l);
    forall m | m in s.info && m != l
      ensures var z := ReleaseState(s, h, l).0;
        m in z.info && (z.info[m].granted <==> s.info[m].granted || LetsGo(s, l, m))
    {
      ReleaseWakes(s, h, l, m);
    }
  }

  lemma EndFits(s: State<Lock>, h: seq<Event>, t: int)
    requires Full(s, h) && Running(s, t) && t in s.owned && s.owned[t] == []
    ensures Full(Ended(s, t), h) && Ended(s, t).last == s.last && Ended(s, t).info == s.info
    ensures Committed(s, h, t) == (Ended(s, t), h)
  {
    EndStep(s, h, t);
  }

  lemma UseFits(s: State<Lock>, h: seq<Event>, t: int, r: Rec, w: bool, l: Lock)
    requires Running(s, t) && Grants(s, l, t, r) && (w ==> s.info[l].exclusive)
    ensures Step(s, h, Op.Use(t, r, w, l), s, h + [Access(t, r, w)])
  {}

  lemma NothingLocked(s: State<Lock>)
    requires s == State(map[], map[], map[], {}, 0)
    ensures Full(s, [])
  {
    assert Core(s) && Tracks(s, []) && NoLostWakeup(s);
  }

  lemma NothingLinked(table: Table, trxTable: TrxTable, s: State<Lock>)
    requires s == State(map[], map[], map[], {}, 0) && table == map[] && trxTable == map[]
    ensures Represents(table, trxTable, s)
  {
    hide Represents;
    Whole(table, trxTable, s, {});
  }

  class LockManager {
    var table: Table
    var trxTable: TrxTable
    var trxId: int
    ghost var state: State<Lock>
    ghost var history: seq<Event>
    // The run so far, whose last state and history these are.
    ghost var states: seq<State<Lock>>
    ghost var histories: seq<seq<Event>>
    ghost var ops: seq<Op<Lock>>

    ghost predicate Valid()
      reads this, table.Values, trxTable.Values, state.info.Keys
    {
      && Run(states, histories, ops) && state == states[|ops|] && history == histories[|ops|]
      && Full(state, history) && Represents(table, trxTable, state) && trxId == state.last >= 0
    }

    /** Valid, but for the run, to which the last step has still to be added. */
    ghost predicate Stepped()
      reads this, table.Values, trxTable.Values, state.info.Keys
    {
      Represents(table, trxTable, state) && trxId == state.last >= 0
    }

    constructor ()
      ensures Valid() && state == State(map[], map[], map[], {}, 0) && history == [] && ops == []
      ensures table == map[] && trxTable == map[]
    {
      table, trxTable, trxId := map[], map[], 0;
      state, history := State(map[], map[], map[], {}, 0), [];
      states, histories, ops := [State(map[], map[], map[], {}, 0)], [[]], [];
      new;
      hide *;
      NothingLocked(state);
      NothingLinked(table, trxTable, state);
      RunStart<Lock>();
      ValidWhole();
    }

    /** The last step joins the run. */
    ghost method Record(op: Op<Lock>, s: State<Lock>, h: seq<Event>)
      requires Stepped() && Run(states, histories, ops) && s == states[|ops|] && h == histories[|ops|]
      requires Step(s, h, op, state, history)
      modifies `states, `histories, `ops
      ensures Valid() && ops == old(ops) + [op]
      ensures states == old(states) + [state] && histories == old(histories) + [history]
    {
      hide *;
      RunExtends(states, histories, ops, op, state, history);
      RunParts(states, histories, ops);
      SteppedParts();
      states, histories, ops := states + [state], histories + [history], ops + [op];
      ValidWhole();
    }

    /** Every history that the manager has produced is conflict-serializable. */
    lemma HistoryIsSerializable(ts: seq<int>)
      requires Valid() && Path(history, ts)
      ensures ts[0] != ts[|ts| - 1]
    {
      RunsAreSerializable(states, histories, ops, ts);
    }

    /** An access of transaction t to the record r, of which it has been granted the lock l. */
    ghost method Use(t: int, r: Rec, write: bool, l: Lock)
      requires Valid() && Running(state, t) && Grants(state, l, t, r) && (write ==> state.info[l].exclusive)
      modifies `history, `states, `histories, `ops
      ensures Valid() && state == old(state) && history == old(history) + [Access(t, r, write)]
      ensures ops == old(ops) + [Op.Use(t, r, write, l)]
    {
      hide *;
      ValidParts();
      UseFits(state, history, t, r, write, l);
      ghost var h := history;
      history := history + [Access(t, r, write)];
      SteppedWhole();
      Record(Op.Use(t, r, write, l), state, h);
    }

    /** trx_begin. */
    method TrxBegin() returns (id: int)
      requires Valid()
      modifies this
      ensures Valid() && ops == old(ops) + [Op.Begin] && states == old(states) + [state]
      ensures id == old(trxId) + 1 && id !in old(state.owned) && state.owned == old(state.owned)[id := []]
      ensures table == old(table) && fresh(trxTable.Values - old(trxTable.Values))
    {
      hide *;
      ValidParts();
      ghost var s, h := state, history;
      trxId := trxId + 1;
      var entry := new TrxEntry(trxId);
      BeginFits(s, h);
      Begins(table, trxTable, s, entry);
      trxTable := trxTable[trxId := entry];
      state := Begun(s);
      SteppedWhole();
      Record(Op.Begin, s, h);
      id := trxId;
    }

    /**
     lock_acquire. A transaction that waits for a lock, or has begun to commit, asks for nothing. If the lock in
     the answer is waiting, the caller's thread is blocked until a release signals it.
     */
    method LockAcquire(tableId: int, pageId: int, key: int, trxId: int, lockMode: Mode)
      returns (answer: Answer, ghost d: Decision<Lock>)
      requires Valid() && trxId !in state.committing && (trxId in state.owned ==> MayAsk(state, trxId))
      modifies this, table.Values, trxTable.Values, state.info.Keys
      ensures answer.Exit? <==> trxId !in old(state.owned)
      ensures answer.Locked? ==>
        && Valid() && states == old(states) + [state]
        && ops == old(ops) + [Op.Acquire(trxId, Rec(tableId, pageId, key), lockMode == EXCLUSIVE, d, answer.lock)]
        && (d.Enqueue? || answer.lock == d.lock)
      ensures answer.Locked? ==>
        && Answers(old(state), trxId, Rec(tableId, pageId, key), lockMode == EXCLUSIVE, answer.lock, state)
        && HoldsAsked(state, history, trxId, Rec(tableId, pageId, key), lockMode == EXCLUSIVE, answer.lock)
      ensures trxTable == old(trxTable) && fresh(table.Values - old(table.Values))
      ensures answer.Locked? ==> fresh(state.info.Keys - old(state.info.Keys))
    {
      hide *;
      ValidParts();
      ghost var s', h';
      var r := Rec(tableId, pageId, key);
      table, answer, d, s', h' := AcquireFrom(table, trxTable, r, trxId, lockMode, state, history);
      if answer.Locked? {
        ghost var s, h := state, history;
        state, history := s', h';
        SteppedWhole();
        Record(Op.Acquire(trxId, Rec(tableId, pageId, key), lockMode == EXCLUSIVE, d, answer.lock), s, h);
      }
    }

    lemma ValidParts()
      requires Valid()
      ensures Full(state, history) && Core(state) && Represents(table, trxTable, state) && trxId == state.last >= 0
      ensures Run(states, histories, ops) && |states| == |histories| == |ops| + 1
      ensures state == states[|ops|] && history == histories[|ops|]
    {}

    lemma ValidWhole()
      requires Run(states, histories, ops) && |states| == |histories| == |ops| + 1
      requires state == states[|ops|] && history == histories[|ops|]
      requires Represents(table, trxTable, state) && trxId == state.last >= 0
      ensures Valid()
    {
      hide Full, Represents;
      RunParts(states, histories, ops);
    }

    lemma SteppedWhole()
      requires Represents(table, trxTable, state) && trxId == state.last >= 0
      ensures Stepped()
    {}

    lemma SteppedParts()
      requires Stepped()
      ensures Represents(table, trxTable, state) && trxId == state.last >= 0
    {}

    /** lock_release, of a committing transaction's oldest lock. */
    method LockRelease(l: Lock)
      requires Valid() && Releasable(state, l)
      modifies this, table.Values, state.info.Keys
      ensures Valid() && ops == old(ops) + [Op.ReleaseLock(l)] && states == old(states) + [state]
      ensures table == old(table) && trxTable == old(trxTable) && state.info.Keys == old(state.info.Keys) - {l}
      ensures forall m :: m in state.info ==>
        (state.info[m].granted <==> old(state).info[m].granted || LetsGo(old(state), l, m))
    {
      hide *;
      ValidParts();
      ghost var s, h := state, history;
      ReleaseFits(s, h, l);
      ReleaseIn(l, table, trxTable, s, h);
      ghost var z := ReleaseState(s, h, l);
      state, history := z.0, z.1;
      SteppedWhole();
      Record(Op.ReleaseLock(l), s, h);
    }

    /** The loop of trx_commit, and the entry that is cleared behind it. */
    method ReleaseLocks(t: int)
      requires Stepped() && Full(state, history) && Running(state, t) && t in trxTable && trxTable[t] != null
      requires trxTable[t].first == At(state.owned[t], 0)
      modifies `trxTable, `state, `history, table.Values, state.info.Keys
      ensures Stepped() && (state, history) == Committed(old(state), old(history), t)
      ensures trxTable == old(trxTable)[t := null] && state.info.Keys <= old(state.info.Keys)
    {
      hide *;
      SteppedParts();
      RunningKnown(state, t);
      ghost var s, h := ReleaseAll(trxTable[t].first, table, trxTable, t, state, history);
      EndFits(s, h, t);
      Finishes(table, trxTable, s, t);
      trxTable, state, history := trxTable[t := null], Ended(s, t), h;
      SteppedWhole();
    }

    /** trx_commit. The result says whether the transaction was known; if not, the source exits. */
    method TrxCommit(t: int) returns (known: bool)
      requires Valid() && t !in state.committing && (t in state.owned ==> Running(state, t))
      modifies this, table.Values, trxTable.Values, state.info.Keys
      ensures Valid()
      ensures known <==> t in old(state.owned)
      ensures known ==> (state, history) == Committed(old(state), old(history), t)
      ensures known ==> ops == old(ops) + CommitOps(old(state).owned[t], t) && old(states) <= states
      ensures !known ==> state == old(state) && history == old(history)
      ensures table == old(table) && trxTable == (if known then old(trxTable)[t := null] else old(trxTable))
      ensures state.info.Keys <= old(state.info.Keys)
    {
      hide *;
      ValidParts();
      FirstOf(table, trxTable, state, t);
      if t < 1 || t !in trxTable || trxTable[t] == null {
        return false;
      }
      known := true;
      ghost var ss, hs, os := CommitIsRun(states, histories, ops, t);
      RunParts(ss, hs, os);
      SteppedWhole();
      ReleaseLocks(t);
      SteppedParts();
      states, histories, ops := ss, hs, os;
      ValidWhole();
    }
  }
}

/**
 The nodes of the in-memory B+ tree of bpt.cc: a key array, a pointer array, and a parent pointer. The
 methods change one or two nodes in place; their contracts say what happens to the nodes' values.
 */
module BPlusNode {
  import opened BPlusGraph
  import opened Arrays
  import opened BPlusSplit
  import opened BPlusMerge
  import opened BPlusMap
  import opened BPlusInsertion
  import opened BPlusDeletion

  type Key = k: int | MIN_KEY <= k < KEY_LIMIT

  type Pointer = Ptr<Node, Record>

  class Record {
    const value: int

    constructor (value: int)
      ensures this.value == value
    {
      this.value := value;
    }
  }

  class Node {
    const keys: array<int>
    const pointers: array<Pointer>
    var parent: Node?
    var isLeaf: bool
    var numKeys: nat
    // Where the node stands in the tree: its distance to the leaves and the keys it is responsible for.
    ghost var level: nat
    ghost var lo: int
    ghost var hi: int

    constructor (order: nat, isLeaf: bool)
      requires order >= 3
      ensures keys.Length == order - 1 && pointers.Length == order && fresh(keys) && fresh(pointers)
      ensures numKeys == 0 && parent == null && this.isLeaf == isLeaf
    {
      keys := new int[order - 1];
      pointers := new Pointer[order];
      this.isLeaf := isLeaf;
      numKeys := 0;
      parent := null;
    }

    ghost predicate Fits()
      reads this
    {
      pointers.Length == keys.Length + 1 && numKeys <= keys.Length
    }

    function PointerCount(): nat
      reads this
    {
      if isLeaf then numKeys else numKeys + 1
    }

    /** The pointer slots that are not in use are null; a leaf's last slot is its link to the next leaf. */
    ghost predicate Tidied()
      reads this, pointers
    {
      forall i :: PointerCount() <= i < pointers.Length - (if isLeaf then 1 else 0) ==> pointers[i].NullPtr?
    }

    ghost function Value(): Val<Node, Record>
      requires Fits()
      reads this, keys, pointers
    {
      Val(isLeaf, keys[..numKeys], pointers[..PointerCount()],
          if isLeaf then pointers[pointers.Length - 1] else NullPtr, Up(), level, lo, hi)
    }

    ghost function Up(): Pointer
      reads `parent
    {
      if parent == null then NullPtr else var p: Node := parent; ToNode(p)
    }
  }

  // ----- Changing one node -----

  /** The first position whose key is not below `key`. */
  method InsertionPoint(leaf: Node, key: int) returns (i: nat)
    requires leaf.Fits() && leaf.isLeaf
    requires Sorted(leaf.Value().keys) && key !in leaf.Value().keys
    ensures Slot(leaf.Value().keys, i, key)
  {
    i := 0;
    ghost var ks := leaf.Value().keys;
    while i < leaf.numKeys && leaf.keys[i] < key
      invariant i <= leaf.numKeys
      invariant i == 0 || ks[i - 1] < key
    {
      i := i + 1;
    }
    assert i < |ks| ==> ks[i] in ks;
  }

  /** The leaf has room: the entry goes to its place in key order. */
  method InsertIntoLeaf(leaf: Node, key: int, pointer: Record) returns (ghost i: nat)
    requires leaf.Fits() && leaf.isLeaf && leaf.numKeys < leaf.keys.Length
    requires Sorted(leaf.Value().keys) && key !in leaf.Value().keys
    modifies leaf`numKeys, leaf.keys, leaf.pointers
    ensures leaf.Fits() && Slot(old(leaf.Value().keys), i, key)
    ensures leaf.Value() == InsertVal(old(leaf.Value()), i, key, pointer)
  {
    var insertionPoint := InsertionPoint(leaf, key);
    i := insertionPoint;
    InsertAt(leaf.keys, leaf.numKeys, insertionPoint, key);
    InsertAt(leaf.pointers, leaf.numKeys, insertionPoint, ToRecord(pointer));
    leaf.numKeys := leaf.numKeys + 1;
  }

  /** n keys have been divided between two nodes, the odd one to the right. */
  ghost predicate InHalves<N, R>(left: Val<N, R>, right: Val<N, R>, n: int) {
    |left.keys| + |right.keys| == n && |left.keys| <= |right.keys| <= |left.keys| + 1
  }

  lemma HalvesOf<N, R>(v: Val<N, R>, order: nat, right: N)
    requires order >= 3 && |v.keys| == order && Divisible(v, MinKeys(order, v.leaf))
    ensures var s := MinKeys(order, v.leaf);
      InHalves(LeftHalf(v, s, right), RightHalf(v, s), if v.leaf then order else order - 1)
  {}

  /** The leaf is full: with the new entry it splits in half, and a new leaf takes the upper half. */
  method SplitLeaf(leaf: Node, key: int, pointer: Record) returns (newLeaf: Node, ghost i: nat)
    requires leaf.Fits() && leaf.isLeaf && leaf.numKeys == leaf.keys.Length >= 2
    requires Sorted(leaf.Value().keys) && key !in leaf.Value().keys
    modifies leaf`numKeys, leaf`hi, leaf.keys, leaf.pointers
    ensures fresh(newLeaf) && fresh(newLeaf.keys) && fresh(newLeaf.pointers)
    ensures newLeaf.keys.Length == leaf.keys.Length && newLeaf.pointers.Length == leaf.pointers.Length
    ensures leaf.Fits() && newLeaf.Fits() && i <= |old(leaf.Value().keys)| && Slot(old(leaf.Value().keys), i, key)
    ensures
      var v := InsertVal(old(leaf.Value()), i, key, pointer);
      var s := MinKeys(leaf.pointers.Length, true);
      && Divisible(v, s)
      && leaf.Value() == LeftHalf(v, s, newLeaf)
      && newLeaf.Value() == RightHalf(v, s)
      && newLeaf.keys[0] == v.keys[s]
    ensures InHalves(leaf.Value(), newLeaf.Value(), leaf.pointers.Length)
  {
    hide Ins, Slot, Sorted;
    var order := leaf.pointers.Length;
    newLeaf := new Node(order, true);
    var tempKeys, tempPointers;
    tempKeys, tempPointers, i := TempLeafEntries(leaf, key, pointer);
    DivideLeaf(leaf, newLeaf, tempKeys, tempPointers, Cut(order - 1));
    HalvesOf(InsertVal(old(leaf.Value()), i, key, pointer), order, newLeaf);
  }

  /** The temporary arrays of a leaf split: the old entries with the new one in its place. */
  method TempLeafEntries(leaf: Node, key: int, pointer: Record)
    returns (tempKeys: array<int>, tempPointers: array<Pointer>, ghost i: nat)
    requires leaf.Fits() && leaf.isLeaf && leaf.numKeys == leaf.keys.Length
    requires Sorted(leaf.Value().keys) && key !in leaf.Value().keys
    ensures fresh(tempKeys) && fresh(tempPointers)
    ensures i <= |leaf.Value().keys| == |leaf.Value().ptrs| && Slot(leaf.Value().keys, i, key)
    ensures tempKeys.Length == tempPointers.Length == leaf.pointers.Length
    ensures tempKeys[..] == Ins(leaf.Value().keys, i, key)
    ensures tempPointers[..] == Ins(leaf.Value().ptrs, i, ToRecord(pointer))
  {
    var order := leaf.pointers.Length;
    tempKeys, tempPointers := new int[order], new Pointer[order];
    var insertionIndex := InsertionPoint(leaf, key);
    i := insertionIndex;
    CopyWithInsert(leaf.keys, leaf.numKeys, tempKeys, insertionIndex, key);
    CopyWithInsert(leaf.pointers, leaf.numKeys, tempPointers, insertionIndex, ToRecord(pointer));
    assert tempKeys[..] == tempKeys[..order] && tempPointers[..] == tempPointers[..order];
  }

  /** Copies the temporary arrays of a leaf split back and threads the new leaf into the chain. */
  method DivideLeaf(leaf: Node, newLeaf: Node, tempKeys: array<int>, tempPointers: array<Pointer>, split: nat)
    requires leaf.isLeaf && newLeaf.isLeaf && leaf.Fits()
    requires leaf != newLeaf && leaf.keys != newLeaf.keys && leaf.pointers != newLeaf.pointers
    requires leaf.keys.Length == newLeaf.keys.Length && leaf.pointers.Length == newLeaf.pointers.Length
    requires tempKeys.Length == tempPointers.Length == leaf.pointers.Length
    requires tempKeys !in {leaf.keys, newLeaf.keys} && tempPointers !in {leaf.pointers, newLeaf.pointers}
    requires 1 <= split < leaf.pointers.Length
    modifies leaf`numKeys, leaf`hi, leaf.keys, leaf.pointers, newLeaf, newLeaf.keys, newLeaf.pointers
    ensures leaf.Fits() && newLeaf.Fits()
    ensures
      var v, ks, ps := old(leaf.Value()), old(tempKeys[..]), old(tempPointers[..]);
      && leaf.Value() == v.(keys := ks[..split], ptrs := ps[..split], next := ToNode(newLeaf), hi := ks[split])
      && newLeaf.Value() == v.(keys := ks[split..], ptrs := ps[split..], lo := ks[split])
      && newLeaf.keys[0] == ks[split]
  {
    var order := leaf.pointers.Length;
    newLeaf.parent := leaf.parent;
    newLeaf.level, newLeaf.lo, newLeaf.hi, leaf.hi := leaf.level, tempKeys[split], leaf.hi, tempKeys[split];
    leaf.numKeys, newLeaf.numKeys := split, order - split;
    Divide(tempKeys, split, split, leaf.keys, newLeaf.keys);
    assert newLeaf.keys[0] == newLeaf.keys[..order - split][0];
    DivideLeafPointers(leaf.pointers, newLeaf.pointers, tempPointers, split, newLeaf);
  }

  method DivideLeafPointers(
    pointers: array<Pointer>, newPointers: array<Pointer>, temp: array<Pointer>, split: nat, newLeaf: Node)
    requires pointers != newPointers && temp != pointers && temp != newPointers
    requires pointers.Length == newPointers.Length == temp.Length && 1 <= split < temp.Length
    modifies pointers, newPointers
    ensures pointers[..split] == temp[..split] && newPointers[..temp.Length - split] == temp[split..]
    ensures pointers[temp.Length - 1] == ToNode(newLeaf)
    ensures newPointers[temp.Length - 1] == old(pointers[temp.Length - 1])
  {
    var order := temp.Length;
    Divide(temp, split, split, pointers, newPointers);
    newPointers[order - 1] := pointers[order - 1];
    pointers[order - 1] := ToNode(newLeaf);
    Fill(pointers, split, order - 1, NullPtr);
    Fill(newPointers, order - split, order - 1, NullPtr);
  }

  /** The inner node has room: the separator and the pointer to its right go in at leftIndex. */
  method InsertIntoNode(n: Node, leftIndex: nat, key: int, right: Node)
    requires n.Fits() && !n.isLeaf && leftIndex <= n.numKeys < n.keys.Length
    modifies n`numKeys, n.keys, n.pointers
    ensures n.Fits()
    ensures n.Value() == old(n.Value()).(
      keys := Ins(old(n.Value().keys), leftIndex, key),
      ptrs := Ins(old(n.Value().ptrs), leftIndex + 1, ToNode(right)))
  {
    InsertAt(n.pointers, n.numKeys + 1, leftIndex + 1, ToNode(right));
    InsertAt(n.keys, n.numKeys, leftIndex, key);
    n.numKeys := n.numKeys + 1;
  }

  /** The inner node is full: it splits around the middle key, and a new node takes the upper half. */
  method SplitNode(oldNode: Node, leftIndex: nat, key: int, right: Node) returns (newNode: Node, kPrime: int)
    requires oldNode.Fits() && !oldNode.isLeaf && leftIndex <= oldNode.numKeys == oldNode.keys.Length
      && oldNode.numKeys >= 2
    modifies oldNode`numKeys, oldNode`hi, oldNode.keys, oldNode.pointers
    ensures fresh(newNode) && fresh(newNode.keys) && fresh(newNode.pointers)
    ensures newNode.keys.Length == oldNode.keys.Length && newNode.pointers.Length == oldNode.pointers.Length
    ensures oldNode.Fits() && newNode.Fits()
    ensures
      var v := LinkedVal(old(oldNode.Value()), leftIndex, key, right);
      var s := MinKeys(oldNode.pointers.Length, false);
      && Divisible(v, s)
      && kPrime == v.keys[s]
      && oldNode.Value() == LeftHalf(v, s, newNode)
      && newNode.Value() == RightHalf(v, s)
    ensures InHalves(oldNode.Value(), newNode.Value(), oldNode.pointers.Length - 1)
  {
    var order := oldNode.pointers.Length;
    var tempKeys, tempPointers := TempNodeEntries(oldNode, leftIndex, key, right);
    newNode := new Node(order, false);
    kPrime := tempKeys[Cut(order) - 1];
    DivideNode(oldNode, newNode, tempKeys, tempPointers, Cut(order));
    HalvesOf(LinkedVal(old(oldNode.Value()), leftIndex, key, right), order, newNode);
  }

  /** The temporary arrays of an inner split: separator and pointer inserted among the old ones. */
  method TempNodeEntries(oldNode: Node, leftIndex: nat, key: int, right: Node)
    returns (tempKeys: array<int>, tempPointers: array<Pointer>)
    requires oldNode.Fits() && !oldNode.isLeaf && leftIndex <= oldNode.numKeys == oldNode.keys.Length
    ensures fresh(tempKeys) && fresh(tempPointers)
    ensures tempKeys.Length + 1 == tempPointers.Length == oldNode.pointers.Length + 1
    ensures tempKeys[..] == Ins(oldNode.Value().keys, leftIndex, key)
    ensures tempPointers[..] == Ins(oldNode.Value().ptrs, leftIndex + 1, ToNode(right))
  {
    var order := oldNode.pointers.Length;
    tempKeys, tempPointers := new int[order], new Pointer[order + 1];
    CopyWithInsert(oldNode.pointers, oldNode.numKeys + 1, tempPointers, leftIndex + 1, ToNode(right));
    CopyWithInsert(oldNode.keys, oldNode.numKeys, tempKeys, leftIndex, key);
    assert tempKeys[..] == tempKeys[..order] && tempPointers[..] == tempPointers[..order + 1];
  }

  /** Copies the temporary arrays of an inner split back, leaving out the key at split - 1. */
  method DivideNode(oldNode: Node, newNode: Node, tempKeys: array<int>, tempPointers: array<Pointer>, split: nat)
    requires !oldNode.isLeaf && !newNode.isLeaf && oldNode.Fits()
    requires oldNode != newNode && oldNode.keys != newNode.keys && oldNode.pointers != newNode.pointers
    requires oldNode.keys.Length == newNode.keys.Length && oldNode.pointers.Length == newNode.pointers.Length
    requires tempKeys.Length + 1 == tempPointers.Length == oldNode.pointers.Length + 1
    requires tempKeys !in {oldNode.keys, newNode.keys} && tempPointers !in {oldNode.pointers, newNode.pointers}
    requires 1 <= split < oldNode.pointers.Length
    modifies oldNode`numKeys, oldNode`hi, oldNode.keys, oldNode.pointers, newNode, newNode.keys, newNode.pointers
    ensures oldNode.Fits() && newNode.Fits()
    ensures
      var v, ks, ps := old(oldNode.Value()), old(tempKeys[..]), old(tempPointers[..]);
      && oldNode.Value() == v.(keys := ks[..split - 1], ptrs := ps[..split], hi := ks[split - 1])
      && newNode.Value() == v.(keys := ks[split..], ptrs := ps[split..], lo := ks[split - 1])
  {
    var order := oldNode.pointers.Length;
    newNode.parent := oldNode.parent;
    newNode.level, newNode.lo, newNode.hi, oldNode.hi :=
      oldNode.level, tempKeys[split - 1], oldNode.hi, tempKeys[split - 1];
    oldNode.numKeys, newNode.numKeys := split - 1, order - split;
    Divide(tempKeys, split - 1, split, oldNode.keys, newNode.keys);
    Divide(tempPointers, split, split, oldNode.pointers, newNode.pointers);
  }

  ghost function NodesIn(ps: seq<Pointer>): set<Node> {
    set p | p in ps && p.ToNode? :: p.node
  }

  /** Every child of n is made to point up to n. */
  method AdoptChildren(n: Node)
    requires n.Fits() && !n.isLeaf && forall p :: p in n.Value().ptrs ==> p.ToNode?
    modifies NodesIn(n.Value().ptrs)`parent
    ensures forall c :: c in NodesIn(n.Value().ptrs) ==> c.parent == n
  {
    ghost var ps := n.Value().ptrs;
    var i := 0;
    while i <= n.numKeys
      invariant i <= n.numKeys + 1
      invariant forall j :: 0 <= j < i ==> ps[j].node.parent == n
    {
      assert ps[i] in ps && n.pointers[i] == ps[i];
      var child := n.pointers[i].node;
      child.parent := n;
      i := i + 1;
    }
  }

  /** Finds the key and the pointer, each by its own scan, and closes the two gaps. */
  method RemoveEntryFromNode(n: Node, key: int, pointer: Pointer, ghost i: nat)
    requires n.Fits() && i < n.numKeys && n.keys[i] == key
    requires forall j :: 0 <= j < i ==> n.keys[j] != key
    requires
      var at := if n.isLeaf then i else i + 1;
      n.pointers[at] == pointer && forall j :: 0 <= j < at ==> n.pointers[j] != pointer
    modifies n`numKeys, n.keys, n.pointers
    ensures n.Fits() && n.Value() == RemoveVal(old(n.Value()), i) && n.Tidied()
  {
    var k := FirstIndex(n.keys, key, i);
    DeleteAt(n.keys, n.numKeys, k);
    var p := FirstIndex(n.pointers, pointer, if n.isLeaf then i else i + 1);
    DeleteAt(n.pointers, n.PointerCount(), p);
    n.numKeys := n.numKeys - 1;
    Tidy(n);
  }

  /** Clears the unused pointer slots, but not a leaf's link to the next leaf. */
  method Tidy(n: Node)
    requires n.Fits() && n.numKeys < n.keys.Length
    modifies n.pointers
    ensures n.Value() == old(n.Value()) && n.Tidied()
  {
    var order := n.pointers.Length;
    if n.isLeaf {
      Fill(n.pointers, n.numKeys, order - 1, NullPtr);
    } else {
      Fill(n.pointers, n.numKeys + 1, order, NullPtr);
    }
  }

  ghost predicate Apart(a: Node, b: Node)
    reads a, b
  {
    && a != b && a.keys != b.keys && a.pointers != b.pointers
    && a.Fits() && b.Fits() && a.keys.Length == b.keys.Length
    && a.isLeaf == b.isLeaf
  }

  /** Appends the entries of leaf n to its left neighbour, which also inherits the link to the next leaf. */
  method AppendLeaf(neighbor: Node, n: Node)
    requires Apart(neighbor, n) && n.isLeaf && neighbor.numKeys + n.numKeys <= n.keys.Length
    modifies neighbor`numKeys, neighbor`hi, neighbor.keys, neighbor.pointers
    ensures neighbor.Fits() && neighbor.Value() == Merged(old(neighbor.Value()), n.Value(), neighbor.lo)
  {
    var order := n.pointers.Length;
    neighbor.hi := n.hi;
    var at := neighbor.numKeys;
    neighbor.numKeys := neighbor.numKeys + n.numKeys;
    Append(n.keys, n.numKeys, neighbor.keys, at);
    Append(n.pointers, n.numKeys, neighbor.pointers, at);
    neighbor.pointers[order - 1] := n.pointers[order - 1];
  }

  /** Appends the separator and the entries of inner node n to its left neighbour. */
  method AppendNode(neighbor: Node, n: Node, kPrime: int)
    requires Apart(neighbor, n) && !n.isLeaf && neighbor.numKeys + n.numKeys < n.keys.Length
    modifies neighbor`numKeys, neighbor`hi, neighbor.keys, neighbor.pointers, n`numKeys
    ensures neighbor.Fits() && neighbor.Value() == Merged(old(neighbor.Value()), old(n.Value()), kPrime)
  {
    neighbor.hi := n.hi;
    var at, nEnd := neighbor.numKeys, n.numKeys;
    neighbor.numKeys, n.numKeys := at + 1 + nEnd, 0;
    PushBack(neighbor.keys, at, kPrime);
    Append(n.keys, nEnd, neighbor.keys, at + 1);
    Append(n.pointers, nEnd + 1, neighbor.pointers, at + 1);
  }

  /** The last entry of the left leaf becomes the first of the right one. */
  method ShiftLeafRight(left: Node, right: Node)
    requires Apart(left, right) && left.isLeaf && left.numKeys >= 1 && right.numKeys < right.keys.Length
    modifies left`numKeys, left`hi, left.pointers, right`numKeys, right`lo, right.keys, right.pointers
    ensures left.Fits() && right.Fits()
    ensures
      (left.Value(), right.Value()) == LeafToRight(old(left.Value()), old(right.Value()))
  {
    hide *;
    ApartParts(left, right);
    var s, n, sep := left.numKeys - 1, right.numKeys, left.keys[left.numKeys - 1];
    ghost var v, w := left.Value(), right.Value();
    LeafParts(left);
    LeafParts(right);
    MoveLastEntry(left.keys, left.pointers, s, right.keys, right.pointers, n);
    left.hi, right.lo := sep, sep;
    left.numKeys, right.numKeys := s, n + 1;
    FitsIs(left);
    FitsIs(right);
    LeafParts(left);
    LeafParts(right);
    LeafToRightIs(v, w, left.Value(), right.Value());
  }

  lemma ApartParts(a: Node, b: Node)
    requires Apart(a, b)
    ensures a != b && a.keys != b.keys && a.pointers != b.pointers && a.Fits() && b.Fits() && a.isLeaf == b.isLeaf
    ensures a.keys.Length == b.keys.Length && a.pointers.Length == b.pointers.Length == a.keys.Length + 1
    ensures a.numKeys <= a.keys.Length && b.numKeys <= b.keys.Length
  {}

  lemma FitsIs(n: Node)
    ensures n.Fits() <==> n.pointers.Length == n.keys.Length + 1 && n.numKeys <= n.keys.Length
  {}

  lemma LeafParts(n: Node)
    requires n.Fits() && n.isLeaf
    ensures n.Value() == Val(
      true, n.keys[..n.numKeys], n.pointers[..n.numKeys], n.pointers[n.pointers.Length - 1],
      n.Up(), n.level, n.lo, n.hi)
  {}

  lemma LeafToRightIs(v: Val<Node, Record>, w: Val<Node, Record>, x: Val<Node, Record>, y: Val<Node, Record>)
    requires |v.keys| >= 1 && |v.ptrs| == |v.keys|
    requires var s := |v.keys| - 1;
      && x == v.(keys := v.keys[..s], ptrs := v.ptrs[..s], hi := v.keys[s])
      && y == w.(keys := [v.keys[s]] + w.keys, ptrs := [v.ptrs[s]] + w.ptrs, lo := v.keys[s])
    ensures (x, y) == LeafToRight(v, w)
  {}

  /** The entry at s of the left leaf's arrays goes in front of the n entries of the right leaf's arrays. */
  method MoveLastEntry(
    leftKeys: array<int>, leftPointers: array<Pointer>, s: nat,
    rightKeys: array<int>, rightPointers: array<Pointer>, n: nat)
    requires leftKeys != rightKeys && leftPointers != rightPointers && s < leftKeys.Length && n < rightKeys.Length
    requires s + 1 < leftPointers.Length && n + 1 < rightPointers.Length
    modifies leftPointers, rightKeys, rightPointers
    ensures leftPointers[..s] == old(leftPointers[..s])
    ensures rightKeys[..n + 1] == [leftKeys[s]] + old(rightKeys[..n])
    ensures rightPointers[..n + 1] == [old(leftPointers[s])] + old(rightPointers[..n])
    ensures leftPointers[leftPointers.Length - 1] == old(leftPointers[leftPointers.Length - 1])
    ensures rightPointers[rightPointers.Length - 1] == old(rightPointers[rightPointers.Length - 1])
  {
    PushFront(rightPointers, n, leftPointers[s]);
    leftPointers[s] := NullPtr;
    PushFront(rightKeys, n, leftKeys[s]);
  }

  /** The last child of the left node becomes the first of the right one; the separator moves down. */
  method ShiftNodeRight(left: Node, right: Node, kPrime: int)
    requires Apart(left, right) && !left.isLeaf && left.numKeys >= 1 && right.numKeys < right.keys.Length
    modifies left`numKeys, left`hi, left.pointers, right`numKeys, right`lo, right.keys, right.pointers
    ensures left.Fits() && right.Fits()
    ensures
      (left.Value(), right.Value()) == NodeToRight(old(left.Value()), old(right.Value()), kPrime)
  {
    var s, n, sep := left.numKeys - 1, right.numKeys, left.keys[left.numKeys - 1];
    ghost var v, w := left.Value(), right.Value();
    MoveLastChild(left.pointers, s + 1, right.keys, right.pointers, n, kPrime);
    left.hi, right.lo := sep, sep;
    left.numKeys, right.numKeys := s, n + 1;
    assert left.Value() == v.(keys := v.keys[..s], ptrs := v.ptrs[..s + 1], hi := v.keys[s]);
    assert right.Value() == w.(keys := [kPrime] + w.keys, ptrs := [v.ptrs[s + 1]] + w.ptrs, lo := v.keys[s]);
  }

  /** The pointer at s goes in front of the right node's n + 1 pointers, the separator in front of its n keys. */
  method MoveLastChild(
    leftPointers: array<Pointer>, s: nat, rightKeys: array<int>, rightPointers: array<Pointer>, n: nat, kPrime: int)
    requires leftPointers != rightPointers && s < leftPointers.Length && n < rightKeys.Length
      && n + 1 < rightPointers.Length
    modifies leftPointers, rightKeys, rightPointers
    ensures leftPointers[..s] == old(leftPointers[..s])
    ensures rightKeys[..n + 1] == [kPrime] + old(rightKeys[..n])
    ensures rightPointers[..n + 2] == [old(leftPointers[s])] + old(rightPointers[..n + 1])
  {
    PushFront(rightPointers, n + 1, leftPointers[s]);
    leftPointers[s] := NullPtr;
    PushFront(rightKeys, n, kPrime);
  }

  /** The first entry of the right leaf becomes the last of the left one. */
  method ShiftLeafLeft(left: Node, right: Node)
    requires Apart(left, right) && left.isLeaf && left.numKeys < left.keys.Length && right.numKeys >= 2
    modifies left`numKeys, left`hi, left.keys, left.pointers, right`numKeys, right`lo, right.keys, right.pointers
    ensures left.Fits() && right.Fits()
    ensures
      (left.Value(), right.Value()) == LeafToLeft(old(left.Value()), old(right.Value()))
  {
    var m, n, sep := left.numKeys, right.numKeys, right.keys[1];
    ghost var v, w := left.Value(), right.Value();
    MoveFirstEntry(left.keys, left.pointers, m, right.keys, right.pointers, n);
    left.hi, right.lo := sep, sep;
    left.numKeys, right.numKeys := m + 1, n - 1;
    assert left.Value() == v.(keys := v.keys + [w.keys[0]], ptrs := v.ptrs + [w.ptrs[0]], hi := w.keys[1]);
    assert right.Value() == w.(keys := w.keys[1..], ptrs := w.ptrs[1..], lo := w.keys[1]);
  }

  /** The first of n entries of the right leaf's arrays goes behind the m entries of the left leaf's arrays. */
  method MoveFirstEntry(
    leftKeys: array<int>, leftPointers: array<Pointer>, m: nat,
    rightKeys: array<int>, rightPointers: array<Pointer>, n: nat)
    requires leftKeys != rightKeys && leftPointers != rightPointers && m < leftKeys.Length && 0 < n <= rightKeys.Length
    requires m + 1 < leftPointers.Length && n < rightPointers.Length
    modifies leftKeys, leftPointers, rightKeys, rightPointers
    ensures leftKeys[..m + 1] == old(leftKeys[..m]) + [old(rightKeys[..n])[0]]
    ensures leftPointers[..m + 1] == old(leftPointers[..m]) + [old(rightPointers[..n])[0]]
    ensures rightKeys[..n - 1] == old(rightKeys[..n])[1..] && rightPointers[..n - 1] == old(rightPointers[..n])[1..]
    ensures leftPointers[leftPointers.Length - 1] == old(leftPointers[leftPointers.Length - 1])
    ensures rightPointers[rightPointers.Length - 1] == old(rightPointers[rightPointers.Length - 1])
  {
    MoveFirst(rightKeys, n, leftKeys, m);
    MoveFirst(rightPointers, n, leftPointers, m);
  }

  /** The first child of the right node becomes the last of the left one; the separator moves down. */
  method ShiftNodeLeft(left: Node, right: Node, kPrime: int)
    requires Apart(left, right) && !left.isLeaf && left.numKeys < left.keys.Length && right.numKeys >= 1
    modifies left`numKeys, left`hi, left.keys, left.pointers, right`numKeys, right`lo, right.keys, right.pointers
    ensures left.Fits() && right.Fits()
    ensures
      (left.Value(), right.Value()) == NodeToLeft(old(left.Value()), old(right.Value()), kPrime)
  {
    var m, n, sep := left.numKeys, right.numKeys, right.keys[0];
    ghost var v, w := left.Value(), right.Value();
    MoveFirstChild(left.keys, left.pointers, m, right.keys, right.pointers, n, kPrime);
    left.hi, right.lo := sep, sep;
    left.numKeys, right.numKeys := m + 1, n - 1;
    assert left.Value() == v.(keys := v.keys + [kPrime], ptrs := v.ptrs + [w.ptrs[0]], hi := w.keys[0]);
    assert right.Value() == w.(keys := w.keys[1..], ptrs := w.ptrs[1..], lo := w.keys[0]);
  }

  /** The first pointer of the right node goes behind the left node's m + 1 pointers, the separator behind its keys. */
  method MoveFirstChild(
    leftKeys: array<int>, leftPointers: array<Pointer>, m: nat,
    rightKeys: array<int>, rightPointers: array<Pointer>, n: nat, kPrime: int)
    requires leftKeys != rightKeys && leftPointers != rightPointers && m < leftKeys.Length && 0 < n <= rightKeys.Length
    requires m + 1 < leftPointers.Length && n < rightPointers.Length
    modifies leftKeys, leftPointers, rightKeys, rightPointers
    ensures leftKeys[..m + 1] == old(leftKeys[..m]) + [kPrime] && rightKeys[..n - 1] == old(rightKeys[..n])[1..]
    ensures leftPointers[..m + 2] == old(leftPointers[..m + 1]) + [old(rightPointers[0])]
    ensures rightPointers[..n] == old(rightPointers[..n + 1])[1..]
  {
    PushBack(leftKeys, m, kPrime);
    PopFront(rightKeys, n);
    MoveFirst(rightPointers, n + 1, leftPointers, m + 1);
  }

  /** A new inner node above left and right, with key between them. */
  method MakeRoot(order: nat, left: Node, key: int, right: Node) returns (r: Node)
    requires order >= 3 && left.Fits() && right.Fits() && left != right
    modifies left`parent, right`parent
    ensures fresh(r) && fresh(r.keys) && fresh(r.pointers)
    ensures r.keys.Length == order - 1 && r.pointers.Length == order && r.Fits()
    ensures r.Value() == Val(
      false, [key], [ToNode(left), ToNode(right)], NullPtr, NullPtr, left.level + 1, MIN_KEY, KEY_LIMIT)
    ensures left.Value() == old(left.Value()).(parent := ToNode(r))
    ensures right.Value() == old(right.Value()).(parent := ToNode(r))
  {
    r := new Node(order, false);
    r.numKeys := 1;
    r.parent := null;
    r.level, r.lo, r.hi := left.level + 1, MIN_KEY, KEY_LIMIT;
    left.parent := r;
    right.parent := r;
    r.keys[0] := key;
    r.pointers[0] := ToNode(left);
    r.pointers[1] := ToNode(right);
  }
}

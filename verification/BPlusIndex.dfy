/** The in-memory tree as its callers see it: a map from keys to values, with search, insertion, deletion and scan. */
module BPlusIndex {
  import opened BPlusGraph
  import opened BPlusMap
  import opened BPlusNode
  import opened BPlusQueries
  import opened Algorithms = BPlusTree

  /** The values of the records. */
  ghost function Values(M: map<int, Record>): map<int, int> {
    map k | k in M :: M[k].value
  }

  lemma ValuesAt(M: map<int, Record>, k: int)
    ensures k in M <==> k in Values(M)
    ensures k in M ==> Values(M)[k] == M[k].value
  {}

  lemma ValuesAdd(M: map<int, Record>, k: int, r: Record)
    ensures Values(M[k := r]) == Values(M)[k := r.value]
  {}

  lemma ValuesRemove(M: map<int, Record>, k: int)
    ensures Values(M - {k}) == Values(M) - {k}
  {}

  lemma InjectiveAdd<R>(M: map<int, R>, k: int, r: R)
    requires Injective(M) && forall j :: j in M ==> M[j] != r
    ensures Injective(M[k := r])
  {}

  lemma InjectiveRemove<R>(M: map<int, R>, k: int)
    requires Injective(M)
    ensures Injective(M - {k})
  {}

  /** The records found hold the values of the keys found. */
  ghost predicate Valued(m: map<int, int>, ks: seq<int>, ps: seq<Record?>) {
    |ps| == |ks| && forall x :: 0 <= x < |ks| ==> ks[x] in m && ps[x] != null && ps[x].value == m[ks[x]]
  }

  lemma ValuesFound(M: map<int, Record>, lo: int, hi: int, ks: seq<int>, ps: seq<Record?>)
    requires Recorded(M, ks, ps)
    ensures Valued(Values(M), ks, ps) && (IsRange(Values(M), lo, hi, ks) <==> IsRange(M, lo, hi, ks))
  {}

  class BPlusTree {
    const order: nat
    var root: Node?
    ghost var tree: Graph<Node, Record>
    ghost var contents: map<int, Record>
    ghost var repr: set<object>

    ghost predicate Valid()
      reads this, repr
    {
      && order >= 3
      && this !in repr
      && Injective(contents)
      && Outcome(order, root, tree, repr, contents)
    }

    /** The finite map the tree implements. */
    ghost function Model(): map<int, int>
      reads this
    {
      Values(contents)
    }

    constructor (order: nat)
      requires order >= 3
      ensures Valid() && fresh(repr) && this.order == order && Model() == map[]
    {
      this.order := order;
      root := null;
      tree, contents, repr := map[], map[], {};
    }

    method Lookup(key: Key) returns (r: Record?)
      requires Valid()
      ensures r == if key in contents then contents[key] else null
      ensures if key in Model() then r != null && r.value == Model()[key] else r == null
    {
      hide *;
      ValidParts();
      ValuesAt(contents, key);
      OutcomeParts(order, root, tree, repr, contents);
      r := Find(order, root, key, tree, repr, contents);
    }

    lemma ValidParts()
      requires Valid()
      ensures order >= 3 && this !in repr && Injective(contents) && Outcome(order, root, tree, repr, contents)
      ensures Model() == Values(contents)
    {}

    lemma ValidWhole()
      requires order >= 3 && this !in repr && Injective(contents) && Outcome(order, root, tree, repr, contents)
      ensures Valid() && Model() == Values(contents)
    {}

    /** Every node below the root is at least half full. */
    lemma ValidHalfFull()
      requires Valid()
      ensures root != null ==> HalfFull(tree, root, order)
    {
      hide *;
      ValidParts();
      OutcomeParts(order, root, tree, repr, contents);
      if root != null { TreeIsHalfFull(tree, root, order, contents); }
    }

    /** Duplicates are ignored; otherwise the entry is added. */
    method Insert(key: Key, value: int)
      requires Valid()
      modifies this, repr
      ensures Valid() && fresh(repr - old(repr))
      ensures Model() == if key in old(Model()) then old(Model()) else old(Model())[key := value]
      ensures root != null ==> HalfFull(tree, root, order)
    {
      hide *;
      ValidParts();
      ValuesAt(contents, key);
      OutcomeParts(order, root, tree, repr, contents);
      var present := Find(order, root, key, tree, repr, contents);
      if present != null {
        ValidHalfFull();
        return;
      }
      var pointer := new Record(value);
      InjectiveAdd(contents, key, pointer);
      ValuesAdd(contents, key, pointer);
      ghost var newRepr, newTree;
      var newRoot;
      newRoot, newRepr, newTree := AddEntry(order, root, key, pointer, repr, tree, contents);
      assert this !in newRepr;
      root, repr, tree, contents := newRoot, newRepr, newTree, contents[key := pointer];
      ValidWhole();
      ValidHalfFull();
    }

    method Delete(key: Key)
      requires Valid()
      modifies this, repr
      ensures Valid() && repr == old(repr)
      ensures Model() == old(Model()) - {key}
      ensures root != null ==> HalfFull(tree, root, order)
    {
      hide *;
      ValidParts();
      OutcomeParts(order, root, tree, repr, contents);
      ValuesRemove(contents, key);
      if root != null {
        root, tree := DeleteKey(order, root, key, repr, tree, contents);
        InjectiveRemove(contents, key);
        contents := contents - {key};
      } else {
        assert contents - {key} == contents;
      }
      ValidWhole();
      ValidHalfFull();
    }

    /**
     find_range. The records found hold the values of the keys found; the keys are those of the range, unless the scan
     gives up at a leaf whose successor has one.
     */
    method Range(keyStart: Key, keyEnd: Key, returnedKeys: array<int>, returnedPointers: array<Record?>)
      returns (numFound: nat)
      requires Valid() && returnedKeys !in repr && returnedPointers !in repr
      requires returnedKeys.Length == returnedPointers.Length >= keyEnd - keyStart + 1
      modifies returnedKeys, returnedPointers
      ensures Valid() && numFound <= returnedKeys.Length && (numFound == 0 || numFound <= keyEnd - keyStart + 1)
      ensures Valued(Model(), returnedKeys[..numFound], returnedPointers[..numFound])
      ensures IsRange(Model(), keyStart, keyEnd, returnedKeys[..numFound])
        <==> root == null || !Skips(tree, keyStart, keyEnd)
      ensures root != null && Skips(tree, keyStart, keyEnd) ==> numFound == 0
    {
      hide *;
      ValidParts();
      OutcomeParts(order, root, tree, repr, contents);
      numFound := FindRange(
        order, root, keyStart, keyEnd, returnedKeys, returnedPointers, tree, repr, contents);
      ValuesFound(contents, keyStart, keyEnd, returnedKeys[..numFound], returnedPointers[..numFound]);
      ValidWhole();
    }
  }
}

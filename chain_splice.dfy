/**
 * What splicing a node into or out of one sibling chain does to the arena's
 * representation, to goodness and to lookups. These are the facts behind
 * `Node::getBrotherCreate`, `Node::getChildCreate` and `Trie::removeKey`.
 */
module ChainSplice {
  import opened Wrappers
  import opened CharOrder
  import opened TrieForest

  /** Two trees with the same key, value and children, whatever their ids. */
  predicate Same(a: Tree, b: Tree)
  {
    a.key == b.key && a.val == b.val && a.kids == b.kids
  }

  /**
   * `C'` is `C` with a value-less, childless node for `c` inserted at
   * position `j`; every other entry keeps its key, value and children.
   */
  predicate InsertedAt(C: seq<Tree>, C': seq<Tree>, j: nat, c: char)
  {
    j <= |C| && |C'| == |C| + 1
    && C'[j].key == c && C'[j].val == UNDEFINED && C'[j].kids == []
    && (forall m | 0 <= m < j :: Same(C'[m], C[m]))
    && (forall m | j < m < |C'| :: Same(C'[m], C[m - 1]))
  }

  /** The ids of a concatenation. */
  lemma {:induction false} IdsConcat(A: seq<Tree>, B: seq<Tree>)
    ensures Ids(A + B) == Ids(A) + Ids(B)
  {
    var AB := A + B;
    forall x | x in Ids(AB) ensures x in Ids(A) + Ids(B) {
      var i :| 0 <= i < |AB| && x in Sub(AB[i]);
      if i < |A| { assert AB[i] == A[i]; } else { assert AB[i] == B[i - |A|]; }
    }
    forall x | x in Ids(A) + Ids(B) ensures x in Ids(AB) {
      if x in Ids(A) {
        var i :| 0 <= i < |A| && x in Sub(A[i]);
        assert AB[i] == A[i];
      } else {
        var i :| 0 <= i < |B| && x in Sub(B[i]);
        assert AB[|A| + i] == B[i];
      }
    }
  }

  /** The empty chain has no ids. */
  lemma {:induction false} IdsEmpty()
    ensures Ids([]) == {}
  {
  }

  /** The ids of a one-tree chain. */
  lemma {:induction false} IdsSingle(t: Tree)
    ensures Ids([t]) == Sub(t)
  {
    assert forall x | x in Sub(t) :: x in Sub([t][0]);
  }

  /** A node that holds no value and has no children. */
  function Leaf(n: nat, c: char): Tree
  {
    Tree(n, c, UNDEFINED, [])
  }

  /** The chain `C` with a new leaf for `c` spliced in at position `k`. */
  function SpliceIn(C: seq<Tree>, k: nat, n: nat, c: char): seq<Tree>
    requires k <= |C|
  {
    C[..k] + [Leaf(n, c)] + C[k..]
  }

  /** Splicing a leaf in adds exactly its id to the chain's ids. */
  lemma {:induction false} SpliceInIds(C: seq<Tree>, k: nat, n: nat, c: char)
    requires k <= |C|
    ensures Ids(SpliceIn(C, k, n, c)) == Ids(C) + {n}
  {
    IdsConcat(C[..k] + [Leaf(n, c)], C[k..]);
    IdsConcat(C[..k], [Leaf(n, c)]);
    IdsSingle(Leaf(n, c));
    IdsEmpty();
    assert Sub(Leaf(n, c)) == {n};
    IdsConcat(C[..k], C[k..]);
    assert C[..k] + C[k..] == C;
  }

  /** Splicing a leaf in is an insertion of a value-less, childless entry. */
  lemma {:induction false} SpliceInShape(C: seq<Tree>, k: nat, n: nat, c: char)
    requires k <= |C|
    ensures InsertedAt(C, SpliceIn(C, k, n, c), k, c)
  {
  }

  /** A leaf spliced in where its key sorts keeps the chain sorted. */
  lemma {:induction false} SpliceInSorted(C: seq<Tree>, k: nat, n: nat, c: char)
    requires Sorted(C) && k <= |C|
    requires (k > 0 ==> Less(C[k - 1].key, c)) && (k < |C| ==> Less(c, C[k].key))
    ensures Sorted(SpliceIn(C, k, n, c))
  {
    var C' := SpliceIn(C, k, n, c);
    forall a, b | 0 <= a < b < |C'| ensures Less(C'[a].key, C'[b].key) {
      var ja := if a < k then a else a - 1;
      var jb := if b < k then b else b - 1;
      if a != k && b != k { assert Less(C[ja].key, C[jb].key); }
      else if a == k { assert Less(c, C[k].key) && (jb == k || Less(C[k].key, C[jb].key)); }
      else { assert Less(C[ja].key, C[k - 1].key) || ja == k - 1; }
    }
  }

  /** A leaf with an id new to the chain shares no node with the other entries. */
  lemma {:induction false} SpliceInDisjoint(C: seq<Tree>, k: nat, n: nat, c: char)
    requires k <= |C| && n !in Ids(C)
    requires forall a, b | 0 <= a < b < |C| :: Sub(C[a]) !! Sub(C[b])
    ensures var C' := SpliceIn(C, k, n, c);
      forall a, b | 0 <= a < b < |C'| :: Sub(C'[a]) !! Sub(C'[b])
  {
    var C' := SpliceIn(C, k, n, c);
    IdsEmpty();
    assert Sub(Leaf(n, c)) == {n};
    forall a, b | 0 <= a < b < |C'| ensures Sub(C'[a]) !! Sub(C'[b]) {
      if a != k && b != k {
        assert C'[a] == C[if a < k then a else a - 1] && C'[b] == C[if b < k then b else b - 1];
      } else if a == k {
        assert C'[b] == C[b - 1] && Sub(C[b - 1]) <= Ids(C);
      } else {
        assert C'[a] == C[a] && Sub(C[a]) <= Ids(C);
      }
    }
  }

  /** A leaf spliced in where its key sorts, with an id new to the chain, keeps the chain good. */
  lemma {:induction false} SpliceInGood(C: seq<Tree>, k: nat, n: nat, c: char)
    requires Good(C) && k <= |C| && n !in Ids(C)
    requires (k > 0 ==> Less(C[k - 1].key, c)) && (k < |C| ==> Less(c, C[k].key))
    ensures Good(SpliceIn(C, k, n, c))
  {
    SpliceInSorted(C, k, n, c);
    SpliceInDisjoint(C, k, n, c);
    SpliceInKids(C, k, n, c);
  }

  /** The entries of a spliced chain keep their children. */
  lemma {:induction false} SpliceInKids(C: seq<Tree>, k: nat, n: nat, c: char)
    requires k <= |C|
    requires forall i | 0 <= i < |C| :: C[i].id !in Ids(C[i].kids) && Good(C[i].kids)
    ensures var C' := SpliceIn(C, k, n, c);
      forall i | 0 <= i < |C'| :: C'[i].id !in Ids(C'[i].kids) && Good(C'[i].kids)
  {
    var C' := SpliceIn(C, k, n, c);
    IdsEmpty();
    forall i | 0 <= i < |C'| ensures C'[i].id !in Ids(C'[i].kids) && Good(C'[i].kids) {
      if i != k { assert C'[i] == C[if i < k then i else i - 1]; }
    }
  }

  /** The arena after splicing a new node in after position `k - 1` of `C`. */
  function SpliceInAfterNodes(nodes: seq<NodeRec>, C: seq<Tree>, k: nat, c: char): seq<NodeRec>
    requires 1 <= k <= |C| && C[k - 1].id < |nodes|
  {
    var p := C[k - 1].id;
    nodes[p := nodes[p].(next := Ptr(|nodes|))] + [NodeRec(c, UNDEFINED, LinkAt(C, k), Null)]
  }

  /** An entry before the predecessor keeps its record. */
  lemma {:induction false} SpliceInAfterBefore(nodes: seq<NodeRec>, C: seq<Tree>, k: nat, c: char, i: nat)
    requires Rep(nodes, C) && 1 <= k <= |C| && i < k - 1
    requires C[k - 1].id != C[i].id
    ensures C[k - 1].id < |nodes|
    ensures var nodes' := SpliceInAfterNodes(nodes, C, k, c);
      var C' := SpliceIn(C, k, |nodes|, c);
      C'[i].id < |nodes'|
      && nodes'[C'[i].id] == NodeRec(C'[i].key, C'[i].val, LinkAt(C', i + 1), LinkAt(C'[i].kids, 0))
  {
    assert RepAt(nodes, C, k - 1) && RepAt(nodes, C, i);
    var C' := SpliceIn(C, k, |nodes|, c);
    assert C'[i] == C[i] && C'[i + 1] == C[i + 1];
  }

  /** The predecessor now links on to the new node. */
  lemma {:induction false} SpliceInAfterPred(nodes: seq<NodeRec>, C: seq<Tree>, k: nat, c: char)
    requires Rep(nodes, C) && 1 <= k <= |C|
    ensures C[k - 1].id < |nodes|
    ensures var nodes' := SpliceInAfterNodes(nodes, C, k, c);
      var C' := SpliceIn(C, k, |nodes|, c);
      C'[k - 1].id < |nodes'|
      && nodes'[C'[k - 1].id] == NodeRec(C'[k - 1].key, C'[k - 1].val, LinkAt(C', k), LinkAt(C'[k - 1].kids, 0))
  {
    assert RepAt(nodes, C, k - 1);
    var C' := SpliceIn(C, k, |nodes|, c);
    assert C'[k - 1] == C[k - 1] && C'[k] == Leaf(|nodes|, c);
  }

  /** The new node holds the new key and links on to the old successor. */
  lemma {:induction false} SpliceInAfterNew(nodes: seq<NodeRec>, C: seq<Tree>, k: nat, c: char)
    requires Rep(nodes, C) && 1 <= k <= |C|
    ensures C[k - 1].id < |nodes|
    ensures RepAt(SpliceInAfterNodes(nodes, C, k, c), SpliceIn(C, k, |nodes|, c), k)
  {
    assert RepAt(nodes, C, k - 1);
    var C' := SpliceIn(C, k, |nodes|, c);
    assert C'[k] == Leaf(|nodes|, c);
    assert k + 1 < |C'| ==> C'[k + 1] == C[k];
  }

  /** An entry after the new node keeps its record, one position further on. */
  lemma {:induction false} SpliceInAfterAfter(nodes: seq<NodeRec>, C: seq<Tree>, k: nat, c: char, j: nat)
    requires Rep(nodes, C) && 1 <= k <= j < |C|
    requires C[k - 1].id != C[j].id
    ensures C[k - 1].id < |nodes|
    ensures var nodes' := SpliceInAfterNodes(nodes, C, k, c);
      var C' := SpliceIn(C, k, |nodes|, c);
      C'[j + 1].id < |nodes'|
      && nodes'[C'[j + 1].id] == NodeRec(C'[j + 1].key, C'[j + 1].val, LinkAt(C', j + 2), LinkAt(C'[j + 1].kids, 0))
  {
    assert RepAt(nodes, C, k - 1) && RepAt(nodes, C, j);
    var C' := SpliceIn(C, k, |nodes|, c);
    assert C'[j + 1] == C[j];
    assert j + 2 < |C'| ==> C'[j + 2] == C[j + 1];
  }

  /** The children of an old entry keep their representation. */
  lemma {:induction false} SpliceInAfterKids(nodes: seq<NodeRec>, C: seq<Tree>, k: nat, c: char, j: nat)
    requires Rep(nodes, C) && 1 <= k <= |C| && j < |C|
    requires C[k - 1].id !in Ids(C[j].kids)
    ensures C[k - 1].id < |nodes|
    ensures Rep(SpliceInAfterNodes(nodes, C, k, c), C[j].kids)
  {
    assert RepAt(nodes, C, k - 1) && RepAt(nodes, C, j);
    var nodes' := SpliceInAfterNodes(nodes, C, k, c);
    RepFrame(nodes, nodes', C[j].kids);
  }

  /** An old entry of the chain, at its new position, is represented by the new arena. */
  lemma {:induction false} SpliceInAfterOld(nodes: seq<NodeRec>, C: seq<Tree>, k: nat, c: char, j: nat)
    requires Rep(nodes, C) && 1 <= k <= |C| && j < |C|
    requires C[k - 1].id !in Ids(C[j].kids) && (j != k - 1 ==> C[k - 1].id != C[j].id)
    ensures C[k - 1].id < |nodes|
    ensures RepAt(SpliceInAfterNodes(nodes, C, k, c), SpliceIn(C, k, |nodes|, c), if j < k then j else j + 1)
  {
    assert RepAt(nodes, C, k - 1) && RepAt(nodes, C, j);
    var C' := SpliceIn(C, k, |nodes|, c);
    SpliceInAfterKids(nodes, C, k, c, j);
    if j < k - 1 {
      SpliceInAfterBefore(nodes, C, k, c, j);
      assert C'[j] == C[j];
    } else if j == k - 1 {
      SpliceInAfterPred(nodes, C, k, c);
      assert C'[j] == C[j];
    } else {
      SpliceInAfterAfter(nodes, C, k, c, j);
      assert C'[j + 1] == C[j];
    }
  }

  /** In a good chain a node is neither below itself nor below a sibling. */
  lemma {:induction false} GoodApart(C: seq<Tree>, a: nat, b: nat)
    requires Good(C) && a < |C| && b < |C|
    ensures C[a].id !in Ids(C[b].kids)
    ensures a != b ==> C[a].id != C[b].id
  {
    assert C[a].id in Sub(C[a]);
    if a != b {
      assert Sub(C[a]) !! Sub(C[b]);
    }
  }

  /**
   * Splicing a new leaf in after position `k - 1`: redirecting the
   * predecessor's `next` to a new node that links on to the old successor
   * represents the spliced chain.
   */
  lemma {:induction false} SpliceInAfterRep(nodes: seq<NodeRec>, C: seq<Tree>, k: nat, c: char)
    requires Rep(nodes, C) && Good(C) && 1 <= k <= |C|
    ensures C[k - 1].id < |nodes|
    ensures Rep(SpliceInAfterNodes(nodes, C, k, c), SpliceIn(C, k, |nodes|, c))
  {
    assert RepAt(nodes, C, k - 1);
    var nodes' := SpliceInAfterNodes(nodes, C, k, c);
    var C' := SpliceIn(C, k, |nodes|, c);
    forall i | 0 <= i < |C'| ensures RepAt(nodes', C', i) {
      if i == k {
        SpliceInAfterNew(nodes, C, k, c);
      } else {
        var j := if i < k then i else i - 1;
        GoodApart(C, k - 1, j);
        SpliceInAfterOld(nodes, C, k, c, j);
      }
    }
    assert Rep(nodes', C');
  }

  /**
   * The chain after a key that sorts before the head `C[0]` is added: the
   * head's node keeps its id and takes the new key, and the old head's
   * contents move to the clone `n` right behind it.
   */
  function SpliceBefore(C: seq<Tree>, n: nat, c: char): seq<Tree>
    requires C != []
  {
    [Leaf(C[0].id, c), C[0].(id := n)] + C[1..]
  }

  /** The arena after the head `C[0]` is cloned into a new node and overwritten with a value-less leaf for `c`. */
  function SpliceBeforeNodes(nodes: seq<NodeRec>, C: seq<Tree>, c: char): seq<NodeRec>
    requires C != [] && C[0].id < |nodes|
  {
    var h := C[0].id;
    nodes[h := NodeRec(c, UNDEFINED, Ptr(|nodes|), Null)] + [nodes[h]]
  }

  /** Adding a key before the head is an insertion at position 0. */
  lemma {:induction false} SpliceBeforeShape(C: seq<Tree>, n: nat, c: char)
    requires C != []
    ensures InsertedAt(C, SpliceBefore(C, n, c), 0, c)
  {
    var C' := SpliceBefore(C, n, c);
    forall m | 0 < m < |C'| ensures Same(C'[m], C[m - 1]) {
      if m > 1 { assert C'[m] == C[m - 1]; }
    }
  }

  /** Adding a key before the head adds exactly the clone's id. */
  lemma {:induction false} SpliceBeforeIds(C: seq<Tree>, n: nat, c: char)
    requires C != []
    ensures Ids(SpliceBefore(C, n, c)) == Ids(C) + {n}
  {
    var h := C[0].id;
    var C' := SpliceBefore(C, n, c);
    IdsConcat([Leaf(h, c), C[0].(id := n)], C[1..]);
    IdsConcat([Leaf(h, c)], [C[0].(id := n)]);
    IdsSingle(Leaf(h, c));
    IdsSingle(C[0].(id := n));
    IdsEmpty();
    assert Sub(Leaf(h, c)) == {h};
    assert [Leaf(h, c)] + [C[0].(id := n)] == [Leaf(h, c), C[0].(id := n)];
    IdsConcat([C[0]], C[1..]);
    IdsSingle(C[0]);
    assert [C[0]] + C[1..] == C;
  }

  /** Adding a key that sorts before the head keeps the chain sorted. */
  lemma {:induction false} SpliceBeforeSorted(C: seq<Tree>, n: nat, c: char)
    requires Sorted(C) && C != [] && Less(c, C[0].key)
    ensures Sorted(SpliceBefore(C, n, c))
  {
    var C' := SpliceBefore(C, n, c);
    forall a, b | 0 <= a < b < |C'| ensures Less(C'[a].key, C'[b].key) {
      assert C'[b].key == C[b - 1].key;
      if a == 0 {
        assert b == 1 || Less(C[0].key, C[b - 1].key);
      } else {
        assert C'[a].key == C[a - 1].key;
      }
    }
  }

  /** With a fresh clone id, the nodes of the new chain stay apart. */
  lemma {:induction false} SpliceBeforeDisjoint(C: seq<Tree>, n: nat, c: char)
    requires Good(C) && C != [] && n !in Ids(C)
    ensures var C' := SpliceBefore(C, n, c);
      forall a, b | 0 <= a < b < |C'| :: Sub(C'[a]) !! Sub(C'[b])
  {
    var h := C[0].id;
    var C' := SpliceBefore(C, n, c);
    IdsEmpty();
    assert Sub(C'[0]) == {h};
    assert Sub(C'[1]) == {n} + Ids(C[0].kids);
    assert Sub(C[0]) <= Ids(C);
    forall a, b | 0 <= a < b < |C'| ensures Sub(C'[a]) !! Sub(C'[b]) {
      if b > 1 {
        assert C'[b] == C[b - 1] && Sub(C[b - 1]) <= Ids(C);
        if a > 1 {
          assert C'[a] == C[a - 1];
        } else {
          assert Sub(C[0]) !! Sub(C[b - 1]);
        }
      } else {
        assert h !in Ids(C[0].kids) && h in Sub(C[0]);
      }
    }
  }

  /** The trees of the new chain keep their children apart from themselves. */
  lemma {:induction false} SpliceBeforeKids(C: seq<Tree>, n: nat, c: char)
    requires Good(C) && C != [] && n !in Ids(C)
    ensures var C' := SpliceBefore(C, n, c);
      forall i | 0 <= i < |C'| :: C'[i].id !in Ids(C'[i].kids) && Good(C'[i].kids)
  {
    var C' := SpliceBefore(C, n, c);
    IdsEmpty();
    assert Sub(C[0]) <= Ids(C);
    forall i | 0 <= i < |C'| ensures C'[i].id !in Ids(C'[i].kids) && Good(C'[i].kids) {
      if i > 1 { assert C'[i] == C[i - 1]; }
    }
  }

  /** Adding a key that sorts before the head, with a fresh clone id, keeps the chain good. */
  lemma {:induction false} SpliceBeforeGood(C: seq<Tree>, n: nat, c: char)
    requires Good(C) && C != [] && n !in Ids(C) && Less(c, C[0].key)
    ensures Good(SpliceBefore(C, n, c))
  {
    SpliceBeforeSorted(C, n, c);
    SpliceBeforeDisjoint(C, n, c);
    SpliceBeforeKids(C, n, c);
  }

  /** An old tree behind the clone keeps its record, one position further on. */
  lemma {:induction false} SpliceBeforeOld(nodes: seq<NodeRec>, C: seq<Tree>, c: char, j: nat)
    requires Rep(nodes, C) && 1 <= j < |C|
    requires C[0].id != C[j].id && C[0].id !in Ids(C[j].kids)
    ensures C[0].id < |nodes|
    ensures RepAt(SpliceBeforeNodes(nodes, C, c), SpliceBefore(C, |nodes|, c), j + 1)
  {
    assert RepAt(nodes, C, 0) && RepAt(nodes, C, j);
    var nodes' := SpliceBeforeNodes(nodes, C, c);
    var C' := SpliceBefore(C, |nodes|, c);
    assert C'[j + 1] == C[j];
    assert j + 2 < |C'| ==> C'[j + 2] == C[j + 1];
    RepFrame(nodes, nodes', C[j].kids);
  }

  /** The clone holds the old head's contents and links on to its old successor. */
  lemma {:induction false} SpliceBeforeClone(nodes: seq<NodeRec>, C: seq<Tree>, c: char)
    requires Rep(nodes, C) && C != [] && C[0].id !in Ids(C[0].kids)
    ensures C[0].id < |nodes|
    ensures RepAt(SpliceBeforeNodes(nodes, C, c), SpliceBefore(C, |nodes|, c), 1)
  {
    assert RepAt(nodes, C, 0);
    var nodes' := SpliceBeforeNodes(nodes, C, c);
    var C' := SpliceBefore(C, |nodes|, c);
    assert 2 < |C'| ==> C'[2] == C[1];
    RepFrame(nodes, nodes', C[0].kids);
  }

  /**
   * `getBrotherCreate` before the head: overwriting the head with a leaf for
   * `c` that links to a clone of the old head represents the new chain.
   */
  lemma {:induction false} SpliceBeforeRep(nodes: seq<NodeRec>, C: seq<Tree>, c: char)
    requires Rep(nodes, C) && Good(C) && C != []
    ensures C[0].id < |nodes|
    ensures Rep(SpliceBeforeNodes(nodes, C, c), SpliceBefore(C, |nodes|, c))
  {
    assert RepAt(nodes, C, 0);
    var nodes' := SpliceBeforeNodes(nodes, C, c);
    var C' := SpliceBefore(C, |nodes|, c);
    forall i | 0 <= i < |C'| ensures RepAt(nodes', C', i) {
      if i == 0 {
        assert C'[0] == Leaf(C[0].id, c);
      } else if i == 1 {
        GoodApart(C, 0, 0);
        SpliceBeforeClone(nodes, C, c);
      } else {
        GoodApart(C, 0, i - 1);
        SpliceBeforeOld(nodes, C, c, i - 1);
      }
    }
    assert Rep(nodes', C');
  }

  /** In a sorted chain, a key that sorts strictly between `C[k - 1]` and `C[k]` equals no entry. */
  lemma {:induction false} NoEqualAround(C: seq<Tree>, k: nat, c: char)
    requires Sorted(C) && k <= |C|
    requires forall j | 0 <= j < k :: Less(C[j].key, c)
    requires k < |C| ==> Less(c, C[k].key)
    ensures forall j | 0 <= j < |C| :: !IsKeyEq(C[j].key, c)
  {
    forall j | 0 <= j < |C| ensures !IsKeyEq(C[j].key, c) {
      if j > k { assert Less(C[k].key, C[j].key); }
    }
  }

  /** The splice after position `k - 1` changes only the predecessor's record and appends one. */
  lemma {:induction false} SpliceInAfterFrame(nodes: seq<NodeRec>, C: seq<Tree>, k: nat, c: char)
    requires Rep(nodes, C) && 1 <= k <= |C|
    ensures C[k - 1].id < |nodes|
    ensures var nodes' := SpliceInAfterNodes(nodes, C, k, c);
      |nodes'| == |nodes| + 1 && forall x | 0 <= x < |nodes| && x !in Tops(C) :: nodes'[x] == nodes[x]
  {
    assert RepAt(nodes, C, k - 1);
    assert C[k - 1].id in Tops(C);
  }

  /** The splice after position `k - 1` keeps the chain represented and good. */
  lemma {:induction false} SpliceInAfterRepGood(nodes: seq<NodeRec>, C: seq<Tree>, k: nat, c: char)
    requires Rep(nodes, C) && Good(C) && 1 <= k <= |C|
    requires forall j | 0 <= j < k :: Less(C[j].key, c)
    requires k < |C| ==> Less(c, C[k].key)
    ensures C[k - 1].id < |nodes|
    ensures Rep(SpliceInAfterNodes(nodes, C, k, c), SpliceIn(C, k, |nodes|, c))
    ensures Good(SpliceIn(C, k, |nodes|, c))
  {
    RepIds(nodes, C);
    SpliceInAfterRep(nodes, C, k, c);
    SpliceInGood(C, k, |nodes|, c);
  }

  /** Everything `getBrotherCreate` needs from a splice after position `k - 1`. */
  lemma {:induction false} SpliceInAfterFacts(nodes: seq<NodeRec>, C: seq<Tree>, k: nat, c: char)
    requires Rep(nodes, C) && Good(C) && 1 <= k <= |C|
    requires forall j | 0 <= j < k :: Less(C[j].key, c)
    requires k < |C| ==> Less(c, C[k].key)
    ensures C[k - 1].id < |nodes|
    ensures var C' := SpliceIn(C, k, |nodes|, c);
      var nodes' := SpliceInAfterNodes(nodes, C, k, c);
      Rep(nodes', C') && Good(C') && C'[0].id == C[0].id
      && FindEq(C', c) == k && InsertedAt(C, C', k, c)
      && Ids(C') == Ids(C) + {|nodes|} && |nodes'| == |nodes| + 1
      && (forall j | 0 <= j < |C| :: !IsKeyEq(C[j].key, c))
      && (forall x | 0 <= x < |nodes| && x !in Tops(C) :: nodes'[x] == nodes[x])
  {
    var n := |nodes|;
    var C' := SpliceIn(C, k, n, c);
    SpliceInAfterFrame(nodes, C, k, c);
    SpliceInAfterRepGood(nodes, C, k, c);
    SpliceInShape(C, k, n, c);
    SpliceInIds(C, k, n, c);
    FindEqUnique(C', c, k);
    NoEqualAround(C, k, c);
  }

  /** Everything `getBrotherCreate` needs from adding a key before the head. */
  lemma {:induction false} SpliceBeforeFacts(nodes: seq<NodeRec>, C: seq<Tree>, c: char)
    requires Rep(nodes, C) && Good(C) && C != [] && Less(c, C[0].key)
    ensures C[0].id < |nodes|
    ensures var C' := SpliceBefore(C, |nodes|, c);
      var nodes' := SpliceBeforeNodes(nodes, C, c);
      Rep(nodes', C') && Good(C') && C'[0].id == C[0].id
      && FindEq(C', c) == 0 && InsertedAt(C, C', 0, c)
      && Ids(C') == Ids(C) + {|nodes|} && |nodes'| == |nodes| + 1
      && (forall j | 0 <= j < |C| :: !IsKeyEq(C[j].key, c))
      && (forall x | 0 <= x < |nodes| && x !in Tops(C) :: nodes'[x] == nodes[x])
  {
    var n := |nodes|;
    var C' := SpliceBefore(C, n, c);
    RepIds(nodes, C);
    SpliceBeforeRep(nodes, C, c);
    SpliceBeforeGood(C, n, c);
    SpliceBeforeShape(C, n, c);
    SpliceBeforeIds(C, n, c);
    FindEqUnique(C', c, 0);
    forall j | 0 <= j < |C| ensures !IsKeyEq(C[j].key, c) {
      assert j == 0 || Less(C[0].key, C[j].key);
    }
    assert C[0].id in Tops(C);
  }

  /** The chain without its `j`-th entry. */
  function Without(C: seq<Tree>, j: nat): seq<Tree>
    requires j < |C|
  {
    C[..j] + C[j + 1..]
  }

  /**
   * The arena after `removeKey` unsplices `C[j]` from the chain below the
   * node `q`: the link that named it (the parent's `child` for the head,
   * else the predecessor's `next`) now names its successor, and its own
   * `next` is cleared.
   */
  function UnspliceNodes(nodes: seq<NodeRec>, q: nat, C: seq<Tree>, j: nat): seq<NodeRec>
    requires j < |C| && q < |nodes| && C[j].id < |nodes| && (j > 0 ==> C[j - 1].id < |nodes|)
  {
    var n := C[j].id;
    var m := if j == 0 then nodes[q := nodes[q].(child := LinkAt(C, j + 1))]
             else nodes[C[j - 1].id := nodes[C[j - 1].id].(next := LinkAt(C, j + 1))];
    m[n := m[n].(next := Null)]
  }

  /** A tree of a chain moved to position `i` of another chain whose record links to its new successor. */
  lemma {:induction false} RepAtMoved(nodes: seq<NodeRec>, nodes': seq<NodeRec>, C: seq<Tree>, m: nat, W: seq<Tree>, i: nat)
    requires RepAt(nodes, C, m) && i < |W| && W[i] == C[m] && |nodes| <= |nodes'|
    requires nodes'[C[m].id] == nodes[C[m].id].(next := LinkAt(W, i + 1))
    requires forall x | x in Ids(C[m].kids) && x < |nodes| :: nodes'[x] == nodes[x]
    ensures RepAt(nodes', W, i)
  {
    RepFrame(nodes, nodes', C[m].kids);
  }

  /** Unsplicing `C[j]` touches only its neighbours' links; the parent's `child` names the new head. */
  lemma {:induction false} UnspliceFrame(nodes: seq<NodeRec>, q: nat, C: seq<Tree>, j: nat)
    requires Rep(nodes, C) && j < |C| && q < |nodes| && q !in Ids(C) && nodes[q].child == LinkAt(C, 0)
    ensures C[j].id < |nodes| && (j > 0 ==> C[j - 1].id < |nodes|)
    ensures var nodes' := UnspliceNodes(nodes, q, C, j);
      |nodes'| == |nodes|
      && nodes'[q] == nodes[q].(child := LinkAt(Without(C, j), 0))
      && forall x | 0 <= x < |nodes| && x !in Tops(C) && x != q :: nodes'[x] == nodes[x]
  {
    assert RepAt(nodes, C, j);
    if j > 0 { assert RepAt(nodes, C, j - 1); }
    assert C[j].id in Tops(C);
    if j > 0 { assert C[j - 1].id in Tops(C); }
    TopsIds(C);
    var W := Without(C, j);
    if j == 0 && |C| > 1 { assert W[0] == C[1]; }
    if j > 0 { assert W[0] == C[0]; }
  }

  /** Unsplicing `C[j]` represents the chain without it. */
  lemma {:induction false} UnspliceRep(nodes: seq<NodeRec>, q: nat, C: seq<Tree>, j: nat)
    requires Rep(nodes, C) && Good(C) && j < |C| && q < |nodes| && q !in Ids(C)
    ensures C[j].id < |nodes| && (j > 0 ==> C[j - 1].id < |nodes|)
    ensures Rep(UnspliceNodes(nodes, q, C, j), Without(C, j))
  {
    assert RepAt(nodes, C, j);
    if j > 0 { assert RepAt(nodes, C, j - 1); }
    var W := Without(C, j);
    forall i | 0 <= i < |W| ensures RepAt(UnspliceNodes(nodes, q, C, j), W, i) {
      UnspliceRepAt(nodes, q, C, j, i);
    }
    assert Rep(UnspliceNodes(nodes, q, C, j), W);
  }

  /** One entry of `UnspliceRep`. */
  lemma {:induction false} UnspliceRepAt(nodes: seq<NodeRec>, q: nat, C: seq<Tree>, j: nat, i: nat)
    requires Rep(nodes, C) && Good(C) && j < |C| && q < |nodes| && q !in Ids(C) && i < |C| - 1
    ensures C[j].id < |nodes| && (j > 0 ==> C[j - 1].id < |nodes|)
    ensures RepAt(UnspliceNodes(nodes, q, C, j), Without(C, j), i)
  {
    var W := Without(C, j);
    var m := if i < j then i else i + 1;
    assert W[i] == C[m];
    UnspliceRecord(nodes, q, C, j, m);
    WithoutLink(C, j, i);
    assert RepAt(nodes, C, m);
    RepAtMoved(nodes, UnspliceNodes(nodes, q, C, j), C, m, W, i);
  }

  /** Unsplicing `C[j]` changes another entry's record only in the predecessor's `next`, and none of its subtree. */
  lemma {:induction false} UnspliceRecord(nodes: seq<NodeRec>, q: nat, C: seq<Tree>, j: nat, m: nat)
    requires Rep(nodes, C) && Good(C) && j < |C| && q < |nodes| && q !in Ids(C) && m < |C| && m != j
    ensures C[j].id < |nodes| && (j > 0 ==> C[j - 1].id < |nodes|) && C[m].id < |nodes|
    ensures var nodes' := UnspliceNodes(nodes, q, C, j);
      nodes'[C[m].id] == nodes[C[m].id].(next := if m + 1 == j then LinkAt(C, j + 1) else LinkAt(C, m + 1))
      && forall x | x in Ids(C[m].kids) && x < |nodes| :: nodes'[x] == nodes[x]
  {
    assert RepAt(nodes, C, j);
    if j > 0 { assert RepAt(nodes, C, j - 1); }
    assert RepAt(nodes, C, m);
    GoodApart(C, j, m);
    if j > 0 { GoodApart(C, j - 1, m); }
    assert Sub(C[m]) <= Ids(C) && C[m].id in Sub(C[m]) && Ids(C[m].kids) <= Sub(C[m]);
    UnspliceUntouched(nodes, q, C, j, m);
  }

  /** `UnspliceRecord` once the ids involved are known to be distinct. */
  lemma {:induction false} UnspliceUntouched(nodes: seq<NodeRec>, q: nat, C: seq<Tree>, j: nat, m: nat)
    requires j < |C| && q < |nodes| && C[j].id < |nodes| && (j > 0 ==> C[j - 1].id < |nodes|)
    requires m < |C| && m != j && C[m].id < |nodes| && nodes[C[m].id].next == LinkAt(C, m + 1)
    requires C[m].id != q && C[m].id != C[j].id && (j > 0 && m + 1 != j ==> C[m].id != C[j - 1].id)
    requires q !in Ids(C[m].kids) && C[j].id !in Ids(C[m].kids) && (j > 0 ==> C[j - 1].id !in Ids(C[m].kids))
    ensures var nodes' := UnspliceNodes(nodes, q, C, j);
      nodes'[C[m].id] == nodes[C[m].id].(next := if m + 1 == j then LinkAt(C, j + 1) else LinkAt(C, m + 1))
      && forall x | x in Ids(C[m].kids) && x < |nodes| :: nodes'[x] == nodes[x]
  {
  }

  /** The successor of the `i`-th entry of the chain without `C[j]`. */
  lemma {:induction false} WithoutLink(C: seq<Tree>, j: nat, i: nat)
    requires j < |C| && i < |C| - 1
    ensures var m := if i < j then i else i + 1;
      LinkAt(Without(C, j), i + 1) == if m + 1 == j then LinkAt(C, j + 1) else LinkAt(C, m + 1)
  {
    var W := Without(C, j);
    if i + 1 < |W| {
      assert W[i + 1] == C[if i + 1 < j then i + 1 else i + 2];
    }
  }

  /** The chain without one entry stays good, with the ids of the others. */
  lemma {:induction false} UnspliceGood(C: seq<Tree>, j: nat)
    requires Good(C) && j < |C|
    ensures Good(Without(C, j)) && Ids(Without(C, j)) <= Ids(C)
  {
    var W := Without(C, j);
    forall a, b | 0 <= a < b < |W| ensures Less(W[a].key, W[b].key) && Sub(W[a]) !! Sub(W[b]) {
      var a' := if a < j then a else a + 1;
      var b' := if b < j then b else b + 1;
      assert W[a] == C[a'] && W[b] == C[b'];
      assert Less(C[a'].key, C[b'].key);
      assert Sub(C[a']) !! Sub(C[b']);
    }
    forall i | 0 <= i < |W| ensures W[i].id !in Ids(W[i].kids) && Good(W[i].kids) {
      assert W[i] == C[if i < j then i else i + 1];
    }
    forall x | x in Ids(W) ensures x in Ids(C) {
      var i :| 0 <= i < |W| && x in Sub(W[i]);
      assert W[i] == C[if i < j then i else i + 1];
    }
  }
}

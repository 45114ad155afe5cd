/**
 * The character trie (`Trie::Trie` with its `Node`s). Nodes live in an arena,
 * `nodes`, indexed by node id; `root` is the id of the root node, whose key
 * and value are unused and whose `child` link starts the top-level chain. The
 * ghost `forest` is the reachable structure as a value (see `TrieForest`).
 *
 * The methods of `Node` operate on the node they are called on; here they
 * are methods of the trie that take that node's id.
 */
module TrieData {
  import opened Wrappers
  import opened CharOrder
  import opened TrieForest
  import opened ChainSplice
  import opened TriePaths
  import opened TrieCursor
  import opened TrieBounds
  import opened TrieIterator

  class Trie {
    var nodes: seq<NodeRec>
    var root: nat
    ghost var forest: seq<Tree>

    /** The arena represents the forest below the root, and the forest is good. */
    ghost predicate Valid()
      reads this
    {
      Wf(nodes, root, forest)
    }

    /** `Trie()`: a root created by `Node::create()` with no children. */
    constructor ()
      ensures Valid() && forest == []
      ensures forall k :: Get(forest, k) == None
    {
      nodes := [NodeRec('\0', UNDEFINED, Null, Null)];
      root := 0;
      forest := [];
    }

    /**
     * `Node::getBrotherSimple` (`intGetBrotherSimple`) on the head `h` of the
     * chain `C`: the node whose key compares equal to `c`, or null. A `c`
     * that sorts before the head gives null at once.
     */
    method GetBrotherSimple(h: nat, c: char, ghost C: seq<Tree>) returns (r: Link)
      requires Rep(nodes, C) && Sorted(C) && C != [] && C[0].id == h
      ensures r == LinkAt(C, FindEq(C, c))
      ensures r.Ptr? <==> exists j | 0 <= j < |C| :: IsKeyEq(C[j].key, c)
      ensures Less(c, C[0].key) ==> r == Null
    {
      assert RepAt(nodes, C, 0);
      if IsKeyLess(c, nodes[h].keyChar) {
        r := Null;
        NoEqualAround(C, 0, c);
      } else if IsKeyEq(c, nodes[h].keyChar) {
        r := Ptr(h);
      } else {
        var node := nodes[h].next;
        ghost var k := 1;
        while node.Ptr? && IsKeyLess(nodes[node.id].keyChar, c)
          invariant 1 <= k <= |C| && node == LinkAt(C, k)
          invariant k < |C| ==> RepAt(nodes, C, k)
          invariant forall j | 0 <= j < k :: Less(C[j].key, c)
          decreases |C| - k
        {
          node := nodes[node.id].next;
          k := k + 1;
        }
        if node.Ptr? && IsKeyEq(nodes[node.id].keyChar, c) {
          r := node;
        } else {
          r := Null;
          NoEqualAround(C, k, c);
        }
      }
    }

    /**
     * `Node::getBrotherEqOrGreatSimple` (`intGetBrotherEqOrGreatSimple`): the
     * head when `c` is not greater than it, else the first later node whose
     * key is not less than `c`, or null.
     */
    method GetBrotherEqOrGreat(h: nat, c: char, ghost C: seq<Tree>) returns (r: Link)
      requires Rep(nodes, C) && Sorted(C) && C != [] && C[0].id == h
      ensures r == LinkAt(C, FindGe(C, c))
      ensures !Less(C[0].key, c) ==> r == Ptr(h)
      ensures r == Null <==> forall j | 0 <= j < |C| :: Less(C[j].key, c)
    {
      assert RepAt(nodes, C, 0);
      if IsKeyLess(c, nodes[h].keyChar) || IsKeyEq(c, nodes[h].keyChar) {
        r := Ptr(h);
      } else {
        var node := nodes[h].next;
        ghost var k := 1;
        while node.Ptr? && IsKeyLess(nodes[node.id].keyChar, c)
          invariant 1 <= k <= |C| && node == LinkAt(C, k)
          invariant k < |C| ==> RepAt(nodes, C, k)
          invariant forall j | 0 <= j < k :: Less(C[j].key, c)
          decreases |C| - k
        {
          node := nodes[node.id].next;
          k := k + 1;
        }
        if node.Ptr? && (IsKeyLess(c, nodes[node.id].keyChar) || IsKeyEq(c, nodes[node.id].keyChar)) {
          r := node;
          assert FindGe(C, c) == k;
        } else {
          r := Null;
          assert k == |C|;
        }
      }
    }

    /** `Node::clone`: a new node with the key, value and both links of node `id`. */
    method Clone(id: nat) returns (n: nat)
      requires id < |nodes|
      modifies this
      ensures n == |old(nodes)| && nodes == old(nodes) + [old(nodes)[id]]
      ensures root == old(root) && forest == old(forest)
    {
      n := |nodes|;
      nodes := nodes + [NodeRec(nodes[id].keyChar, nodes[id].value, Null, Null)];
      nodes := nodes[n := nodes[n].(next := nodes[id].next)];
      nodes := nodes[n := nodes[n].(child := nodes[id].child)];
    }

    /** `Node::create(keyChar)`: a new node holding `c`, no value, no links. */
    method CreateNode(c: char) returns (n: nat)
      modifies this
      ensures n == |old(nodes)| && nodes == old(nodes) + [NodeRec(c, UNDEFINED, Null, Null)]
      ensures root == old(root) && forest == old(forest)
    {
      n := |nodes|;
      nodes := nodes + [NodeRec(c, UNDEFINED, Null, Null)];
    }

    /**
     * The before-head case of `getBrotherCreate`: the head `h` is cloned
     * into a new node linked second, and `h` itself is overwritten with a
     * value-less, childless node for `c`.
     */
    method InsertBeforeHead(h: nat, c: char, ghost C: seq<Tree>) returns (n: nat)
      requires C != [] && C[0].id == h && h < |nodes|
      modifies this
      ensures n == |old(nodes)| && nodes == SpliceBeforeNodes(old(nodes), C, c)
      ensures root == old(root) && forest == old(forest)
    {
      n := Clone(h);
      nodes := nodes[h := nodes[h].(next := Ptr(n))];
      nodes := nodes[h := nodes[h].(child := Null)];
      nodes := nodes[h := nodes[h].(keyChar := c)];
      nodes := nodes[h := nodes[h].(value := UNDEFINED)];
    }

    /**
     * The general case of `getBrotherCreate`: a new node for `c` is linked
     * between `prev`, the `k - 1`-th entry of `C`, and its old successor.
     */
    method InsertAfter(prev: nat, c: char, ghost C: seq<Tree>, ghost k: nat) returns (n: nat)
      requires 1 <= k <= |C| && C[k - 1].id == prev && prev < |nodes|
      requires nodes[prev].next == LinkAt(C, k)
      modifies this
      ensures n == |old(nodes)| && nodes == SpliceInAfterNodes(old(nodes), C, k, c)
      ensures root == old(root) && forest == old(forest)
    {
      var node := nodes[prev].next;
      n := CreateNode(c);
      if node.Ptr? {
        var oldNext := nodes[prev].next;
        nodes := nodes[prev := nodes[prev].(next := Ptr(n))];
        nodes := nodes[n := nodes[n].(next := oldNext)];
      } else {
        nodes := nodes[prev := nodes[prev].(next := Ptr(n))];
      }
    }

    /**
     * `Node::getBrotherCreate` on the head `h` of the chain `C`: the node
     * whose key compares equal to `c`, created in sorted position when there
     * is none. The chain afterwards is `C'`. A key before the head is handled
     * without moving the head: its contents go to a clone placed second, and
     * the head is overwritten with the new key, so the parent's `child` link
     * stays valid. Only nodes of the chain itself change, and new nodes are
     * appended to the arena.
     */
    method GetBrotherCreate(h: nat, c: char, ghost C: seq<Tree>) returns (r: nat, created: bool, ghost C': seq<Tree>)
      requires Rep(nodes, C) && Good(C) && C != [] && C[0].id == h
      modifies this
      ensures Rep(nodes, C') && Good(C') && C' != [] && C'[0].id == h
      ensures FindEq(C', c) < |C'| && r == C'[FindEq(C', c)].id
      ensures created <==> forall j | 0 <= j < |C| :: !IsKeyEq(C[j].key, c)
      ensures !created ==> C' == C && nodes == old(nodes)
      ensures created ==> |nodes| == |old(nodes)| + 1 && InsertedAt(C, C', FindEq(C', c), c)
      ensures created ==> Ids(C') == Ids(C) + {|old(nodes)|}
      ensures |old(nodes)| <= |nodes|
      ensures forall x | 0 <= x < |old(nodes)| && x !in Tops(C) :: nodes[x] == old(nodes)[x]
      ensures root == old(root) && forest == old(forest)
    {
      assert RepAt(nodes, C, 0);
      if IsKeyLess(c, nodes[h].keyChar) {
        SpliceBeforeFacts(nodes, C, c);
        var n := InsertBeforeHead(h, c, C);
        r := h;
        created := true;
        C' := SpliceBefore(C, n, c);
      } else if IsKeyEq(c, nodes[h].keyChar) {
        r := h;
        created := false;
        C' := C;
        FindEqUnique(C, c, 0);
      } else {
        var nodePrev, node, k := SkipLess(h, c, C);
        if node.Ptr? && IsKeyEq(nodes[node.id].keyChar, c) {
          r := node.id;
          created := false;
          C' := C;
          FindEqUnique(C, c, k);
        } else {
          SpliceInAfterFacts(nodes, C, k, c);
          var n := InsertAfter(nodePrev, c, C, k);
          r := n;
          created := true;
          C' := SpliceIn(C, k, n, c);
        }
      }
    }
  
    /**
     * The walk of `Node::getBrotherCreate` past the head `h`, which is less
     * than `c`: along the chain while the next node is less than `c`,
     * keeping the node before. It stops at the first node not less than
     * `c`, or at the end of the chain.
     */
    method SkipLess(h: nat, c: char, ghost C: seq<Tree>) returns (nodePrev: nat, node: Link, ghost k: nat)
      requires Rep(nodes, C) && C != [] && C[0].id == h && Less(C[0].key, c)
      ensures 1 <= k <= |C| && node == LinkAt(C, k) && nodePrev == C[k - 1].id
      ensures RepAt(nodes, C, k - 1) && (k < |C| ==> RepAt(nodes, C, k))
      ensures forall j | 0 <= j < k :: Less(C[j].key, c)
      ensures k < |C| ==> !IsKeyLess(C[k].key, c)
    {
      assert RepAt(nodes, C, 0);
      nodePrev := h;
      node := nodes[h].next;
      k := 1;
      if k < |C| { assert RepAt(nodes, C, k); }
      while node.Ptr? && IsKeyLess(nodes[node.id].keyChar, c)
        invariant 1 <= k <= |C| && node == LinkAt(C, k) && nodePrev == C[k - 1].id
        invariant RepAt(nodes, C, k - 1) && (k < |C| ==> RepAt(nodes, C, k))
        invariant forall j | 0 <= j < k :: Less(C[j].key, c)
        decreases |C| - k
      {
        nodePrev := node.id;
        node := nodes[node.id].next;
        k := k + 1;
        if k < |C| { assert RepAt(nodes, C, k); }
      }
    }

    /**
     * `Node::getChildCreate` on node `p`: its first child, created (with key
     * character 0, by `Node::create()`) and linked when `p` has none.
     */
    method GetChildCreate(p: nat) returns (n: nat, created: bool)
      requires p < |nodes|
      modifies this
      ensures created <==> old(nodes[p].child).Null?
      ensures !created ==> n == old(nodes[p].child).id && nodes == old(nodes)
      ensures created ==>
        (n == |old(nodes)|
         && nodes == old(nodes)[p := old(nodes)[p].(child := Ptr(n))] + [NodeRec('\0', UNDEFINED, Null, Null)])
      ensures root == old(root) && forest == old(forest)
    {
      created := false;
      if nodes[p].child.Null? {
        var m := CreateNode('\0');
        nodes := nodes[p := nodes[p].(child := Ptr(m))];
        created := true;
      }
      n := nodes[p].child.id;
    }

    /**
     * `Trie::intGetNodePathSimple`: the nodes of `key`, one per character,
     * each found with `getBrotherSimple` in the children of the one before;
     * empty as soon as a character has no node.
     */
    method PathSimple(key: seq<char>) returns (path: seq<nat>)
      requires Valid()
      ensures path == NodePath(forest, key)
    {
      path := [];
      var current := Ptr(root);
      var i := 0;
      while i < |key|
        invariant 0 <= i <= |key| && current.Ptr?
        invariant Resolves(forest, key[..i]) && path == NodePath(forest, key[..i])
        invariant current.id == if i == 0 then root else path[i - 1]
      {
        var c := key[i];
        ghost var C := ChainUnder(forest, key[..i]);
        SimpleRound(nodes, root, forest, key, i);
        current := nodes[current.id].child;
        if current.Null? {
          assert NodePath(forest, key) == [];
          break;
        }
        current := GetBrotherSimple(current.id, c, C);
        if current.Null? {
          assert NodePath(forest, key) == [];
          break;
        }
        path := path + [current.id];
        i := i + 1;
      }
      if current.Null? {
        path := [];
      } else {
        assert key[..i] == key;
      }
    }

    /**
     * `Trie::intGetNodePathCreate`: the nodes of `key`, one per character,
     * created where missing with `getChildCreate` and `getBrotherCreate`;
     * a created node is given the key's character. No key changes its value,
     * the keys equal to a prefix of `key` now resolve and no others are
     * added, and nothing changes at all when `key` already resolved.
     */
    method PathCreate(key: seq<char>) returns (path: seq<nat>)
      requires Valid()
      modifies this
      ensures Valid() && root == old(root) && |old(nodes)| <= |nodes|
      ensures Resolves(forest, key) && path == NodePath(forest, key) && |path| == |key|
      ensures forall k :: Get(forest, k) == old(Get(forest, k))
      ensures forall k | k != [] :: Resolves(forest, k) <==> old(Resolves(forest, k)) || (|k| <= |key| && KeyEq(k, key[..|k|]))
      ensures old(Resolves(forest, key)) ==> nodes == old(nodes) && forest == old(forest)
    {
      path := [];
      var current := root;
      var i := 0;
      ghost var F0, nodes0 := forest, nodes;
      ghost var resolved := Resolves(forest, key);
      while i < |key|
        invariant 0 <= i <= |key|
        invariant Valid() && root == old(root) && |nodes0| <= |nodes|
        invariant Resolves(forest, key[..i]) && path == NodePath(forest, key[..i])
        invariant current == if i == 0 then root else path[i - 1]
        invariant forall k :: Get(forest, k) == Get(F0, k)
        invariant PrefixesAdded(F0, forest, key, i)
        invariant resolved ==> nodes == nodes0 && forest == F0
      {
        assert key[..i + 1] == key[..i] + [key[i]];
        if i > 0 { NodePathLast(forest, key[..i]); }
        if resolved {
          LevelsTake(forest, key, i + 1);
        }
        ghost var F1 := forest;
        var node := CreateLevel(current, key[i], key[..i]);
        PrefixesAddedStep(F0, F1, forest, key, i);
        path := path + [node];
        current := node;
        i := i + 1;
      }
      assert key[..i] == key;
    }

    /**
     * One round of the loop of `Trie::intGetNodePathCreate`: below the node
     * `current`, which `p` reaches, the node for `c`, created where missing
     * with `getChildCreate` or `getBrotherCreate` and given the character `c`.
     * The keys equal to `p + [c]` are the only ones that may start to resolve.
     */
    method CreateLevel(current: nat, c: char, ghost p: seq<char>) returns (node: nat)
      requires Valid() && Resolves(forest, p) && current == ParentOf(forest, root, p)
      modifies this
      ensures Valid() && root == old(root) && |old(nodes)| <= |nodes|
      ensures Resolves(forest, p + [c]) && NodePath(forest, p + [c]) == old(NodePath(forest, p)) + [node]
      ensures forall k :: Get(forest, k) == old(Get(forest, k))
      ensures forall k {:trigger Resolves(forest, k)} | k != [] :: Resolves(forest, k) <==> old(Resolves(forest, k)) || KeyEq(k, p + [c])
      ensures old(Resolves(forest, p + [c])) ==> nodes == old(nodes) && forest == old(forest)
    {
      ghost var C := ChainUnder(forest, p);
      ParentLinks(nodes, root, forest, p);
      LevelsSnoc(forest, p, c);
      ghost var nodes0 := nodes;
      ghost var C': seq<Tree>;
      node, C' := NodeFor(current, c, C);
      LevelReplace(nodes0, nodes, root, forest, p, c, C');
      forest := ReplaceUnder(forest, p, C');
    }

    /**
     * The arena side of one round of `Trie::intGetNodePathCreate`: below
     * `current`, whose children are the chain `C`, the node for `c`, made by
     * `getChildCreate` when there are no children, else found or inserted by
     * `getBrotherCreate`; a created node is given the character `c`. The
     * chain becomes `C'`; only `current`'s child link, the chain's nodes and
     * new nodes change, and nothing changes when `C` already holds `c`.
     */
    method NodeFor(current: nat, c: char, ghost C: seq<Tree>) returns (node: nat, ghost C': seq<Tree>)
      requires current < |nodes| && nodes[current].child == LinkAt(C, 0)
      requires Rep(nodes, C) && Good(C) && current !in Tops(C)
      modifies this
      ensures root == old(root) && forest == old(forest)
      ensures Rep(nodes, C') && Good(C') && |old(nodes)| <= |nodes|
      ensures forall x | x in Ids(C') :: x in Ids(C) || |old(nodes)| <= x
      ensures nodes[current] == old(nodes)[current].(child := LinkAt(C', 0))
      ensures forall x | 0 <= x < |old(nodes)| && x !in Tops(C) && x != current :: nodes[x] == old(nodes)[x]
      ensures FindEq(C', c) < |C'| && node == C'[FindEq(C', c)].id
      ensures C' == C || (InsertedAt(C, C', FindEq(C', c), c) && forall m | 0 <= m < |C| :: !IsKeyEq(C[m].key, c))
      ensures FindEq(C, c) < |C| ==> C' == C && nodes == old(nodes)
    {
      var created;
      node, created := GetChildCreate(current);
      if created {
        nodes := nodes[node := nodes[node].(keyChar := c)];
        C' := [Leaf(node, c)];
        LeafChain(nodes, node, c);
      } else {
        node, created, C' := GetBrotherCreate(node, c, C);
        if created {
          assert RepAt(nodes, C', FindEq(C', c));
          ghost var nodes1 := nodes;
          nodes := nodes[node := nodes[node].(keyChar := c)];
          assert nodes == nodes1;
        }
      }
    }

    /**
     * `Trie::addKeyValue`: the node of `key`, created where missing, gets the
     * value `v`. Afterwards `key` and every key comparing equal to it map to
     * `v` (to nothing when `v` is the undefined value), all other keys keep
     * their values, and looking `key` up finds `v`. The keys that resolve
     * afterwards are those that did before and those equal to a prefix of
     * `key`. Re-adding a key that
     * already resolves creates no node and keeps every stored character.
     * The source asserts that the key is not empty.
     */
    method AddKeyValue(key: seq<char>, v: int) returns (r: nat)
      requires Valid() && key != []
      modifies this
      ensures Valid() && root == old(root)
      ensures forall k ::
        Get(forest, k) == if KeyEq(k, key) then (if HaveValue(v) then Some(v) else None) else old(Get(forest, k))
      ensures forall k | k != [] :: Resolves(forest, k) <==> old(Resolves(forest, k)) || (|k| <= |key| && KeyEq(k, key[..|k|]))
      ensures Find(forest, key) == Some(v)
      ensures NodeAt(forest, key).Some? && NodeAt(forest, key).value.id == r
      ensures r < |nodes| && nodes[r].value == v
      ensures old(Resolves(forest, key)) ==>
        |nodes| == |old(nodes)| && forall x | 0 <= x < |nodes| :: nodes[x].keyChar == old(nodes)[x].keyChar
    {
      var path := PathCreate(key);
      r := path[|path| - 1];
      NodePathLast(forest, key);
      SetValueWf(nodes, root, forest, key, v);
      SetValueGet(forest, key, v);
      nodes := nodes[r := nodes[r].(value := v)];
      forest := SetValue(forest, key, v);
      NodePathLast(forest, key);
    }

    /**
     * The unlinking step of `Trie::removeKey`: the node `n`, the `j`-th of
     * the chain `C` below the node `q`, leaves the chain through `q`'s child
     * link when it heads the chain, else through the `next` of the node
     * before it, found by walking the chain; its own `next` is cleared.
     */
    method Unsplice(q: nat, n: nat, ghost C: seq<Tree>, ghost j: nat) returns (removed: bool)
      requires Rep(nodes, C) && Good(C) && j < |C| && C[j].id == n
      requires q < |nodes| && q !in Ids(C) && nodes[q].child == LinkAt(C, 0)
      modifies this
      ensures C[j].id < |old(nodes)| && (j > 0 ==> C[j - 1].id < |old(nodes)|)
      ensures removed && nodes == UnspliceNodes(old(nodes), q, C, j)
      ensures root == old(root) && forest == old(forest)
    {
      UnspliceFrame(nodes, q, C, j);
      assert RepAt(nodes, C, j);
      removed := false;
      if nodes[q].child == Ptr(n) {
        GoodApart(C, 0, j);
        nodes := nodes[q := nodes[q].(child := nodes[n].next)];
        nodes := nodes[n := nodes[n].(next := Null)];
        removed := true;
      } else {
        var prev := Null;
        var node := nodes[q].child;
        ghost var k := 0;
        while node.Ptr?
          invariant k <= j && node == LinkAt(C, k) && RepAt(nodes, C, k)
          invariant prev == if k == 0 then Null else Ptr(C[k - 1].id)
          invariant nodes == old(nodes) && root == old(root) && forest == old(forest) && !removed
          decreases |C| - k
        {
          GoodApart(C, k, j);
          if node.id == n {
            nodes := nodes[prev.id := nodes[prev.id].(next := nodes[n].next)];
            nodes := nodes[n := nodes[n].(next := Null)];
            removed := true;
            break;
          }
          prev := node;
          node := nodes[node.id].next;
          k := k + 1;
          assert RepAt(nodes, C, k);
        }
        if !removed {
          assert false;
        }
      }
    }

    /**
     * `Trie::removeKey`: the empty key resets the trie to a fresh root with
     * no children; any other key that resolves has its node, with the whole
     * subtree below it, unlinked from its chain. The result says whether
     * anything was removed. Afterwards exactly the keys extending `key`
     * have lost their values.
     */
    method RemoveKey(key: seq<char>) returns (result: bool)
      requires Valid()
      modifies this
      ensures Valid()
      ensures key == [] ==> result && forest == []
      ensures key != [] ==> (result <==> old(Resolves(forest, key)))
      ensures key != [] && result ==> forest == Removed(old(forest), key)
      ensures !result ==> nodes == old(nodes) && root == old(root) && forest == old(forest)
      ensures forall k ::
        Get(forest, k) == if result && Extends(k, key) then None else old(Get(forest, k))
    {
      if key == [] {
        var n := CreateNode('\0');
        root := n;
        forest := [];
        result := true;
        assert Rep(nodes, []) && Good([]) && Ids([]) == {};
        forall k ensures Get(forest, k) == None { FindEmpty(k); }
      } else {
        var path := PathSimple(key);
        result := false;
        if path != [] {
          ghost var p := key[..|key| - 1];
          RemovalSite(nodes, root, forest, key);
          RemovedWf(nodes, root, forest, key);
          ParentLinks(nodes, root, forest, p);
          ghost var C := ChainUnder(forest, p);
          ghost var j := FindEq(C, key[|key| - 1]);
          var toRemove := path[|path| - 1];
          var parent := if |path| >= 2 then path[|path| - 2] else root;
          result := Unsplice(parent, toRemove, C, j);
          RemovedGet(forest, key);
          forest := Removed(forest, key);
        }
      }
    }

    /**
     * `Trie::find` (through `intGetNodeSimple`): an iterator on the path of
     * `key`, the end when the key does not resolve. It stands on the node the
     * key reaches, whether or not that node holds a value.
     */
    method FindKey(key: seq<char>) returns (it: Iterator)
      requires Valid()
      ensures fresh(it) && it.Valid() && it.nodes == nodes && it.forest == forest
      ensures it.cur == if Levels(forest, key) == [] then End() else Cursor(Levels(forest, key), true)
      ensures it.path != [] <==> NodeAt(forest, key).Some?
      ensures it.path != [] ==> it.path[|it.path| - 1].node == NodeAt(forest, key).value.id
    {
      var path := PathSimple(key);
      ghost var L := Levels(forest, key);
      if L != [] {
        LevelsUnder(forest, key);
      }
      UnderFits(nodes, forest, L);
      it := new Iterator.FromPath(nodes, forest, path, L);
      if L != [] {
        assert it.path[|L| - 1] == Stack(it.cur)[|L| - 1];
      }
    }

    /**
     * `Trie::intGetNodePathGreatEq`: per character the first node of the
     * level not less than it, stopping after a node that is not equal; the
     * path is cleared when a level has no children or no such node.
     */
    method PathGreatEq(key: seq<char>) returns (path: seq<nat>)
      requires Valid()
      ensures path == Heads(GeLevels(forest, key))
    {
      path := [];
      var current := Ptr(root);
      var i := 0;
      GeFromStart(forest, key);
      while i < |key|
        invariant 0 <= i <= |key| && current.Ptr?
        invariant Resolves(forest, key[..i]) && path == NodePath(forest, key[..i])
        invariant current.id == if i == 0 then root else path[i - 1]
        invariant GeFrom(forest, key, i) == GeLevels(forest, key)
      {
        var c := key[i];
        ghost var p := key[..i];
        ghost var C := ChainUnder(forest, p);
        GeRound(nodes, root, forest, key, i);
        current := nodes[current.id].child;
        if current.Null? {
          break;
        }
        current := GetBrotherEqOrGreat(current.id, c, C);
        if current.Null? {
          break;
        }
        path := path + [current.id];
        if !IsKeyEq(c, nodes[current.id].keyChar) {
          break;
        }
        i := i + 1;
      }
      if current.Null? {
        path := [];
      } else if i == |key| {
        assert key[..i] == key;
      } else {
        assert Heads(GeFrom(forest, key, i)) == path;
      }
    }

    /**
     * `Trie::intGetLowerBound`: an iterator on the greater-or-equal path,
     * advanced once with `operator++` when the path's last node holds no
     * value.
     */
    method LowerBound(key: seq<char>) returns (it: Iterator)
      requires Valid()
      ensures fresh(it) && it.Valid() && it.nodes == nodes && it.forest == forest
      ensures it.cur == LowerBoundAt(forest, key)
    {
      var path := PathGreatEq(key);
      ghost var L := GeLevels(forest, key);
      if L != [] {
        GeLevelsUnder(forest, key);
      }
      UnderFits(nodes, forest, L);
      it := new Iterator.FromPath(nodes, forest, path, L);
      if path != [] {
        TopNode(nodes, it.cur);
        if !HaveValue(nodes[path[|path| - 1]].value) {
          it.Next();
        }
      }
    }

    /**
     * `Trie::begin`: the end iterator when the root has no child; otherwise
     * an iterator on the first top-level node, advanced once with
     * `operator++`.
     */
    method Begin() returns (it: Iterator)
      requires Valid()
      ensures fresh(it) && it.Valid() && it.nodes == nodes && it.forest == forest
      ensures it.cur == BeginAt(forest)
    {
      var first := nodes[root].child;
      if first.Ptr? {
        ghost var S := [forest];
        assert Under(forest, S);
        UnderFits(nodes, forest, S);
        it := new Iterator.FromPath(nodes, forest, [first.id], S);
        it.Next();
      } else {
        it := new Iterator.End(nodes, forest);
      }
    }

    /** `Trie::end`: the iterator with an empty stack. */
    method EndIterator() returns (it: Iterator)
      requires Valid()
      ensures fresh(it) && it.Valid() && it.nodes == nodes && it.forest == forest
      ensures it.cur == End() && it.path == []
    {
      it := new Iterator.End(nodes, forest);
    }
  }

  /**
   * One round of `Trie::intGetNodePathGreatEq` at position `i`, in terms of
   * the arena: the node the loop stands on links to the chain below the
   * prefix, and the node found there decides as in `GeStep`, the path
   * growing by that node.
   */
  lemma {:induction false} GeRound(nodes: seq<NodeRec>, root: nat, F: seq<Tree>, key: seq<char>, i: nat)
    requires Wf(nodes, root, F) && i < |key| && Resolves(F, key[..i])
    ensures var p := key[..i]; var C := ChainUnder(F, p); var q := ParentOf(F, root, p);
      var j := FindGe(C, key[i]);
      && q < |nodes| && nodes[q].child == LinkAt(C, 0) && Rep(nodes, C) && Sorted(C)
      && q == (if i == 0 then root else NodePath(F, p)[i - 1])
      && (j == |C| ==> GeFrom(F, key, i) == [])
      && (j < |C| ==> C[j].id < |nodes| && nodes[C[j].id].keyChar == C[j].key)
      && (j < |C| && !IsKeyEq(key[i], C[j].key) ==> Heads(GeFrom(F, key, i)) == NodePath(F, p) + [C[j].id])
      && (j < |C| && IsKeyEq(key[i], C[j].key) ==>
            Resolves(F, key[..i + 1]) && NodePath(F, key[..i + 1]) == NodePath(F, p) + [C[j].id]
            && GeFrom(F, key, i + 1) == GeFrom(F, key, i))
  {
    var p := key[..i];
    var c := key[i];
    var C := ChainUnder(F, p);
    var j := FindGe(C, c);
    assert key[..i + 1] == p + [c];
    ParentLinks(nodes, root, F, p);
    if i > 0 {
      NodePathLast(F, p);
    }
    GeStep(F, key, i);
    if j < |C| {
      assert RepAt(nodes, C, j);
      NodePathSnoc(F, p, c);
      if !IsKeyEq(c, C[j].key) {
        assert Heads(Levels(F, p) + [C[j..]]) == NodePath(F, p) + [C[j].id];
      }
    }
  }

  /**
   * The effect of one round of `Trie::intGetNodePathCreate` on the forest:
   * the chain below `p` becomes `C'`, which holds a node for `c`, and the
   * arena changed as `ReplaceWf` allows. The trie stays well-formed, `p + [c]`
   * resolves through that node, no key changes its value, and nothing
   * changes when the chain is kept.
   */
  lemma {:induction false} LevelReplace(nodes: seq<NodeRec>, nodes': seq<NodeRec>, root: nat, F: seq<Tree>,
                                        p: seq<char>, c: char, C': seq<Tree>)
    requires Wf(nodes, root, F) && Resolves(F, p)
    requires Rep(nodes', C') && Good(C') && |nodes| <= |nodes'|
    requires forall x | x in Ids(C') :: x in Ids(ChainUnder(F, p)) || |nodes| <= x
    requires var q := ParentOf(F, root, p);
      q < |nodes| && nodes'[q] == nodes[q].(child := LinkAt(C', 0))
      && forall x | 0 <= x < |nodes| && x !in Tops(ChainUnder(F, p)) && x != q :: nodes'[x] == nodes[x]
    requires FindEq(C', c) < |C'|
    requires var C := ChainUnder(F, p);
      C' == C || (InsertedAt(C, C', FindEq(C', c), c) && forall m | 0 <= m < |C| :: !IsKeyEq(C[m].key, c))
    ensures var G := ReplaceUnder(F, p, C');
      Wf(nodes', root, G) && Resolves(G, p + [c])
      && NodePath(G, p + [c]) == NodePath(F, p) + [C'[FindEq(C', c)].id]
      && (forall k :: Get(G, k) == Get(F, k))
      && (forall k | k != [] :: Resolves(G, k) <==> Resolves(F, k) || KeyEq(k, p + [c]))
      && (C' == ChainUnder(F, p) ==> G == F)
  {
    ParentLinks(nodes, root, F, p);
    ReplaceWf(nodes, nodes', root, F, p, C');
    StepReplace(F, p, c, C', FindEq(C', c));
    ResolvesStep(F, p, c, C', FindEq(C', c));
    if C' == ChainUnder(F, p) {
      ReplaceUnderId(F, p);
    }
  }

  /**
   * One round of `Trie::intGetNodePathSimple` at position `i`, in terms of
   * the arena: the node the loop stands on links to the chain below the
   * prefix; no node there for `key[i]` means the key does not resolve, and a
   * node there extends the path by one.
   */
  lemma {:induction false} SimpleRound(nodes: seq<NodeRec>, root: nat, F: seq<Tree>, key: seq<char>, i: nat)
    requires Wf(nodes, root, F) && i < |key| && Resolves(F, key[..i])
    ensures var p := key[..i]; var C := ChainUnder(F, p); var q := ParentOf(F, root, p);
      var j := FindEq(C, key[i]);
      && q < |nodes| && nodes[q].child == LinkAt(C, 0) && Rep(nodes, C) && Sorted(C)
      && q == (if i == 0 then root else NodePath(F, p)[i - 1])
      && (j == |C| ==> Levels(F, key) == [])
      && (j < |C| ==> Resolves(F, key[..i + 1]) && NodePath(F, key[..i + 1]) == NodePath(F, p) + [C[j].id])
  {
    var p := key[..i];
    var c := key[i];
    assert key[..i + 1] == p + [c];
    ParentLinks(nodes, root, F, p);
    if i > 0 {
      NodePathLast(F, p);
    }
    LevelsSnoc(F, p, c);
    var C := ChainUnder(F, p);
    if FindEq(C, c) == |C| {
      PrefixFails(F, key, i + 1);
    } else {
      NodePathSnoc(F, p, c);
    }
  }
}

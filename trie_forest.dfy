/**
 * The abstraction of the trie's node graph used to state and prove what the
 * trie operations do.
 *
 * A trie node (`Node` in the source) has a key character, an `int` value, a
 * `next` link to its right sibling and a `child` link to the first node of the
 * chain one level down. The nodes live in an arena (a sequence indexed by node
 * id). The ghost forest describes, as a value, which nodes are reachable from
 * the root and how: every `Tree` names the id of the node that represents it,
 * and `Rep` ties each tree to its node's fields. The children of a node form
 * a chain, kept in ascending order of key characters (`Good`).
 */
module TrieForest {
  import opened CharOrder
  import opened Wrappers

  /** `get_undefined_value<int>()`: the value of a node that holds no value. */
  const UNDEFINED: int := -1

  /** A node pointer: null, or the id of a node in the arena. */
  datatype Link = Null | Ptr(id: nat)

  /** The fields of a `Node`: `m_keyChar`, `m_value`, `m_pNext`, `m_pChild`. */
  datatype NodeRec = NodeRec(keyChar: char, value: int, next: Link, child: Link)

  /** `Node::haveValue`: a node holds a value unless its value is the undefined one. */
  predicate HaveValue(value: int)
  {
    value != UNDEFINED
  }

  /** A node reachable from the root, with the chain of its children. */
  datatype Tree = Tree(id: nat, key: char, val: int, kids: seq<Tree>)

  /** The link to the i-th node of a chain; null past its end. */
  function LinkAt(C: seq<Tree>, i: nat): Link
  {
    if i < |C| then Ptr(C[i].id) else Null
  }

  /**
   * The arena represents the forest: each tree's node holds its key and value,
   * links to its right sibling and to the first of its children.
   */
  ghost predicate Rep(nodes: seq<NodeRec>, F: seq<Tree>)
    decreases F, 1
  {
    forall i | 0 <= i < |F| :: RepAt(nodes, F, i)
  }

  /** The `i`-th tree of a chain is represented: its node and, below it, its children. */
  ghost predicate RepAt(nodes: seq<NodeRec>, F: seq<Tree>, i: nat)
    decreases F, 0
  {
    i < |F|
    && F[i].id < |nodes|
    && nodes[F[i].id] == NodeRec(F[i].key, F[i].val, LinkAt(F, i + 1), LinkAt(F[i].kids, 0))
    && Rep(nodes, F[i].kids)
  }

  /** The ids of a tree's nodes. */
  ghost function Sub(t: Tree): set<nat>
    decreases t, 1
  {
    {t.id} + Ids(t.kids)
  }

  /** The ids of a forest's nodes. */
  ghost function Ids(F: seq<Tree>): set<nat>
    decreases F, 0
  {
    set i, x | 0 <= i < |F| && x in Sub(F[i]) :: x
  }

  /** The ids of the nodes of a chain itself, without their descendants. */
  ghost function Tops(C: seq<Tree>): set<nat>
  {
    set i | 0 <= i < |C| :: C[i].id
  }

  /** A chain strictly ascending under the comparator. */
  predicate Sorted(C: seq<Tree>)
  {
    forall i, j {:trigger Less(C[i].key, C[j].key)} | 0 <= i < j < |C| :: Less(C[i].key, C[j].key)
  }

  /** Every chain sorted, and no node reachable twice. */
  ghost predicate Good(F: seq<Tree>)
    decreases F
  {
    Sorted(F)
    && (forall i | 0 <= i < |F| :: F[i].id !in Ids(F[i].kids) && Good(F[i].kids))
    && (forall i, j {:trigger Sub(F[i]), Sub(F[j])} | 0 <= i < j < |F| :: Sub(F[i]) !! Sub(F[j]))
  }

  /** The first position in a chain whose key compares equal to `c`, or the chain's length. */
  function FindEq(C: seq<Tree>, c: char): (i: nat)
    ensures i <= |C|
    ensures i < |C| ==> IsKeyEq(C[i].key, c)
    ensures forall j | 0 <= j < i :: !IsKeyEq(C[j].key, c)
  {
    if C == [] then 0
    else if IsKeyEq(C[0].key, c) then 0
    else 1 + FindEq(C[1..], c)
  }

  /** The first position in a chain whose key is not less than `c`, or the chain's length. */
  function FindGe(C: seq<Tree>, c: char): (i: nat)
    ensures i <= |C|
    ensures i < |C| ==> !Less(C[i].key, c)
    ensures forall j | 0 <= j < i :: Less(C[j].key, c)
  {
    if C == [] then 0
    else if !Less(C[0].key, c) then 0
    else 1 + FindGe(C[1..], c)
  }

  /** In a sorted chain, a key equal to `c` can only sit where the keys stop being less than `c`. */
  lemma {:induction false} SortedFind(C: seq<Tree>, c: char)
    requires Sorted(C)
    ensures FindEq(C, c) == |C| || FindEq(C, c) == FindGe(C, c)
    ensures FindEq(C, c) == |C| <==> FindGe(C, c) == |C| || !IsKeyEq(C[FindGe(C, c)].key, c)
    ensures forall j | FindGe(C, c) < j < |C| :: Less(c, C[j].key)
  {
    var g := FindGe(C, c);
    var e := FindEq(C, c);
    forall j | g < j < |C| ensures Less(c, C[j].key) {
      assert Less(C[g].key, C[j].key);
    }
  }

  /** In a sorted chain, an entry equal to `c` is the first one. */
  lemma {:induction false} FindEqUnique(C: seq<Tree>, c: char, m: nat)
    requires Sorted(C) && m < |C| && IsKeyEq(C[m].key, c)
    ensures FindEq(C, c) == m
  {
    forall j | 0 <= j < m ensures !IsKeyEq(C[j].key, c) {
      assert Less(C[j].key, C[m].key);
    }
  }

  /**
   * The chain suffixes a key walks through, one per character: the d-th
   * starts at the node matching `k[d]` in the chain below the (d-1)-th. The
   * key resolves when all its characters are found; otherwise the result is
   * empty, as is the result for the empty key.
   */
  ghost function Levels(F: seq<Tree>, k: seq<char>): (L: seq<seq<Tree>>)
    ensures L == [] || |L| == |k|
    ensures forall d | 0 <= d < |L| :: L[d] != []
    decreases k
  {
    if k == [] then []
    else
      var i := FindEq(F, k[0]);
      if i == |F| then []
      else
        var rest := Levels(F[i].kids, k[1..]);
        if |k| > 1 && rest == [] then [] else [F[i..]] + rest
  }

  /** A prefix that resolves (the empty prefix always does). */
  ghost predicate Resolves(F: seq<Tree>, p: seq<char>)
  {
    p == [] || Levels(F, p) != []
  }

  /** The chain below the node a resolving prefix reaches (the top chain for the empty prefix). */
  ghost function ChainUnder(F: seq<Tree>, p: seq<char>): seq<Tree>
    requires Resolves(F, p)
  {
    if p == [] then F else Levels(F, p)[|p| - 1][0].kids
  }

  /** The node a key reaches, if it resolves. */
  ghost function NodeAt(F: seq<Tree>, k: seq<char>): Option<Tree>
  {
    var L := Levels(F, k);
    if L == [] then None else Some(L[|L| - 1][0])
  }

  /** The value stored at the node a key reaches, value-less nodes included. */
  ghost function Find(F: seq<Tree>, k: seq<char>): Option<int>
  {
    var t := NodeAt(F, k);
    if t.None? then None else Some(t.value.val)
  }

  /** The key-value map the trie represents: keys reaching a node that holds a value. */
  ghost function Get(F: seq<Tree>, k: seq<char>): Option<int>
  {
    var v := Find(F, k);
    if v.Some? && HaveValue(v.value) then v else None
  }

  /** Resolving a key one character further: the step the path loops take. */
  lemma {:induction false} LevelsSnoc(F: seq<Tree>, p: seq<char>, c: char)
    ensures Levels(F, p + [c]) ==
      if !Resolves(F, p) then []
      else
        var C := ChainUnder(F, p);
        var j := FindEq(C, c);
        if j == |C| then [] else Levels(F, p) + [C[j..]]
    decreases p
  {
    if p != [] {
      var i := FindEq(F, p[0]);
      if i < |F| {
        LevelsSnoc(F[i].kids, p[1..], c);
        LevelsSnocCons(F, p, c);
      } else {
        assert (p + [c])[0] == p[0];
        Descend(F, p);
      }
    }
  }

  /** The inductive step of `LevelsSnoc`, given its statement one level down. */
  lemma {:induction false} LevelsSnocCons(F: seq<Tree>, p: seq<char>, c: char)
    requires p != [] && FindEq(F, p[0]) < |F|
    requires var K := F[FindEq(F, p[0])].kids;
      Levels(K, p[1..] + [c]) ==
        if !Resolves(K, p[1..]) then []
        else
          var C := ChainUnder(K, p[1..]);
          var j := FindEq(C, c);
          if j == |C| then [] else Levels(K, p[1..]) + [C[j..]]
    ensures Levels(F, p + [c]) ==
      if !Resolves(F, p) then []
      else
        var C := ChainUnder(F, p);
        var j := FindEq(C, c);
        if j == |C| then [] else Levels(F, p) + [C[j..]]
  {
    var q := p + [c];
    var i := FindEq(F, p[0]);
    assert q[0] == p[0] && q[1..] == p[1..] + [c];
    Descend(F, p);
    var R := Levels(F[i].kids, p[1..]);
    var Q := Levels(F[i].kids, q[1..]);
    assert Levels(F, q) == if Q == [] then [] else [F[i..]] + Q;
    if Resolves(F, p) {
      assert Levels(F, p) == [F[i..]] + R;
      var C := ChainUnder(F, p);
      assert C == ChainUnder(F[i].kids, p[1..]);
      var j := FindEq(C, c);
      if j < |C| {
        assert Q == R + [C[j..]];
        assert [F[i..]] + (R + [C[j..]]) == ([F[i..]] + R) + [C[j..]];
      }
    }
  }

  /**
   * Resolving a non-empty prefix in a forest is resolving its tail in the
   * children of the tree its first character reaches.
   */
  lemma {:induction false} Descend(F: seq<Tree>, p: seq<char>)
    requires p != []
    ensures var i := FindEq(F, p[0]);
      Resolves(F, p) <==> i < |F| && Resolves(F[i].kids, p[1..])
    ensures var i := FindEq(F, p[0]);
      Resolves(F, p) && |p| == 1 ==> ChainUnder(F, p) == F[i].kids && NodeAt(F, p) == Some(F[i])
    ensures var i := FindEq(F, p[0]);
      Resolves(F, p) && |p| > 1 ==>
        ChainUnder(F, p) == ChainUnder(F[i].kids, p[1..]) && NodeAt(F, p) == NodeAt(F[i].kids, p[1..])
  {
  }

  /** Every id of a represented forest is a node of the arena. */
  lemma {:induction false} RepIds(nodes: seq<NodeRec>, F: seq<Tree>)
    requires Rep(nodes, F)
    ensures forall x | x in Ids(F) :: x < |nodes|
    decreases F
  {
    forall i | 0 <= i < |F| ensures forall x | x in Sub(F[i]) :: x < |nodes| {
      assert RepAt(nodes, F, i);
      RepIds(nodes, F[i].kids);
    }
  }

  /** Representation only depends on the nodes of the forest. */
  lemma {:induction false} RepFrame(nodes: seq<NodeRec>, nodes': seq<NodeRec>, F: seq<Tree>)
    requires Rep(nodes, F)
    requires |nodes| <= |nodes'|
    requires forall x | x in Ids(F) && x < |nodes| :: nodes'[x] == nodes[x]
    ensures Rep(nodes', F)
    decreases F
  {
    forall i | 0 <= i < |F| ensures RepAt(nodes', F, i) {
      assert RepAt(nodes, F, i);
      assert Sub(F[i]) <= Ids(F);
      RepFrame(nodes, nodes', F[i].kids);
    }
  }

  /** The ids of a forest after one of its trees is replaced. */
  lemma {:induction false} IdsUpdate(F: seq<Tree>, i: nat, t: Tree)
    requires i < |F|
    requires forall j | 0 <= j < |F| && j != i :: Sub(F[j]) !! Sub(F[i])
    ensures Ids(F[i := t]) == (Ids(F) - Sub(F[i])) + Sub(t)
  {
    var G := F[i := t];
    forall x | x in Ids(G) ensures x in (Ids(F) - Sub(F[i])) + Sub(t) {
      var j :| 0 <= j < |G| && x in Sub(G[j]);
      if j != i { assert x in Sub(F[j]); }
    }
    forall x | x in (Ids(F) - Sub(F[i])) + Sub(t) ensures x in Ids(G) {
      if x !in Sub(t) {
        var j :| 0 <= j < |F| && x in Sub(F[j]);
        assert j != i && G[j] == F[j];
      } else {
        assert x in Sub(G[i]);
      }
    }
  }

  /** The nodes of the chain below a resolving prefix belong to the forest, below the prefix's node. */
  lemma {:induction false} UnderIds(F: seq<Tree>, p: seq<char>)
    requires Resolves(F, p)
    ensures Ids(ChainUnder(F, p)) <= Ids(F)
    ensures p != [] ==> NodeAt(F, p).Some? && Sub(NodeAt(F, p).value) <= Ids(F)
    decreases p
  {
    if p != [] {
      Descend(F, p);
      var i := FindEq(F, p[0]);
      assert Sub(F[i]) <= Ids(F);
      if |p| > 1 {
        UnderIds(F[i].kids, p[1..]);
      }
    }
  }

  /**
   * The forest with the chain below a resolving prefix replaced by `C'`;
   * every other node keeps its place.
   */
  ghost function ReplaceUnder(F: seq<Tree>, p: seq<char>, C': seq<Tree>): (G: seq<Tree>)
    requires Resolves(F, p)
    ensures p != [] ==> |G| == |F| && forall m | 0 <= m < |F| :: G[m].id == F[m].id && G[m].key == F[m].key
    decreases p
  {
    if p == [] then C'
    else
      var i := FindEq(F, p[0]);
      F[i := F[i].(kids := ReplaceUnder(F[i].kids, p[1..], C'))]
  }

  /** The id of the node a resolving prefix reaches. */
  ghost function ParentIds(F: seq<Tree>, p: seq<char>): set<nat>
  {
    var t := NodeAt(F, p);
    if t.None? then {} else {t.value.id}
  }

  /** The nodes of a chain are among the ids of the chain. */
  lemma {:induction false} TopsIds(C: seq<Tree>)
    ensures Tops(C) <= Ids(C)
  {
    forall x | x in Tops(C) ensures x in Ids(C) {
      var i :| 0 <= i < |C| && C[i].id == x;
      assert x in Sub(C[i]);
    }
  }

  /** The nodes a replacement below `p` may touch lie inside the tree `p`'s first character reaches. */
  lemma {:induction false} ChangedInside(F: seq<Tree>, p: seq<char>)
    requires Good(F) && Resolves(F, p) && p != []
    ensures var t := F[FindEq(F, p[0])];
      Tops(ChainUnder(F, p)) + ParentIds(F, p) <= Sub(t)
      && (|p| > 1 ==> Tops(ChainUnder(F, p)) + ParentIds(F, p) <= Ids(t.kids))
  {
    Descend(F, p);
    var i := FindEq(F, p[0]);
    var t := F[i];
    var C := ChainUnder(F, p);
    TopsIds(C);
    if |p| > 1 {
      UnderIds(t.kids, p[1..]);
      assert Ids(C) <= Ids(t.kids);
      var n := NodeAt(t.kids, p[1..]).value;
      assert n.id in Sub(n);
      assert ParentIds(F, p) == {n.id};
    } else {
      assert C == t.kids;
      assert ParentIds(F, p) == {t.id};
    }
  }

  /** Representation survives replacing one tree of a chain by a tree with the same id. */
  lemma {:induction false} RepUpdateOne(nodes: seq<NodeRec>, nodes': seq<NodeRec>, F: seq<Tree>, i: nat, t': Tree, X: set<nat>)
    requires Rep(nodes, F) && Good(F) && i < |F| && |nodes| <= |nodes'|
    requires t'.id == F[i].id && t'.id < |nodes'| && X <= Sub(F[i])
    requires forall x | x in Ids(F) && x < |nodes| && x !in X :: nodes'[x] == nodes[x]
    requires nodes'[t'.id] == NodeRec(t'.key, t'.val, LinkAt(F, i + 1), LinkAt(t'.kids, 0))
    requires Rep(nodes', t'.kids)
    ensures Rep(nodes', F[i := t'])
  {
    var G := F[i := t'];
    forall j | 0 <= j < |G| ensures RepAt(nodes', G, j) {
      assert LinkAt(G, j + 1) == LinkAt(F, j + 1);
      assert RepAt(nodes, F, j);
      if j != i {
        assert G[j] == F[j];
        assert Sub(F[j]) <= Ids(F) && Sub(F[j]) !! Sub(F[i]);
        RepFrame(nodes, nodes', F[j].kids);
      }
    }
    assert Rep(nodes', G);
  }

  /**
   * Replacing the chain below `p` keeps the arena a representation, provided
   * the arena changed only in the chain's own nodes, in nodes not yet in the
   * forest, and in the `child` link of the node `p` reaches.
   */
  lemma {:induction false} RepReplace(nodes: seq<NodeRec>, nodes': seq<NodeRec>, F: seq<Tree>, p: seq<char>, C': seq<Tree>)
    requires Rep(nodes, F) && Good(F) && Resolves(F, p) && Rep(nodes', C')
    requires |nodes| <= |nodes'|
    requires forall x | x in Ids(F) && x < |nodes| && x !in Tops(ChainUnder(F, p)) && x !in ParentIds(F, p) :: nodes'[x] == nodes[x]
    requires p != [] ==>
      var q := NodeAt(F, p).value.id;
      q < |nodes| && nodes'[q] == nodes[q].(child := LinkAt(C', 0))
    ensures Rep(nodes', ReplaceUnder(F, p, C'))
    decreases p
  {
    if p != [] {
      Descend(F, p);
      var i := FindEq(F, p[0]);
      var t := F[i];
      var K' := ReplaceUnder(t.kids, p[1..], C');
      assert ReplaceUnder(F, p, C') == F[i := t.(kids := K')];
      ChangedInside(F, p);
      var X := Tops(ChainUnder(F, p)) + ParentIds(F, p);
      assert RepAt(nodes, F, i);
      assert Rep(nodes, t.kids) && Good(t.kids) && t.id !in Ids(t.kids);
      if |p| > 1 {
        assert Ids(t.kids) <= Ids(F) by { assert Sub(t) <= Ids(F); }
        RepReplace(nodes, nodes', t.kids, p[1..], C');
        assert nodes'[t.id] == nodes[t.id];
      }
      RepUpdateOne(nodes, nodes', F, i, t.(kids := K'), X);
    }
  }

  /** Good survives replacing one tree of a forest by one with the same key. */
  lemma {:induction false} GoodUpdateOne(F: seq<Tree>, i: nat, t': Tree)
    requires Good(F) && i < |F| && t'.key == F[i].key
    requires Good(t'.kids) && t'.id !in Ids(t'.kids)
    requires forall j | 0 <= j < |F| && j != i :: Sub(F[j]) !! Sub(t')
    ensures Good(F[i := t'])
  {
    var G := F[i := t'];
    assert Sorted(G) by {
      forall a, b | 0 <= a < b < |G| ensures Less(G[a].key, G[b].key) {
        assert G[a].key == F[a].key && G[b].key == F[b].key;
      }
    }
    forall a, b | 0 <= a < b < |G| ensures Sub(G[a]) !! Sub(G[b]) {
      if a != i && b != i { assert G[a] == F[a] && G[b] == F[b]; }
    }
  }

  /**
   * Replacing the chain below `p` by a good chain whose nodes are new to the
   * rest of the forest keeps the forest good; its ids are those of the rest
   * plus those of the new chain.
   */
  lemma {:induction false} GoodReplace(F: seq<Tree>, p: seq<char>, C': seq<Tree>)
    requires Good(F) && Resolves(F, p) && Good(C')
    requires Ids(C') !! (Ids(F) - Ids(ChainUnder(F, p)))
    ensures Good(ReplaceUnder(F, p, C'))
    ensures Ids(ReplaceUnder(F, p, C')) == (Ids(F) - Ids(ChainUnder(F, p))) + Ids(C')
    decreases p
  {
    if p != [] {
      Descend(F, p);
      var i := FindEq(F, p[0]);
      var t := F[i];
      var CU := ChainUnder(F, p);
      var K' := ReplaceUnder(t.kids, p[1..], C');
      assert ReplaceUnder(F, p, C') == F[i := t.(kids := K')];
      assert Sub(t) <= Ids(F);
      if |p| > 1 {
        UnderIds(t.kids, p[1..]);
      }
      assert CU == ChainUnder(t.kids, p[1..]);
      GoodReplace(t.kids, p[1..], C');
      GoodReplaceOne(F, i, K', CU, C');
    }
  }

  /** One level of `GoodReplace`: the tree above the replaced chain gets its new children. */
  lemma {:induction false} GoodReplaceOne(F: seq<Tree>, i: nat, K': seq<Tree>, CU: seq<Tree>, C': seq<Tree>)
    requires Good(F) && i < |F| && Good(K')
    requires Ids(CU) <= Ids(F[i].kids) && Ids(C') !! (Ids(F) - Ids(CU))
    requires Ids(K') == (Ids(F[i].kids) - Ids(CU)) + Ids(C')
    ensures Good(F[i := F[i].(kids := K')])
    ensures Ids(F[i := F[i].(kids := K')]) == (Ids(F) - Ids(CU)) + Ids(C')
  {
    var t := F[i];
    var t' := t.(kids := K');
    assert Sub(t) <= Ids(F);
    assert t.id !in Ids(CU) && t.id in Ids(F) - Ids(CU);
    assert Sub(t') == (Sub(t) - Ids(CU)) + Ids(C') by {
      assert Sub(t') == {t.id} + Ids(K');
    }
    forall j | 0 <= j < |F| && j != i ensures Sub(F[j]) !! Sub(t') {
      assert Sub(F[j]) <= Ids(F) && Sub(F[j]) !! Sub(t);
    }
    GoodUpdateOne(F, i, t');
    IdsUpdate(F, i, t');
    SetShuffle(Ids(F), Sub(t), Sub(t'), Ids(CU), Ids(C'));
  }

  lemma {:induction false} SetShuffle(A: set<nat>, S: set<nat>, T: set<nat>, U: set<nat>, N: set<nat>)
    requires U <= S <= A && T == (S - U) + N
    ensures (A - S) + T == (A - U) + N
  {
  }

  /** `FindEq` depends only on the fold of the character searched for. */
  lemma {:induction false} FindEqCongruent(C: seq<Tree>, a: char, b: char)
    requires IsKeyEq(a, b)
    ensures FindEq(C, a) == FindEq(C, b)
    decreases C
  {
    if C != [] {
      FindEqCongruent(C[1..], a, b);
    }
  }

  /** `FindEq` depends only on the keys of the chain. */
  lemma {:induction false} FindEqKeys(C: seq<Tree>, D: seq<Tree>, c: char)
    requires |C| == |D| && forall m | 0 <= m < |C| :: C[m].key == D[m].key
    ensures FindEq(C, c) == FindEq(D, c)
    decreases C
  {
    if C != [] {
      FindEqKeys(C[1..], D[1..], c);
    }
  }

  /** Looking a non-empty key up: find its first character, then go on in that node's children. */
  lemma {:induction false} FindCons(F: seq<Tree>, k: seq<char>)
    requires k != []
    ensures var i := FindEq(F, k[0]);
      Find(F, k) ==
        if i == |F| then None
        else if |k| == 1 then Some(F[i].val)
        else Find(F[i].kids, k[1..])
  {
  }

  /** Keys compare equal exactly when their first characters and their tails do. */
  lemma {:induction false} KeyEqCons(s: seq<char>, t: seq<char>)
    requires s != [] && t != []
    ensures KeyEq(s, t) <==> IsKeyEq(s[0], t[0]) && KeyEq(s[1..], t[1..])
  {
    if IsKeyEq(s[0], t[0]) && KeyEq(s[1..], t[1..]) {
      forall m | 0 <= m < |s| ensures IsKeyEq(s[m], t[m]) {
        if m > 0 { assert s[m] == s[1..][m - 1] && t[m] == t[1..][m - 1]; }
      }
    }
  }

  /** Keys comparing equal find the same. */
  lemma {:induction false} FindKeyEq(F: seq<Tree>, a: seq<char>, b: seq<char>)
    requires KeyEq(a, b)
    ensures Find(F, a) == Find(F, b)
    decreases a
  {
    if a != [] {
      FindCons(F, a);
      FindCons(F, b);
      FindEqCongruent(F, a[0], b[0]);
      KeyEqCons(a, b);
      var i := FindEq(F, a[0]);
      if i < |F| && |a| > 1 {
        FindKeyEq(F[i].kids, a[1..], b[1..]);
      }
    }
  }

  /**
   * After replacing the chain below `p`, a key that extends `p` is looked up
   * in the new chain; every other key finds what it found before.
   */
  lemma {:induction false} FindReplace(F: seq<Tree>, p: seq<char>, C': seq<Tree>, k: seq<char>)
    requires Resolves(F, p)
    ensures Find(ReplaceUnder(F, p, C'), k) ==
      if |k| > |p| && KeyEq(k[..|p|], p) then Find(C', k[|p|..]) else Find(F, k)
    decreases p
  {
    if p == [] {
      assert k[..0] == [] && k[0..] == k;
    } else if k != [] {
      Descend(F, p);
      var i := FindEq(F, p[0]);
      var t := F[i];
      var K' := ReplaceUnder(t.kids, p[1..], C');
      var G := F[i := t.(kids := K')];
      assert ReplaceUnder(F, p, C') == G;
      FindEqKeys(F, G, k[0]);
      FindCons(F, k);
      FindCons(G, k);
      if IsKeyEq(k[0], p[0]) {
        FindEqCongruent(F, k[0], p[0]);
        if |k| > 1 {
          FindReplace(t.kids, p[1..], C', k[1..]);
          if |k| > |p| {
            FindReplaceSlices(k, p);
          }
        }
      } else {
        FindReplaceOther(k, p);
      }
    }
  }

  /** The slices of `FindReplace` one character down. */
  lemma {:induction false} FindReplaceSlices(k: seq<char>, p: seq<char>)
    requires p != [] && |k| > |p| && IsKeyEq(k[0], p[0])
    ensures KeyEq(k[..|p|], p) <==> KeyEq(k[1..][..|p| - 1], p[1..])
    ensures k[|p|..] == k[1..][|p| - 1..]
  {
    assert k[..|p|][1..] == k[1..][..|p| - 1];
    KeyEqCons(k[..|p|], p);
  }

  /** A key whose first character differs from the prefix's does not extend it. */
  lemma {:induction false} FindReplaceOther(k: seq<char>, p: seq<char>)
    requires p != [] && k != [] && !IsKeyEq(k[0], p[0])
    ensures |k| > |p| ==> !KeyEq(k[..|p|], p)
  {
    if |k| > |p| {
      assert k[..|p|][0] == k[0];
    }
  }
}

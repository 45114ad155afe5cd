/**
 * Paths through the forest: the node ids a key resolves to, and what
 * replacing the chain below a prefix does to paths and to the key-value map.
 * These are the facts behind `Trie::intGetNodePathSimple`,
 * `Trie::intGetNodePathCreate` and `Trie::addKeyValue`.
 */
module TriePaths {
  import opened Wrappers
  import opened CharOrder
  import opened TrieForest
  import opened ChainSplice

  /** The ids of the heads of the levels of a resolution: the nodes of the path. */
  ghost function Heads(L: seq<seq<Tree>>): (P: seq<nat>)
    requires forall d | 0 <= d < |L| :: L[d] != []
    ensures |P| == |L|
  {
    seq(|L|, d requires 0 <= d < |L| => L[d][0].id)
  }

  /** The path a key resolves to: one node per character, or none at all. */
  ghost function NodePath(F: seq<Tree>, k: seq<char>): (P: seq<nat>)
    ensures P == [] || |P| == |k|
  {
    Heads(Levels(F, k))
  }

  /** A resolution of a key, cut to a non-empty prefix, is the prefix's resolution. */
  lemma {:induction false} LevelsTake(F: seq<Tree>, k: seq<char>, n: nat)
    requires 1 <= n <= |k| && Levels(F, k) != []
    ensures Levels(F, k[..n]) == Levels(F, k)[..n]
    decreases k
  {
    var i := FindEq(F, k[0]);
    assert k[..n][0] == k[0];
    var rest := Levels(F[i].kids, k[1..]);
    if n == 1 {
      assert k[..n][1..] == [];
    } else {
      assert k[..n][1..] == k[1..][..n - 1];
      LevelsTake(F[i].kids, k[1..], n - 1);
      assert Levels(F, k)[..n] == [F[i..]] + rest[..n - 1];
    }
  }

  /** A key with a prefix that does not resolve does not resolve either. */
  lemma {:induction false} PrefixFails(F: seq<Tree>, k: seq<char>, n: nat)
    requires 1 <= n <= |k| && Levels(F, k[..n]) == []
    ensures Levels(F, k) == []
  {
    if Levels(F, k) != [] {
      LevelsTake(F, k, n);
    }
  }

  /**
   * Below a resolving prefix, the chain is represented and good, and the
   * node the prefix reaches links to it.
   */
  lemma {:induction false} UnderRep(nodes: seq<NodeRec>, F: seq<Tree>, p: seq<char>)
    requires Rep(nodes, F) && Good(F) && Resolves(F, p)
    ensures Rep(nodes, ChainUnder(F, p)) && Good(ChainUnder(F, p))
    ensures p != [] ==> NodeAt(F, p).Some?
    ensures p != [] ==>
      var t := NodeAt(F, p).value;
      t.kids == ChainUnder(F, p) && t.id < |nodes| && nodes[t.id].child == LinkAt(t.kids, 0)
      && t.id in Ids(F) && t.id !in Ids(t.kids)
    decreases p
  {
    if p != [] {
      Descend(F, p);
      var i := FindEq(F, p[0]);
      assert RepAt(nodes, F, i);
      assert Sub(F[i]) <= Ids(F);
      if |p| > 1 {
        UnderRep(nodes, F[i].kids, p[1..]);
      } else {
        assert F[i].id in Sub(F[i]);
      }
    }
  }

  /** The last node of a resolving key's path is the node it reaches. */
  lemma {:induction false} NodePathLast(F: seq<Tree>, k: seq<char>)
    requires k != [] && Resolves(F, k)
    ensures NodeAt(F, k).Some? && |NodePath(F, k)| == |k|
    ensures NodePath(F, k)[|k| - 1] == NodeAt(F, k).value.id
  {
  }

  /** Resolving one character further appends that character's node to the path. */
  lemma {:induction false} NodePathSnoc(F: seq<Tree>, p: seq<char>, c: char)
    requires Resolves(F, p)
    ensures var C := ChainUnder(F, p);
      var j := FindEq(C, c);
      j < |C| ==>
        (Resolves(F, p + [c]) && NodePath(F, p + [c]) == NodePath(F, p) + [C[j].id]
         && NodeAt(F, p + [c]) == Some(C[j]) && ChainUnder(F, p + [c]) == C[j].kids)
  {
    var C := ChainUnder(F, p);
    var j := FindEq(C, c);
    LevelsSnoc(F, p, c);
    if j < |C| {
      var L := Levels(F, p);
      var L' := Levels(F, p + [c]);
      assert L' == L + [C[j..]];
      assert |L'| == |p| + 1 && L'[|p|] == C[j..];
      assert L'[|p|][0] == C[j];
      HeadsSnoc(L, C[j..]);
    }
  }

  /** The heads of a resolution extended by one level. */
  lemma {:induction false} HeadsSnoc(A: seq<seq<Tree>>, T: seq<Tree>)
    requires T != [] && forall d | 0 <= d < |A| :: A[d] != []
    ensures Heads(A + [T]) == Heads(A) + [T[0].id]
  {
    var L := A + [T];
    forall d | 0 <= d < |L| ensures Heads(L)[d] == (Heads(A) + [T[0].id])[d] {
      if d < |A| { assert L[d] == A[d]; }
    }
  }

  /**
   * Replacing the chain below `p` keeps `p` resolving to the same nodes, and
   * `p`'s chain becomes the new one.
   */
  lemma {:induction false} ReplaceUnderSame(F: seq<Tree>, p: seq<char>, C': seq<Tree>)
    requires Resolves(F, p)
    ensures var G := ReplaceUnder(F, p, C');
      Resolves(G, p) && ChainUnder(G, p) == C' && NodePath(G, p) == NodePath(F, p)
    decreases p
  {
    if p != [] {
      Descend(F, p);
      var i := FindEq(F, p[0]);
      if |p| > 1 {
        ReplaceUnderSame(F[i].kids, p[1..], C');
      }
      ReplaceUnderSameCons(F, p, C');
    }
  }

  /** The inductive step of `ReplaceUnderSame`, given its statement one level down. */
  lemma {:induction false} ReplaceUnderSameCons(F: seq<Tree>, p: seq<char>, C': seq<Tree>)
    requires p != [] && Resolves(F, p)
    requires var i := FindEq(F, p[0]);
      i < |F| && Resolves(F[i].kids, p[1..]) &&
      (|p| > 1 ==>
        var K' := ReplaceUnder(F[i].kids, p[1..], C');
        Resolves(K', p[1..]) && ChainUnder(K', p[1..]) == C' && NodePath(K', p[1..]) == NodePath(F[i].kids, p[1..]))
    ensures var G := ReplaceUnder(F, p, C');
      Resolves(G, p) && ChainUnder(G, p) == C' && NodePath(G, p) == NodePath(F, p)
  {
    var i := FindEq(F, p[0]);
    var G := ReplaceUnder(F, p, C');
    var K' := ReplaceUnder(F[i].kids, p[1..], C');
    assert G == F[i := F[i].(kids := K')];
    FindEqKeys(F, G, p[0]);
    Descend(G, p);
    if |p| > 1 {
      var A := Levels(F[i].kids, p[1..]);
      var B := Levels(K', p[1..]);
      assert Levels(F, p) == [F[i..]] + A;
      assert Levels(G, p) == [G[i..]] + B;
      HeadsCons(F[i..], A);
      HeadsCons(G[i..], B);
    } else {
      assert p[1..] == [];
      assert Levels(F, p) == [F[i..]] && Levels(G, p) == [G[i..]];
    }
  }

  /** The heads of levels with one more level in front. */
  lemma {:induction false} HeadsCons(T: seq<Tree>, A: seq<seq<Tree>>)
    requires T != [] && forall d | 0 <= d < |A| :: A[d] != []
    ensures Heads([T] + A) == [T[0].id] + Heads(A)
  {
    var L := [T] + A;
    forall d | 0 <= d < |L| ensures Heads(L)[d] == ([T[0].id] + Heads(A))[d] {
      if d > 0 { assert L[d] == A[d - 1]; }
    }
  }

  /** Putting a prefix's own chain back changes nothing. */
  lemma {:induction false} ReplaceUnderId(F: seq<Tree>, p: seq<char>)
    requires Resolves(F, p)
    ensures ReplaceUnder(F, p, ChainUnder(F, p)) == F
    decreases p
  {
    if p != [] {
      Descend(F, p);
      var i := FindEq(F, p[0]);
      if |p| > 1 {
        ReplaceUnderId(F[i].kids, p[1..]);
      }
      assert F[i := F[i].(kids := F[i].kids)] == F;
    }
  }

  /** A key the empty forest holds nothing for. */
  lemma {:induction false} FindEmpty(s: seq<char>)
    ensures Find([], s) == None
  {
  }

  /**
   * Inserting a value-less, childless node for a character no entry equals
   * leaves the key-value map of the chain unchanged.
   */
  lemma {:induction false} GetInserted(C: seq<Tree>, C': seq<Tree>, j: nat, c: char)
    requires Sorted(C) && Sorted(C') && InsertedAt(C, C', j, c)
    requires forall m | 0 <= m < |C| :: !IsKeyEq(C[m].key, c)
    ensures forall s :: Get(C', s) == Get(C, s)
  {
    forall s ensures Get(C', s) == Get(C, s) {
      GetInsertedAt(C, C', j, c, s);
    }
  }

  /** `GetInserted` for one key. */
  lemma {:induction false} GetInsertedAt(C: seq<Tree>, C': seq<Tree>, j: nat, c: char, s: seq<char>)
    requires Sorted(C) && Sorted(C') && InsertedAt(C, C', j, c)
    requires forall m | 0 <= m < |C| :: !IsKeyEq(C[m].key, c)
    ensures Get(C', s) == Get(C, s)
  {
    FindInsertedAt(C, C', j, c, s);
    if |s| == 1 && IsKeyEq(s[0], c) {
      FindCons(C, s);
      FindEqCongruent(C, s[0], c);
    }
  }

  /**
   * Looking a key up after the insertion of `GetInserted`: the one-character
   * keys equal to `c` reach the new, value-less node; every other key finds
   * what it found before.
   */
  lemma {:induction false} FindInsertedAt(C: seq<Tree>, C': seq<Tree>, j: nat, c: char, s: seq<char>)
    requires Sorted(C) && Sorted(C') && InsertedAt(C, C', j, c)
    requires forall m | 0 <= m < |C| :: !IsKeyEq(C[m].key, c)
    ensures Find(C', s) == if |s| == 1 && IsKeyEq(s[0], c) then Some(UNDEFINED) else Find(C, s)
  {
    if s != [] {
      FindCons(C', s);
      FindCons(C, s);
      var x := s[0];
      var i' := FindEq(C', x);
      var i := FindEq(C, x);
      if i' == |C'| {
        forall m | 0 <= m < |C| ensures !IsKeyEq(C[m].key, x) {
          var m' := if m < j then m else m + 1;
          assert Same(C'[m'], C[m]);
        }
      } else if i' == j {
        assert i == |C|;
        FindEmpty(s[1..]);
      } else {
        var m := if i' < j then i' else i' - 1;
        assert Same(C'[i'], C[m]);
        FindEqUnique(C, x, m);
      }
    }
  }

  /** After the chain below `p` is replaced by one with the same key-value map, so is the forest's. */
  lemma {:induction false} GetReplace(F: seq<Tree>, p: seq<char>, C': seq<Tree>)
    requires Resolves(F, p)
    requires forall s :: Get(C', s) == Get(ChainUnder(F, p), s)
    ensures forall k :: Get(ReplaceUnder(F, p, C'), k) == Get(F, k)
  {
    var C := ChainUnder(F, p);
    ReplaceUnderId(F, p);
    forall k ensures Get(ReplaceUnder(F, p, C'), k) == Get(F, k) {
      FindReplace(F, p, C', k);
      FindReplace(F, p, C, k);
      if |k| > |p| && KeyEq(k[..|p|], p) {
        assert Get(C', k[|p|..]) == Get(C, k[|p|..]);
      }
    }
  }

  /** Setting the value of the `j`-th tree of a chain changes only the lookup of its one-character keys. */
  lemma {:induction false} FindSetVal(C: seq<Tree>, j: nat, v: int, s: seq<char>)
    requires j < |C|
    ensures Find(C[j := C[j].(val := v)], s) ==
      if |s| == 1 && FindEq(C, s[0]) == j then Some(v) else Find(C, s)
  {
    if s != [] {
      var C' := C[j := C[j].(val := v)];
      FindEqKeys(C, C', s[0]);
      FindCons(C, s);
      FindCons(C', s);
    }
  }

  /**
   * `addKeyValue`'s effect on the forest: the node a resolving, non-empty
   * key reaches gets the value `v`.
   */
  ghost function SetValue(F: seq<Tree>, key: seq<char>, v: int): seq<Tree>
    requires key != [] && Resolves(F, key)
  {
    var p := key[..|key| - 1];
    assert key == p + [key[|key| - 1]];
    LevelsSnoc(F, p, key[|key| - 1]);
    var C := ChainUnder(F, p);
    var j := FindEq(C, key[|key| - 1]);
    ReplaceUnder(F, p, C[j := C[j].(val := v)])
  }

  /**
   * Setting a value at a key: the key, and every key comparing equal to it,
   * now maps to `v` (nothing, if `v` is the undefined value); all other keys
   * keep their value. The key itself finds `v`, and the same keys resolve
   * as before.
   */
  lemma {:induction false} SetValueGet(F: seq<Tree>, key: seq<char>, v: int)
    requires key != [] && Resolves(F, key)
    ensures forall k ::
      Get(SetValue(F, key, v), k) == if KeyEq(k, key) then (if HaveValue(v) then Some(v) else None) else Get(F, k)
    ensures Find(SetValue(F, key, v), key) == Some(v)
    ensures forall k | k != [] :: Resolves(SetValue(F, key, v), k) <==> Resolves(F, k)
  {
    var n := |key|;
    var p := key[..n - 1];
    var c := key[n - 1];
    assert key == p + [c];
    LevelsSnoc(F, p, c);
    var C := ChainUnder(F, p);
    var j := FindEq(C, c);
    var C2 := C[j := C[j].(val := v)];
    var G := ReplaceUnder(F, p, C2);
    forall k | true
      ensures Find(G, k) == if KeyEq(k, key) then Some(v) else Find(F, k)
      ensures k != [] ==> (Resolves(G, k) <==> Resolves(F, k))
    {
      SetValueFindAt(F, key, v, k);
      if KeyEq(k, key) {
        FindKeyEq(F, k, key);
      }
    }
    assert KeyEq(key, key);
  }

  /** `SetValueGet` for one key `k`, in terms of `Find`. */
  lemma {:induction false} SetValueFindAt(F: seq<Tree>, key: seq<char>, v: int, k: seq<char>)
    requires key != [] && Resolves(F, key)
    ensures Find(SetValue(F, key, v), k) == if KeyEq(k, key) then Some(v) else Find(F, k)
  {
    var n := |key|;
    var p := key[..n - 1];
    var c := key[n - 1];
    assert key == p + [c];
    LevelsSnoc(F, p, c);
    var C := ChainUnder(F, p);
    var j := FindEq(C, c);
    var C2 := C[j := C[j].(val := v)];
    ReplaceUnderId(F, p);
    FindReplace(F, p, C2, k);
    FindReplace(F, p, C, k);
    if KeyEq(k, key) {
      KeyEqInit(k, key, p);
    }
    if |k| > |p| && KeyEq(k[..|p|], p) {
      var s := k[|p|..];
      FindSetVal(C, j, v, s);
      if |k| == n {
        assert s == [k[n - 1]];
        if IsKeyEq(k[n - 1], c) {
          FindEqCongruent(C, k[n - 1], c);
          assert KeyEq(k, key) by {
            forall m | 0 <= m < n ensures IsKeyEq(k[m], key[m]) {
              if m < n - 1 { assert k[m] == k[..|p|][m] && key[m] == p[m]; }
            }
          }
        } else {
          assert !KeyEq(k, key);
        }
      } else {
        assert !KeyEq(k, key);
      }
    }
  }

  /** A key comparing equal to a non-empty key has an initial part comparing equal to the key's. */
  lemma {:induction false} KeyEqInit(k: seq<char>, key: seq<char>, p: seq<char>)
    requires KeyEq(k, key) && key != [] && p == key[..|key| - 1]
    ensures |k| > |p| && KeyEq(k[..|p|], p)
  {
    forall m | 0 <= m < |p| ensures IsKeyEq(k[..|p|][m], p[m]) {
      assert k[..|p|][m] == k[m] && p[m] == key[m];
    }
  }

  /**
   * A well-formed trie: the root is a node outside the forest whose `child`
   * link starts the top-level chain, and the arena represents the good forest.
   */
  ghost predicate Wf(nodes: seq<NodeRec>, root: nat, F: seq<Tree>)
  {
    root < |nodes|
    && nodes[root].child == LinkAt(F, 0)
    && Rep(nodes, F)
    && Good(F)
    && root !in Ids(F)
  }

  /** The node whose `child` link starts the chain below `p`: the root for the empty prefix. */
  ghost function ParentOf(F: seq<Tree>, root: nat, p: seq<char>): nat
  {
    if p == [] || NodeAt(F, p).None? then root else NodeAt(F, p).value.id
  }

  /** Below a resolving prefix of a well-formed trie, the parent links to the chain and lies outside it. */
  lemma {:induction false} ParentLinks(nodes: seq<NodeRec>, root: nat, F: seq<Tree>, p: seq<char>)
    requires Wf(nodes, root, F) && Resolves(F, p)
    ensures var C := ChainUnder(F, p);
      var q := ParentOf(F, root, p);
      Rep(nodes, C) && Good(C) && q < |nodes| && nodes[q].child == LinkAt(C, 0)
      && q !in Ids(C) && q !in Tops(C) && (p != [] ==> q in Ids(F))
      && (p == [] <==> q == root)
  {
    UnderRep(nodes, F, p);
    TopsIds(ChainUnder(F, p));
  }

  /** The nodes of a resolved key hold characters comparing equal to the key's. */
  lemma {:induction false} NodePathKeys(nodes: seq<NodeRec>, F: seq<Tree>, k: seq<char>)
    requires Rep(nodes, F)
    ensures var P := NodePath(F, k);
      forall d | 0 <= d < |P| :: P[d] < |nodes| && IsKeyEq(nodes[P[d]].keyChar, k[d])
    decreases k
  {
    var P := NodePath(F, k);
    if P != [] {
      var i := FindEq(F, k[0]);
      var rest := Levels(F[i].kids, k[1..]);
      assert Levels(F, k) == [F[i..]] + rest;
      assert RepAt(nodes, F, i);
      NodePathKeys(nodes, F[i].kids, k[1..]);
      forall d | 0 <= d < |P| ensures P[d] < |nodes| && IsKeyEq(nodes[P[d]].keyChar, k[d]) {
        if d > 0 {
          assert P[d] == NodePath(F[i].kids, k[1..])[d - 1];
          assert k[d] == k[1..][d - 1];
        }
      }
    }
  }

  /**
   * Each node of a resolved key's path lies in the chain below the key's
   * prefix before it: the first in the top-level chain, every other one in
   * the children of the node before it.
   */
  lemma {:induction false} NodePathLinked(F: seq<Tree>, k: seq<char>)
    ensures var P := NodePath(F, k);
      forall d | 0 <= d < |P| :: Resolves(F, k[..d]) && P[d] in Tops(ChainUnder(F, k[..d]))
  {
    var P := NodePath(F, k);
    forall d | 0 <= d < |P| ensures Resolves(F, k[..d]) && P[d] in Tops(ChainUnder(F, k[..d])) {
      NodePathLinkedAt(F, k, d);
    }
  }

  /** `NodePathLinked` at one depth. */
  lemma {:induction false} NodePathLinkedAt(F: seq<Tree>, k: seq<char>, d: nat)
    requires d < |NodePath(F, k)|
    ensures Resolves(F, k[..d]) && NodePath(F, k)[d] in Tops(ChainUnder(F, k[..d]))
  {
    var L: seq<seq<Tree>> := Levels(F, k);
    var p := k[..d];
    var q := k[..d + 1];
    assert NodePath(F, k)[d] == L[d][0].id;
    LevelsTake(F, k, d + 1);
    assert Levels(F, q)[d] == L[d];
    if d > 0 {
      LevelsTake(F, k, d);
    }
    assert Resolves(F, p);
    assert q == p + [k[d]];
    LevelsSnoc(F, p, k[d]);
    var C := ChainUnder(F, p);
    var j := FindEq(C, k[d]);
    assert j < |C| && Levels(F, q) == Levels(F, p) + [C[j..]];
    assert L[d] == C[j..];
    assert C[j].id in Tops(C);
  }

  /** A chain of one new leaf. */
  lemma {:induction false} LeafChain(nodes: seq<NodeRec>, n: nat, c: char)
    requires n < |nodes| && nodes[n] == NodeRec(c, UNDEFINED, Null, Null)
    ensures Rep(nodes, [Leaf(n, c)]) && Good([Leaf(n, c)]) && Ids([Leaf(n, c)]) == {n}
    ensures InsertedAt([], [Leaf(n, c)], 0, c)
  {
    IdsSingle(Leaf(n, c));
    IdsEmpty();
    assert RepAt(nodes, [Leaf(n, c)], 0);
  }

  /**
   * Replacing the chain below `p` keeps the trie well-formed when the arena
   * changed only in the chain's nodes, in new nodes, and in the parent's
   * `child` link, which now starts the new chain.
   */
  lemma {:induction false} ReplaceWf(nodes: seq<NodeRec>, nodes': seq<NodeRec>, root: nat, F: seq<Tree>,
                                     p: seq<char>, C': seq<Tree>)
    requires Wf(nodes, root, F) && Resolves(F, p)
    requires Rep(nodes', C') && Good(C') && |nodes| <= |nodes'|
    requires forall x | x in Ids(C') :: x in Ids(ChainUnder(F, p)) || |nodes| <= x
    requires var q := ParentOf(F, root, p);
      q < |nodes| && nodes'[q] == nodes[q].(child := LinkAt(C', 0))
      && forall x | 0 <= x < |nodes| && x !in Tops(ChainUnder(F, p)) && x != q :: nodes'[x] == nodes[x]
    ensures Wf(nodes', root, ReplaceUnder(F, p, C'))
  {
    var C := ChainUnder(F, p);
    var G := ReplaceUnder(F, p, C');
    var q := ParentOf(F, root, p);
    ParentLinks(nodes, root, F, p);
    ReplaceRep(nodes, nodes', root, F, p, C');
    ReplaceGood(nodes, root, F, p, C');
    if p != [] {
      UnderIds(F, p);
      TopsIds(C);
      assert root != q && root !in Tops(C);
      assert nodes'[root] == nodes[root];
      assert G[0].id == F[0].id;
    }
  }

  /** The goodness half of `ReplaceWf`: new ids are fresh, so the root stays outside the forest. */
  lemma {:induction false} ReplaceGood(nodes: seq<NodeRec>, root: nat, F: seq<Tree>, p: seq<char>, C': seq<Tree>)
    requires Wf(nodes, root, F) && Resolves(F, p) && Good(C')
    requires forall x | x in Ids(C') :: x in Ids(ChainUnder(F, p)) || |nodes| <= x
    ensures Good(ReplaceUnder(F, p, C')) && root !in Ids(ReplaceUnder(F, p, C'))
  {
    var C := ChainUnder(F, p);
    RepIds(nodes, F);
    UnderIds(F, p);
    assert Ids(C') !! (Ids(F) - Ids(C));
    GoodReplace(F, p, C');
  }

  /** The representation half of `ReplaceWf`. */
  lemma {:induction false} ReplaceRep(nodes: seq<NodeRec>, nodes': seq<NodeRec>, root: nat, F: seq<Tree>,
                                      p: seq<char>, C': seq<Tree>)
    requires Wf(nodes, root, F) && Resolves(F, p)
    requires Rep(nodes', C') && |nodes| <= |nodes'|
    requires var q := ParentOf(F, root, p);
      q < |nodes| && nodes'[q] == nodes[q].(child := LinkAt(C', 0))
      && forall x | 0 <= x < |nodes| && x !in Tops(ChainUnder(F, p)) && x != q :: nodes'[x] == nodes[x]
    ensures Rep(nodes', ReplaceUnder(F, p, C'))
  {
    var q := ParentOf(F, root, p);
    UnderRep(nodes, F, p);
    assert ParentIds(F, p) == if p == [] then {} else {q};
    RepReplace(nodes, nodes', F, p, C');
  }

  /**
   * One step of `intGetNodePathCreate`: the chain below `p` is replaced by
   * `C'`, which is either the old chain or the old chain with a value-less
   * leaf for `c` inserted. Then `p + [c]` resolves to `p`'s path followed by
   * the node for `c`, and no key changes its value.
   */
  lemma {:induction false} StepReplace(F: seq<Tree>, p: seq<char>, c: char, C': seq<Tree>, j: nat)
    requires Resolves(F, p) && Good(ChainUnder(F, p)) && Good(C')
    requires j == FindEq(C', c) && j < |C'|
    requires var C := ChainUnder(F, p);
      C' == C || (InsertedAt(C, C', j, c) && forall m | 0 <= m < |C| :: !IsKeyEq(C[m].key, c))
    ensures var G := ReplaceUnder(F, p, C');
      Resolves(G, p + [c])
      && NodePath(G, p + [c]) == NodePath(F, p) + [C'[j].id]
      && forall k :: Get(G, k) == Get(F, k)
  {
    var C := ChainUnder(F, p);
    var G := ReplaceUnder(F, p, C');
    ReplaceUnderSame(F, p, C');
    NodePathSnoc(G, p, c);
    if C' == C {
      ReplaceUnderId(F, p);
    } else {
      GetInserted(C, C', j, c);
      GetReplace(F, p, C');
    }
  }

  /**
   * The keys that resolve after the step of `StepReplace`: those that
   * resolved before, and the keys comparing equal to `p + [c]`.
   */
  lemma {:induction false} ResolvesStep(F: seq<Tree>, p: seq<char>, c: char, C': seq<Tree>, j: nat)
    requires Resolves(F, p) && Sorted(ChainUnder(F, p)) && Sorted(C')
    requires j == FindEq(C', c) && j < |C'|
    requires var C := ChainUnder(F, p);
      C' == C || (InsertedAt(C, C', j, c) && forall m | 0 <= m < |C| :: !IsKeyEq(C[m].key, c))
    ensures forall k | k != [] :: Resolves(ReplaceUnder(F, p, C'), k) <==> Resolves(F, k) || KeyEq(k, p + [c])
  {
    forall k | k != []
      ensures Resolves(ReplaceUnder(F, p, C'), k) <==> Resolves(F, k) || KeyEq(k, p + [c])
    {
      ResolvesStepAt(F, p, c, C', j, k);
    }
  }

  /** `ResolvesStep` for one key, in terms of `Find`. */
  lemma {:induction false} ResolvesStepAt(F: seq<Tree>, p: seq<char>, c: char, C': seq<Tree>, j: nat, k: seq<char>)
    requires Resolves(F, p) && Sorted(ChainUnder(F, p)) && Sorted(C')
    requires j == FindEq(C', c) && j < |C'|
    requires var C := ChainUnder(F, p);
      C' == C || (InsertedAt(C, C', j, c) && forall m | 0 <= m < |C| :: !IsKeyEq(C[m].key, c))
    ensures Find(ReplaceUnder(F, p, C'), k).Some? <==> Find(F, k).Some? || KeyEq(k, p + [c])
  {
    var C := ChainUnder(F, p);
    ReplaceUnderId(F, p);
    FindReplace(F, p, C', k);
    FindReplace(F, p, C, k);
    if KeyEq(k, p + [c]) {
      assert (p + [c])[..|p|] == p;
      KeyEqInit(k, p + [c], p);
    }
    if |k| > |p| && KeyEq(k[..|p|], p) {
      var s := k[|p|..];
      if |k| == |p| + 1 {
        KeyEqSnoc(k, p, c);
        assert s[0] == k[|p|];
      }
      if C' == C {
        if |s| == 1 && IsKeyEq(s[0], c) {
          FindPresent(C, c, s);
        }
      } else {
        FindInsertedAt(C, C', j, c, s);
      }
    }
  }

  /**
   * The keys resolving in `F'` are those resolving in `F` and the keys
   * comparing equal to one of the first `n` non-empty prefixes of `key`.
   */
  ghost predicate PrefixesAdded(F: seq<Tree>, F': seq<Tree>, key: seq<char>, n: nat)
  {
    n <= |key|
    && forall k {:trigger Resolves(F', k)} | k != [] :: Resolves(F', k) <==> Resolves(F, k) || (|k| <= n && KeyEq(k, key[..|k|]))
  }

  /** Adding the keys equal to the next prefix of `key`, `key[..n + 1]`. */
  lemma {:induction false} PrefixesAddedStep(F: seq<Tree>, F1: seq<Tree>, F2: seq<Tree>, key: seq<char>, n: nat)
    requires n < |key| && PrefixesAdded(F, F1, key, n)
    requires forall k | k != [] :: Resolves(F2, k) <==> Resolves(F1, k) || KeyEq(k, key[..n] + [key[n]])
    ensures PrefixesAdded(F, F2, key, n + 1)
  {
    assert key[..n] + [key[n]] == key[..n + 1];
    forall k | k != []
      ensures Resolves(F2, k) <==> Resolves(F, k) || (|k| <= n + 1 && KeyEq(k, key[..|k|]))
    {
      if |k| == n + 1 { assert key[..|k|] == key[..n + 1]; }
    }
  }

  /** A one-character key equal to a character the chain holds finds that character's node. */
  lemma {:induction false} FindPresent(C: seq<Tree>, c: char, s: seq<char>)
    requires FindEq(C, c) < |C| && |s| == 1 && IsKeyEq(s[0], c)
    ensures Find(C, s) == Some(C[FindEq(C, c)].val)
  {
    FindCons(C, s);
    FindEqCongruent(C, s[0], c);
  }

  /** Setting the value of the `j`-th node of a represented, good chain. */
  lemma {:induction false} SetChainValue(nodes: seq<NodeRec>, C: seq<Tree>, j: nat, v: int)
    requires Rep(nodes, C) && Good(C) && j < |C|
    ensures C[j].id < |nodes|
    ensures var n := C[j].id;
      var nodes' := nodes[n := nodes[n].(value := v)];
      var C' := C[j := C[j].(val := v)];
      Rep(nodes', C') && Good(C') && Ids(C') == Ids(C) && n in Tops(C)
  {
    var t := C[j];
    var C' := C[j := t.(val := v)];
    assert RepAt(nodes, C, j);
    var n := t.id;
    var nodes' := nodes[n := nodes[n].(value := v)];
    assert Sub(t) <= Ids(C) && n in Sub(t);
    RepIds(nodes, C);
    RepFrame(nodes, nodes', t.kids);
    RepUpdateOne(nodes, nodes', C, j, t.(val := v), {n});
    GoodUpdateOne(C, j, t.(val := v));
    IdsUpdate(C, j, t.(val := v));
    assert n in Tops(C);
  }

  /**
   * Setting the value of the node a non-empty key reaches keeps the trie
   * well-formed and the key's path unchanged; only that node's record changes.
   */
  lemma {:induction false} SetValueWf(nodes: seq<NodeRec>, root: nat, F: seq<Tree>, key: seq<char>, v: int)
    requires Wf(nodes, root, F) && key != [] && Resolves(F, key)
    ensures NodeAt(F, key).Some? && NodeAt(F, key).value.id < |nodes|
    ensures var n := NodeAt(F, key).value.id;
      Wf(nodes[n := nodes[n].(value := v)], root, SetValue(F, key, v))
      && Resolves(SetValue(F, key, v), key) && NodePath(SetValue(F, key, v), key) == NodePath(F, key)
  {
    var p := key[..|key| - 1];
    var c := key[|key| - 1];
    assert key == p + [c];
    LevelsSnoc(F, p, c);
    NodePathSnoc(F, p, c);
    var C := ChainUnder(F, p);
    var j := FindEq(C, c);
    var C' := C[j := C[j].(val := v)];
    ParentLinks(nodes, root, F, p);
    SetChainValue(nodes, C, j, v);
    var n := C[j].id;
    ReplaceWf(nodes, nodes[n := nodes[n].(value := v)], root, F, p, C');
    ReplaceUnderSame(F, p, C');
    FindEqKeys(C, C', c);
    NodePathSnoc(SetValue(F, key, v), p, c);
  }

  /** The entries of a chain without its `j`-th one. */
  lemma {:induction false} WithoutAt(C: seq<Tree>, j: nat)
    requires j < |C|
    ensures |Without(C, j)| == |C| - 1
    ensures forall m | 0 <= m < |C| - 1 :: Without(C, j)[m] == C[if m < j then m else m + 1]
  {
  }

  /** A sorted chain without one entry is sorted. */
  lemma {:induction false} SortedWithout(C: seq<Tree>, j: nat)
    requires Sorted(C) && j < |C|
    ensures Sorted(Without(C, j))
  {
    var W := Without(C, j);
    WithoutAt(C, j);
    forall a, b | 0 <= a < b < |W| ensures Less(W[a].key, W[b].key) {
      var a' := if a < j then a else a + 1;
      var b' := if b < j then b else b + 1;
      assert Less(C[a'].key, C[b'].key);
    }
  }

  /**
   * Dropping the `j`-th tree of a sorted chain drops exactly the keys that
   * start with a character equal to its key.
   */
  lemma {:induction false} GetWithout(C: seq<Tree>, j: nat, s: seq<char>)
    requires Sorted(C) && j < |C|
    ensures Get(Without(C, j), s) == if s != [] && IsKeyEq(s[0], C[j].key) then None else Get(C, s)
  {
    if s != [] {
      FindCons(Without(C, j), s);
      FindCons(C, s);
      FindWithout(C, j, s[0]);
    }
  }

  /** Searching the chain without `C[j]`: a character equal to `C[j]`'s key is not found, others where they were. */
  lemma {:induction false} FindWithout(C: seq<Tree>, j: nat, x: char)
    requires Sorted(C) && j < |C|
    ensures var W := Without(C, j); var i := FindEq(C, x);
      if IsKeyEq(x, C[j].key) || i == |C| then FindEq(W, x) == |W|
      else FindEq(W, x) < |W| && W[FindEq(W, x)] == C[i]
  {
    var W := Without(C, j);
    WithoutAt(C, j);
    var i := FindEq(C, x);
    if IsKeyEq(x, C[j].key) {
      forall m | 0 <= m < |W| ensures !IsKeyEq(W[m].key, x) {
        var m' := if m < j then m else m + 1;
        if m' < j { assert Less(C[m'].key, C[j].key); } else { assert Less(C[j].key, C[m'].key); }
      }
    } else if i < |C| {
      var m := if i < j then i else i - 1;
      SortedWithout(C, j);
      FindEqUnique(W, x, m);
    } else {
      forall m | 0 <= m < |W| ensures !IsKeyEq(W[m].key, x) {
        assert W[m] == C[if m < j then m else m + 1];
      }
    }
  }

  /** `removeKey`'s effect on the forest: the node a non-empty key reaches leaves its chain, with its subtree. */
  ghost function Removed(F: seq<Tree>, key: seq<char>): seq<Tree>
    requires key != [] && Resolves(F, key)
  {
    var p := key[..|key| - 1];
    assert key == p + [key[|key| - 1]];
    LevelsSnoc(F, p, key[|key| - 1]);
    var C := ChainUnder(F, p);
    ReplaceUnder(F, p, Without(C, FindEq(C, key[|key| - 1])))
  }

  /** Keys that start with `key` (under the comparator). */
  ghost predicate Extends(k: seq<char>, key: seq<char>)
  {
    |key| <= |k| && KeyEq(k[..|key|], key)
  }

  /** Removing a key drops every key extending it and keeps all others. */
  lemma {:induction false} RemovedGet(F: seq<Tree>, key: seq<char>)
    requires key != [] && Resolves(F, key) && Good(F)
    ensures forall k :: Get(Removed(F, key), k) == if Extends(k, key) then None else Get(F, k)
  {
    forall k ensures Get(Removed(F, key), k) == if Extends(k, key) then None else Get(F, k) {
      RemovedGetAt(F, key, k);
    }
  }

  /** One key of `RemovedGet`. */
  lemma {:induction false} RemovedGetAt(F: seq<Tree>, key: seq<char>, k: seq<char>)
    requires key != [] && Resolves(F, key) && Good(F)
    ensures Get(Removed(F, key), k) == if Extends(k, key) then None else Get(F, k)
  {
    var p := key[..|key| - 1];
    var c := key[|key| - 1];
    assert key == p + [c];
    LevelsSnoc(F, p, c);
    var C := ChainUnder(F, p);
    var j := FindEq(C, c);
    UnderGood(F, p);
    ReplaceUnderId(F, p);
    FindReplace(F, p, Without(C, j), k);
    FindReplace(F, p, C, k);
    ExtendsSnoc(k, p, c);
    if |k| > |p| && KeyEq(k[..|p|], p) {
      GetWithout(C, j, k[|p|..]);
      assert k[|p|..][0] == k[|p|];
    }
  }

  /** A key extends `p + [c]` exactly when it is longer than `p`, starts like `p` and continues like `c`. */
  lemma {:induction false} ExtendsSnoc(k: seq<char>, p: seq<char>, c: char)
    ensures Extends(k, p + [c]) <==> |k| > |p| && KeyEq(k[..|p|], p) && IsKeyEq(k[|p|], c)
  {
    var n := |p| + 1;
    if |k| >= n {
      KeyEqSnoc(k[..n], p, c);
      assert k[..n][..n - 1] == k[..|p|] && k[..n][n - 1] == k[n - 1];
    }
  }

  /** Keys compare equal to `p + [c]` exactly when their front compares equal to `p` and their last character to `c`. */
  lemma {:induction false} KeyEqSnoc(s: seq<char>, p: seq<char>, c: char)
    requires |s| == |p| + 1
    ensures KeyEq(s, p + [c]) <==> KeyEq(s[..|p|], p) && IsKeyEq(s[|p|], c)
  {
    if KeyEq(s[..|p|], p) && IsKeyEq(s[|p|], c) {
      forall m | 0 <= m < |s| ensures IsKeyEq(s[m], (p + [c])[m]) {
        if m < |p| { assert s[m] == s[..|p|][m]; }
      }
    }
    if KeyEq(s, p + [c]) {
      forall m | 0 <= m < |p| ensures IsKeyEq(s[..|p|][m], p[m]) {
        assert s[..|p|][m] == s[m] && p[m] == (p + [c])[m];
      }
      assert IsKeyEq(s[|p|], (p + [c])[|p|]);
    }
  }

  /** The chain below a resolving prefix of a good forest is good. */
  lemma {:induction false} UnderGood(F: seq<Tree>, p: seq<char>)
    requires Good(F) && Resolves(F, p)
    ensures Good(ChainUnder(F, p))
    decreases p
  {
    if p != [] {
      Descend(F, p);
      var i := FindEq(F, p[0]);
      if |p| > 1 {
        UnderGood(F[i].kids, p[1..]);
      }
    }
  }

  /**
   * Unsplicing the node a non-empty key reaches from its chain keeps the
   * trie well-formed.
   */
  lemma {:induction false} RemovedWf(nodes: seq<NodeRec>, root: nat, F: seq<Tree>, key: seq<char>)
    requires Wf(nodes, root, F) && key != [] && Resolves(F, key)
    ensures Resolves(F, key[..|key| - 1])
    ensures var p := key[..|key| - 1];
      var C := ChainUnder(F, p);
      var j := FindEq(C, key[|key| - 1]);
      var q := ParentOf(F, root, p);
      j < |C| && q < |nodes| && C[j].id < |nodes| && (j > 0 ==> C[j - 1].id < |nodes|)
      && Wf(UnspliceNodes(nodes, q, C, j), root, Removed(F, key))
  {
    var p := key[..|key| - 1];
    var c := key[|key| - 1];
    assert key == p + [c];
    LevelsSnoc(F, p, c);
    var C := ChainUnder(F, p);
    var j := FindEq(C, c);
    var q := ParentOf(F, root, p);
    ParentLinks(nodes, root, F, p);
    UnspliceFrame(nodes, q, C, j);
    UnspliceRep(nodes, q, C, j);
    UnspliceGood(C, j);
    ReplaceWf(nodes, UnspliceNodes(nodes, q, C, j), root, F, p, Without(C, j));
  }

  /** The node a non-empty resolving key reaches and its parent, read off the key's path. */
  lemma {:induction false} RemovalSite(nodes: seq<NodeRec>, root: nat, F: seq<Tree>, key: seq<char>)
    requires Wf(nodes, root, F) && key != [] && Resolves(F, key)
    ensures Resolves(F, key[..|key| - 1])
    ensures var p := key[..|key| - 1];
      var C := ChainUnder(F, p);
      var j := FindEq(C, key[|key| - 1]);
      var P := NodePath(F, key);
      |P| == |key| && j < |C| && P[|P| - 1] == C[j].id
      && (if |P| >= 2 then P[|P| - 2] else root) == ParentOf(F, root, p)
  {
    var p := key[..|key| - 1];
    var c := key[|key| - 1];
    assert key == p + [c];
    LevelsSnoc(F, p, c);
    NodePathSnoc(F, p, c);
    if p != [] {
      NodePathLast(F, p);
    }
  }
}

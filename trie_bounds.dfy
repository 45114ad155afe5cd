/**
 * Cursors placed in a trie's forest: the stacks `find`, `lower_bound` and
 * `begin` build, the greater-or-equal path behind `lower_bound`, and what
 * these positions mean in terms of keys.
 */
module TrieBounds {
  import opened Wrappers
  import opened CharOrder
  import opened TrieForest
  import opened TrieCursor

  /** `T` is a suffix of the chain `F`. */
  predicate SuffixOf(T: seq<Tree>, F: seq<Tree>)
  {
    |T| <= |F| && T == F[|F| - |T|..]
  }

  /**
   * The stack hangs in the forest `F`: its first level is a suffix of the
   * top-level chain, and each later level a suffix of the children of the
   * node above it.
   */
  ghost predicate Under(F: seq<Tree>, S: seq<seq<Tree>>)
  {
    (S != [] ==> SuffixOf(S[0], F)) && forall l | 0 < l < |S| :: Hangs(S, l)
  }

  /** Level `l` of the stack is a suffix of the children of the node of level `l - 1`. */
  ghost predicate Hangs(S: seq<seq<Tree>>, l: nat)
    requires 0 < l < |S|
  {
    S[l - 1] != [] && SuffixOf(S[l], S[l - 1][0].kids)
  }

  /** Every level's chain is represented by the arena and is good. */
  ghost predicate Fits(nodes: seq<NodeRec>, S: seq<seq<Tree>>)
  {
    forall l | 0 <= l < |S| :: Rep(nodes, S[l]) && Good(S[l])
  }

  /** A move keeps the stack hanging in the forest. */
  lemma {:induction false} StepUnder(F: seq<Tree>, c: Cursor)
    requires Shaped(c) && c.S != [] && Under(F, c.S)
    ensures Under(F, Step(c).S)
  {
    var d := |c.S| - 1;
    var T := c.S[d];
    var r := Step(c);
    if c.down && T[0].kids != [] {
      forall l | 0 < l < |r.S| ensures Hangs(r.S, l) {
        if l < |c.S| {
          assert Hangs(c.S, l);
        } else {
          assert r.S[l] == T[0].kids[|T[0].kids| - |r.S[l]|..];
        }
      }
    } else if |T| > 1 {
      assert T[1..] == T[|T| - |T[1..]|..];
      forall l | 0 < l < |r.S| ensures Hangs(r.S, l) {
        assert Hangs(c.S, l);
      }
    } else {
      forall l | 0 < l < |r.S| ensures Hangs(r.S, l) {
        assert Hangs(c.S, l);
      }
    }
  }

  /** A chain suffix of a represented chain is represented. */
  lemma {:induction false} RepSuffix(nodes: seq<NodeRec>, F: seq<Tree>, m: nat)
    requires Rep(nodes, F) && m <= |F|
    ensures Rep(nodes, F[m..])
  {
    forall a | 0 <= a < |F| - m ensures RepAt(nodes, F[m..], a) {
      assert RepAt(nodes, F, a + m);
      assert F[m..][a] == F[a + m];
      assert LinkAt(F[m..], a + 1) == LinkAt(F, a + m + 1);
    }
  }

  /** A chain suffix of a good chain is good. */
  lemma {:induction false} GoodSuffix(F: seq<Tree>, m: nat)
    requires Good(F) && m <= |F|
    ensures Good(F[m..])
  {
    var T := F[m..];
    forall a, b | 0 <= a < b < |T| ensures Less(T[a].key, T[b].key) {
      assert Less(F[a + m].key, F[b + m].key);
    }
    forall a, b | 0 <= a < b < |T| ensures Sub(T[a]) !! Sub(T[b]) {
      assert Sub(F[a + m]) !! Sub(F[b + m]);
    }
    forall a | 0 <= a < |T| ensures T[a].id !in Ids(T[a].kids) && Good(T[a].kids) {
      assert T[a] == F[a + m];
    }
  }

  /** A move keeps every level represented and good. */
  lemma {:induction false} StepFits(nodes: seq<NodeRec>, c: Cursor)
    requires Shaped(c) && c.S != [] && Fits(nodes, c.S)
    ensures Fits(nodes, Step(c).S)
  {
    var d := |c.S| - 1;
    var T := c.S[d];
    if c.down && T[0].kids != [] {
      assert RepAt(nodes, T, 0);
    } else if |T| > 1 {
      RepSuffix(nodes, T, 1);
      GoodSuffix(T, 1);
    }
  }

  /** The node a represented stack points at holds the key, value and links of its tree. */
  lemma {:induction false} TopNode(nodes: seq<NodeRec>, c: Cursor)
    requires Shaped(c) && c.S != [] && Fits(nodes, c.S)
    ensures Top(c).id < |nodes|
    ensures nodes[Top(c).id] == NodeRec(Top(c).key, Top(c).val, LinkAt(c.S[|c.S| - 1], 1), LinkAt(Top(c).kids, 0))
  {
    assert RepAt(nodes, c.S[|c.S| - 1], 0);
  }

  /** A stack hanging in a represented good forest has every level represented and good. */
  lemma {:induction false} UnderFits(nodes: seq<NodeRec>, F: seq<Tree>, S: seq<seq<Tree>>)
    requires Rep(nodes, F) && Good(F) && Under(F, S)
    ensures Fits(nodes, S)
    decreases |S|
  {
    if S != [] {
      var m := |F| - |S[0]|;
      RepSuffix(nodes, F, m);
      GoodSuffix(F, m);
      if |S| > 1 {
        assert Hangs(S, 1);
        assert S[0][0] == F[m];
        assert RepAt(nodes, F, m);
        var S' := S[1..];
        assert Under(F[m].kids, S') by {
          forall l | 0 < l < |S'| ensures Hangs(S', l) {
            assert Hangs(S, l + 1);
          }
        }
        UnderFits(nodes, F[m].kids, S');
        forall l | 0 <= l < |S| ensures Rep(nodes, S[l]) && Good(S[l]) {
          if l > 0 { assert S[l] == S'[l - 1]; }
        }
      }
    }
  }

  /**
   * A stack hanging in a good forest is the resolution of its own key: the
   * key `getString` rebuilds leads back, level by level, to the same nodes.
   */
  lemma {:induction false} UnderLevels(F: seq<Tree>, c: Cursor)
    requires Good(F) && Shaped(c) && c.S != [] && Under(F, c.S)
    ensures Levels(F, Key(c)) == c.S
    decreases |c.S|
  {
    var S := c.S;
    var k := Key(c);
    var m := |F| - |S[0]|;
    assert S[0] == F[m..];
    assert k[0] == F[m].key;
    FindEqUnique(F, k[0], m);
    if |S| > 1 {
      var c' := Cursor(S[1..], c.down);
      assert Key(c') == k[1..];
      assert Hangs(S, 1);
      assert Under(F[m].kids, c'.S) by {
        forall l | 0 < l < |c'.S| ensures Hangs(c'.S, l) {
          assert Hangs(S, l + 1);
        }
      }
      UnderLevels(F[m].kids, c');
      assert S == [F[m..]] + Levels(F[m].kids, k[1..]);
    } else {
      assert k[1..] == [];
    }
  }

  /** The node a stack hanging in a good forest points at is the node its key reaches. */
  lemma {:induction false} UnderNode(F: seq<Tree>, c: Cursor)
    requires Good(F) && Shaped(c) && c.S != [] && Under(F, c.S)
    ensures NodeAt(F, Key(c)) == Some(Top(c))
  {
    UnderLevels(F, c);
  }

  /** Conversely, the resolution of a key hangs in the forest. */
  lemma {:induction false} LevelsUnder(F: seq<Tree>, k: seq<char>)
    requires Levels(F, k) != []
    ensures Under(F, Levels(F, k))
    decreases k
  {
    var i := FindEq(F, k[0]);
    var rest := Levels(F[i].kids, k[1..]);
    var L: seq<seq<Tree>> := Levels(F, k);
    assert L == [F[i..]] + rest;
    if rest != [] {
      LevelsUnder(F[i].kids, k[1..]);
      forall l | 0 < l < |L| ensures Hangs(L, l) {
        assert L[l] == rest[l - 1];
        if l > 1 { assert Hangs(rest, l - 1); }
      }
    }
  }

  /**
   * The levels `Trie::intGetNodePathGreatEq` walks for `k`: at each level the
   * first node not less than the key's character; the walk stops after a
   * node that is greater, and the whole path is cleared when a level has no
   * such node or a node equal to the character has no children although the
   * key goes on.
   */
  function GeLevels(F: seq<Tree>, k: seq<char>): (L: seq<seq<Tree>>)
    ensures L == [] || 1 <= |L| <= |k|
    ensures forall d | 0 <= d < |L| :: L[d] != []
    decreases k
  {
    if k == [] then []
    else
      var i := FindGe(F, k[0]);
      if i == |F| then []
      else if !IsKeyEq(k[0], F[i].key) || |k| == 1 then [F[i..]]
      else
        var rest := GeLevels(F[i].kids, k[1..]);
        if rest == [] then [] else [F[i..]] + rest
  }

  /**
   * The greater-or-equal path seen from position `i` of the key, once the
   * prefix `k[..i]` has resolved exactly: that prefix's levels followed by
   * the greater-or-equal path of the rest below it, cleared when the rest
   * is.
   */
  ghost function GeFrom(F: seq<Tree>, k: seq<char>, i: nat): seq<seq<Tree>>
    requires i <= |k| && Resolves(F, k[..i])
  {
    if i == |k| then Levels(F, k)
    else
      var G := GeLevels(ChainUnder(F, k[..i]), k[i..]);
      if G == [] then [] else Levels(F, k[..i]) + G
  }

  /** Before any character has been read, `GeFrom` is the whole greater-or-equal path. */
  lemma {:induction false} GeFromStart(F: seq<Tree>, k: seq<char>)
    ensures Resolves(F, k[..0]) && GeFrom(F, k, 0) == GeLevels(F, k)
  {
    assert k[..0] == [] && k[0..] == k;
  }

  /**
   * One round of `Trie::intGetNodePathGreatEq` at position `i`: no node not
   * less than `k[i]` clears the path; a greater one ends it; an equal one
   * resolves one character further without changing `GeFrom`.
   */
  lemma {:induction false} GeStep(F: seq<Tree>, k: seq<char>, i: nat)
    requires i < |k| && Resolves(F, k[..i]) && Sorted(ChainUnder(F, k[..i]))
    ensures var C := ChainUnder(F, k[..i]); var j := FindGe(C, k[i]);
      && (j == |C| ==> GeFrom(F, k, i) == [])
      && (j < |C| && !IsKeyEq(k[i], C[j].key) ==> GeFrom(F, k, i) == Levels(F, k[..i]) + [C[j..]])
      && (j < |C| && IsKeyEq(k[i], C[j].key) ==>
            FindEq(C, k[i]) == j && Resolves(F, k[..i + 1])
            && Levels(F, k[..i + 1]) == Levels(F, k[..i]) + [C[j..]]
            && GeFrom(F, k, i + 1) == GeFrom(F, k, i))
  {
    var C := ChainUnder(F, k[..i]);
    var j := FindGe(C, k[i]);
    if j < |C| && IsKeyEq(k[i], C[j].key) {
      GeStepEqual(F, k, i);
    } else {
      assert k[i..][0] == k[i];
    }
  }

  /** The case of `GeStep` where the node found compares equal to the key's character. */
  lemma {:induction false} GeStepEqual(F: seq<Tree>, k: seq<char>, i: nat)
    requires i < |k| && Resolves(F, k[..i]) && Sorted(ChainUnder(F, k[..i]))
    requires var C := ChainUnder(F, k[..i]); var j := FindGe(C, k[i]);
      j < |C| && IsKeyEq(k[i], C[j].key)
    ensures var C := ChainUnder(F, k[..i]); var j := FindGe(C, k[i]);
      FindEq(C, k[i]) == j && Resolves(F, k[..i + 1])
      && Levels(F, k[..i + 1]) == Levels(F, k[..i]) + [C[j..]]
      && GeFrom(F, k, i + 1) == GeFrom(F, k, i)
  {
    assert k[..i + 1] == k[..i] + [k[i]];
    ExactStep(F, k[..i], k[i]);
    if i + 1 < |k| {
      GeStepInner(F, k, i);
    } else {
      assert k[..i + 1] == k;
      assert k[i..] == [k[i]];
    }
  }

  /** `GeStepEqual` with more of the key to come: the rest's path moves below the equal node. */
  lemma {:induction false} GeStepInner(F: seq<Tree>, k: seq<char>, i: nat)
    requires i + 1 < |k| && Resolves(F, k[..i]) && Resolves(F, k[..i + 1])
    requires var C := ChainUnder(F, k[..i]); var j := FindGe(C, k[i]);
      j < |C| && IsKeyEq(k[i], C[j].key)
      && Levels(F, k[..i + 1]) == Levels(F, k[..i]) + [C[j..]]
      && ChainUnder(F, k[..i + 1]) == C[j].kids
    ensures GeFrom(F, k, i + 1) == GeFrom(F, k, i)
  {
    var r := k[i..];
    assert r[0] == k[i] && r[1..] == k[i + 1..];
    var C := ChainUnder(F, k[..i]);
    var j := FindGe(C, k[i]);
    var rest := GeLevels(C[j].kids, k[i + 1..]);
    var L := Levels(F, k[..i]);
    assert GeLevels(C, r) == if rest == [] then [] else [C[j..]] + rest;
    if rest != [] {
      assert L + ([C[j..]] + rest) == (L + [C[j..]]) + rest;
    }
  }

  /** Resolving one character further in a sorted chain where a node equal to it is the first not less. */
  lemma {:induction false} ExactStep(F: seq<Tree>, p: seq<char>, c: char)
    requires Resolves(F, p) && Sorted(ChainUnder(F, p))
    requires var C := ChainUnder(F, p); var j := FindGe(C, c); j < |C| && IsKeyEq(c, C[j].key)
    ensures var C := ChainUnder(F, p); var j := FindGe(C, c);
      FindEq(C, c) == j && Resolves(F, p + [c])
      && Levels(F, p + [c]) == Levels(F, p) + [C[j..]]
      && ChainUnder(F, p + [c]) == C[j].kids
  {
    var C := ChainUnder(F, p);
    var j := FindGe(C, c);
    SortedFind(C, c);
    LevelsSnoc(F, p, c);
    var L := Levels(F, p) + [C[j..]];
    assert L[|p|] == C[j..];
  }

  /** The greater-or-equal path hangs in the forest. */
  lemma {:induction false} GeLevelsUnder(F: seq<Tree>, k: seq<char>)
    requires GeLevels(F, k) != []
    ensures Under(F, GeLevels(F, k))
    decreases k
  {
    var i := FindGe(F, k[0]);
    var L: seq<seq<Tree>> := GeLevels(F, k);
    if IsKeyEq(k[0], F[i].key) && |k| > 1 {
      var rest := GeLevels(F[i].kids, k[1..]);
      assert L == [F[i..]] + rest;
      GeLevelsUnder(F[i].kids, k[1..]);
      forall l | 0 < l < |L| ensures Hangs(L, l) {
        assert L[l] == rest[l - 1];
        if l > 1 { assert Hangs(rest, l - 1); }
      }
    }
  }

  /** The key of a non-empty greater-or-equal path is not less than `k`: it equals `k` or is greater. */
  lemma {:induction false} GeLevelsKey(F: seq<Tree>, k: seq<char>)
    requires GeLevels(F, k) != []
    ensures var K := Key(Cursor(GeLevels(F, k), true)); KeyEq(K, k) || KeyLess(k, K)
    decreases k
  {
    var i := FindGe(F, k[0]);
    var L: seq<seq<Tree>> := GeLevels(F, k);
    var K := Key(Cursor(L, true));
    assert K[0] == F[i].key;
    if !IsKeyEq(k[0], F[i].key) {
      assert Less(k[0], K[0]);
    } else if |k| == 1 {
      assert KeyEq(K, k);
    } else {
      var rest := GeLevels(F[i].kids, k[1..]);
      assert L == [F[i..]] + rest;
      GeLevelsKey(F[i].kids, k[1..]);
      assert K[1..] == Key(Cursor(rest, true));
      if KeyEq(K[1..], k[1..]) {
        KeyEqCons(K, k);
      }
    }
  }

  /** A stack hanging in a good forest has every level good. */
  lemma {:induction false} LevelsGood(F: seq<Tree>, S: seq<seq<Tree>>)
    requires Good(F) && Under(F, S)
    ensures forall l | 0 <= l < |S| :: Good(S[l])
    decreases |S|
  {
    if S != [] {
      var m := |F| - |S[0]|;
      GoodSuffix(F, m);
      if |S| > 1 {
        assert Hangs(S, 1);
        assert S[0][0] == F[m];
        var S' := S[1..];
        assert Under(F[m].kids, S') by {
          forall l | 0 < l < |S'| ensures Hangs(S', l) {
            assert Hangs(S, l + 1);
          }
        }
        LevelsGood(F[m].kids, S');
        forall l | 0 <= l < |S| ensures Good(S[l]) {
          if l > 0 { assert S[l] == S'[l - 1]; }
        }
      }
    }
  }

  /** The end iterator: an empty stack. */
  function End(): Cursor
  {
    Cursor([], false)
  }

  /**
   * `Trie::intGetLowerBound` as written: an iterator on the greater-or-equal
   * path, advanced once with `operator++` when the path's last node holds no
   * value. It stops on a node with a value or at the end, and the empty key
   * gives the end.
   */
  function LowerBoundAt(F: seq<Tree>, k: seq<char>): (r: Cursor)
    ensures Shaped(r) && (r.S == [] || HaveValue(Top(r).val))
    ensures k == [] ==> r == End()
  {
    var L := GeLevels(F, k);
    if L == [] then End()
    else
      var c := Cursor(L, true);
      if HaveValue(Top(c).val) then c else Advance(c)
  }

  /** `lower_bound` with the pre-order walk in place of `operator++` as written. */
  function LowerBoundFixed(F: seq<Tree>, k: seq<char>): (r: Cursor)
    ensures Shaped(r) && (r.S == [] || HaveValue(Top(r).val))
    ensures k == [] ==> r == End()
  {
    var L := GeLevels(F, k);
    if L == [] then End()
    else
      var c := Cursor(L, true);
      if HaveValue(Top(c).val) then c else AdvanceFixed(c)
  }

  /**
   * `lower_bound` as written can land below its key: over "a" (value 1) and
   * "ab" (no value), `lower_bound("ab")` pops out of "ab" back onto "a".
   */
  lemma {:induction false} LowerBoundBelowKey()
    ensures var F := [Tree(1, 'a', 1, [Tree(2, 'b', UNDEFINED, [])])];
      var r := LowerBoundAt(F, "ab");
      r.S != [] && Key(r) == "a" && KeyLess(Key(r), "ab")
  {
    var b := Tree(2, 'b', UNDEFINED, []);
    var F := [Tree(1, 'a', 1, [b])];
    assert FindGe(F, 'a') == 0;
    assert FindGe([b], 'b') == 0;
    assert GeLevels([b], "b") == [[b]];
    assert GeLevels(F, "ab") == [F, [b]];
    var c := Cursor([F, [b]], true);
    assert Step(c) == Cursor([F], false);
    assert Advance(c) == Cursor([F], false);
    assert Key(Cursor([F], false)) == "a";
    PrefixLess("a", "b");
  }

  /** With the pre-order walk, `lower_bound` never lands below its key. */
  lemma {:induction false} LowerBoundFixedAbove(F: seq<Tree>, k: seq<char>)
    requires Good(F)
    ensures var r := LowerBoundFixed(F, k); r.S != [] ==> KeyEq(Key(r), k) || KeyLess(k, Key(r))
  {
    var L := GeLevels(F, k);
    if L != [] {
      var c := Cursor(L, true);
      GeLevelsUnder(F, k);
      LevelsGood(F, L);
      GeLevelsKey(F, k);
      if !HaveValue(Top(c).val) {
        var r := AdvanceFixed(c);
        AdvanceFixedAscends(c);
        if r.S != [] {
          if KeyEq(Key(c), k) {
            assert KeyEq(k, Key(c));
            KeyEqLess(k, Key(c), Key(r));
          } else {
            KeyLessTransitive(k, Key(c), Key(r));
          }
        }
      }
    }
  }

  /**
   * The greater-or-equal path gives up too early: over "a" and "b" (values
   * 1 and 2), the path for "ab" is cleared because "a" has no children, so
   * `lower_bound("ab")` is the end although "b" is greater than "ab".
   */
  lemma {:induction false} LowerBoundMissesGreater()
    ensures var F := [Tree(1, 'a', 1, []), Tree(2, 'b', 2, [])];
      LowerBoundAt(F, "ab") == End() && LowerBoundFixed(F, "ab") == End()
      && Get(F, "b") == Some(2) && KeyLess("ab", "b")
  {
    var F := [Tree(1, 'a', 1, []), Tree(2, 'b', 2, [])];
    assert FindGe(F, 'a') == 0;
    assert GeLevels(F[0].kids, "b") == [];
    assert GeLevels(F, "ab") == [];
    assert FindEq(F, 'b') == 1 by {
      assert !IsKeyEq(F[0].key, 'b');
    }
    assert Levels(F[1].kids, []) == [];
    assert Levels(F, "b") == [F[1..]];
  }

  /**
   * `Trie::begin` as written: an iterator on the first top-level node,
   * advanced once with `operator++`; the end when the trie is empty.
   */
  function BeginAt(F: seq<Tree>): (r: Cursor)
    ensures Shaped(r) && (r.S == [] || HaveValue(Top(r).val))
  {
    if F == [] then End() else Advance(Cursor([F], true))
  }

  /** `begin`, corrected: the first node of the pre-order walk that holds a value. */
  function BeginFixed(F: seq<Tree>): (r: Cursor)
    ensures Shaped(r) && (r.S == [] || HaveValue(Top(r).val))
  {
    if F == [] then End()
    else
      var c := Cursor([F], true);
      if HaveValue(F[0].val) then c else AdvanceFixed(c)
  }

  /**
   * `begin` as written never stops on the first top-level node before its
   * children: over the single key "a" (value 1) it is already the end.
   */
  lemma {:induction false} BeginSkipsFirst()
    ensures var F := [Tree(1, 'a', 1, [])];
      BeginAt(F) == End() && Get(F, "a") == Some(1)
  {
    var F := [Tree(1, 'a', 1, [])];
    assert Step(Cursor([F], true)) == End();
    assert FindEq(F, 'a') == 0;
    assert Levels(F[0].kids, []) == [];
    assert Levels(F, "a") == [F];
  }
}

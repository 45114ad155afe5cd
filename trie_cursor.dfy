/**
 * The traversal behind the trie iterator (`base_interator`), as values.
 *
 * The iterator keeps a stack of levels, each a node and a descend flag; only
 * the last level's flag can be set. A `Cursor` describes such a stack by the
 * chain suffix each level stands in (the level's node heads it, the siblings
 * still to come follow it) and the last level's flag. `operator++` repeats a
 * single move, `Step`, in a do-while loop; `Advance` is that loop as the
 * source writes it and `AdvanceFixed` the corrected pre-order walk.
 */
module TrieCursor {
  import opened CharOrder
  import opened TrieForest

  /** A stack of levels: the chain suffix each level stands in, and the last level's descend flag. */
  datatype Cursor = Cursor(S: seq<seq<Tree>>, down: bool)

  /** Every level names a node: no chain suffix of the stack is empty. */
  predicate Shaped(c: Cursor)
  {
    forall l | 0 <= l < |c.S| :: c.S[l] != []
  }

  /** The tree of the node the iterator points at. */
  function Top(c: Cursor): Tree
    requires Shaped(c) && c.S != []
  {
    c.S[|c.S| - 1][0]
  }

  /** The key characters of the nodes on the stack: what `getString` rebuilds. */
  function Key(c: Cursor): (k: seq<char>)
    requires Shaped(c)
    ensures |k| == |c.S|
  {
    seq(|c.S|, l requires 0 <= l < |c.S| => c.S[l][0].key)
  }

  /**
   * One pass of the inner loop of `operator++`: push the first child when the
   * last level may descend and its node has children; otherwise replace the
   * last level by its node's next sibling; otherwise pop the last level.
   */
  function Step(c: Cursor): (r: Cursor)
    requires Shaped(c) && c.S != []
    ensures Shaped(r)
    ensures |r.S| == |c.S| + 1 || |r.S| == |c.S| || |r.S| == |c.S| - 1
    ensures r.down <==> |r.S| >= |c.S|
  {
    var d := |c.S| - 1;
    var t := c.S[d][0];
    if c.down && t.kids != [] then Cursor(c.S + [t.kids], true)
    else if |c.S[d]| > 1 then Cursor(c.S[..d] + [c.S[d][1..]], true)
    else Cursor(c.S[..d], false)
  }

  /** The number of nodes of a forest. */
  function Size(F: seq<Tree>): nat
    decreases F
  {
    if F == [] then 0 else 1 + Size(F[0].kids) + Size(F[1..])
  }

  /** The trees of a forest, at every depth. */
  function Nodes(F: seq<Tree>): set<Tree>
    decreases F
  {
    if F == [] then {} else {F[0]} + Nodes(F[0].kids) + Nodes(F[1..])
  }

  /** The number of nodes in the siblings still to come, at every level. */
  function Pending(S: seq<seq<Tree>>): nat
    requires forall l | 0 <= l < |S| :: S[l] != []
  {
    if S == [] then 0 else Pending(S[..|S| - 1]) + Size(S[|S| - 1][1..])
  }

  /** The trees in the siblings still to come, at every level. */
  function Ahead(S: seq<seq<Tree>>): set<Tree>
    requires forall l | 0 <= l < |S| :: S[l] != []
  {
    if S == [] then {} else Ahead(S[..|S| - 1]) + Nodes(S[|S| - 1][1..])
  }

  /** The trees the walk has still to reach: the siblings to come and, if it may descend, the node's subtree. */
  function Rem(c: Cursor): set<Tree>
    requires Shaped(c)
  {
    Ahead(c.S) + if c.down && c.S != [] then Nodes(Top(c).kids) else {}
  }

  /** What is left of the walk: twice the nodes still to reach, plus the depth of the stack. */
  function Work(c: Cursor): nat
    requires Shaped(c)
  {
    2 * (Pending(c.S) + if c.down && c.S != [] then Size(Top(c).kids) else 0) + |c.S|
  }

  /** Every move makes progress: the work left strictly drops. */
  lemma {:induction false} StepWork(c: Cursor)
    requires Shaped(c) && c.S != []
    ensures Work(Step(c)) < Work(c)
  {
    var d := |c.S| - 1;
    var t := c.S[d][0];
    var r := Step(c);
    assert c.S[d] == [t] + c.S[d][1..];
    if c.down && t.kids != [] {
      assert r.S[..|r.S| - 1] == c.S;
      assert Size(t.kids) == 1 + Size(t.kids[0].kids) + Size(t.kids[1..]);
    } else if |c.S[d]| > 1 {
      var T := c.S[d][1..];
      assert r.S[..d] == c.S[..d] && c.S[..d] == c.S[..|c.S| - 1];
      assert Size(T) == 1 + Size(T[0].kids) + Size(T[1..]);
    } else {
      assert r.S == c.S[..|c.S| - 1];
      assert c.S[d][1..] == [];
    }
  }

  /**
   * A move forgets nothing: what was still to reach is still to reach, or
   * is the node the move arrived at (a push or a sibling move; a pop
   * arrives at a node already visited).
   */
  lemma {:induction false} StepRem(c: Cursor)
    requires Shaped(c) && c.S != []
    ensures Step(c).down ==> Step(c).S != [] && Rem(c) == Rem(Step(c)) + {Top(Step(c))}
    ensures !Step(c).down ==> Rem(c) == Rem(Step(c))
  {
    var d := |c.S| - 1;
    var t := c.S[d][0];
    var r := Step(c);
    if c.down && t.kids != [] {
      assert r.S[..|r.S| - 1] == c.S;
      assert Nodes(t.kids) == {t.kids[0]} + Nodes(t.kids[0].kids) + Nodes(t.kids[1..]);
    } else if |c.S[d]| > 1 {
      var T := c.S[d][1..];
      assert r.S[..d] == c.S[..d] && c.S[..d] == c.S[..|c.S| - 1];
      assert Nodes(T) == {T[0]} + Nodes(T[0].kids) + Nodes(T[1..]);
    } else {
      assert r.S == c.S[..|c.S| - 1];
      assert c.S[d][1..] == [];
    }
  }

  /**
   * `operator++` as written: move until the stack is empty or its last node
   * holds a value. It always moves at least once.
   */
  function Advance(c: Cursor): (r: Cursor)
    requires Shaped(c) && c.S != []
    ensures Shaped(r) && (r.S == [] || HaveValue(Top(r).val))
    ensures Work(r) < Work(c)
    decreases Work(c)
  {
    var c' := Step(c);
    StepWork(c);
    if c'.S == [] || HaveValue(Top(c').val) then c' else Advance(c')
  }

  /**
   * The pre-order walk `operator++` is meant to perform: like `Advance`, but
   * a pop never stops the walk, since the node popped back to was visited
   * before its children.
   */
  function AdvanceFixed(c: Cursor): (r: Cursor)
    requires Shaped(c) && c.S != []
    ensures Shaped(r) && (r.S == [] || (r.down && HaveValue(Top(r).val)))
    ensures Work(r) < Work(c)
    decreases Work(c)
  {
    var c' := Step(c);
    StepWork(c);
    if c'.S == [] || (c'.down && HaveValue(Top(c').val)) then c' else AdvanceFixed(c')
  }

  /**
   * `Advance` skips no value: every tree it leaves behind without stopping
   * there holds none, and it reaches no tree outside what was left to reach
   * except by popping back.
   */
  lemma {:induction false} AdvanceSkips(c: Cursor)
    requires Shaped(c) && c.S != []
    ensures var r := Advance(c);
      Rem(r) <= Rem(c)
      && forall t | t in Rem(c) && t !in Rem(r) && (r.S == [] || t != Top(r)) :: !HaveValue(t.val)
    decreases Work(c)
  {
    var c' := Step(c);
    StepWork(c);
    StepRem(c);
    if !(c'.S == [] || HaveValue(Top(c').val)) {
      AdvanceSkips(c');
    }
  }

  /** `AdvanceFixed` skips no value either, and only moves forward through what was left to reach. */
  lemma {:induction false} AdvanceFixedSkips(c: Cursor)
    requires Shaped(c) && c.S != []
    ensures var r := AdvanceFixed(c);
      Rem(r) <= Rem(c) && (r.S != [] ==> Top(r) in Rem(c))
      && forall t | t in Rem(c) && t !in Rem(r) && (r.S == [] || t != Top(r)) :: !HaveValue(t.val)
    decreases Work(c)
  {
    var c' := Step(c);
    StepWork(c);
    StepRem(c);
    if !(c'.S == [] || (c'.down && HaveValue(Top(c').val))) {
      AdvanceFixedSkips(c');
    }
  }

  /** Every level stands in a good chain suffix, so each level's siblings come in ascending order. */
  ghost predicate Ordered(c: Cursor)
  {
    Shaped(c) && forall l | 0 <= l < |c.S| :: Good(c.S[l])
  }

  /** A good chain without its head is good. */
  lemma {:induction false} GoodTail(F: seq<Tree>)
    requires Good(F) && F != []
    ensures Good(F[1..])
  {
    var T := F[1..];
    forall a, b | 0 <= a < b < |T| ensures Less(T[a].key, T[b].key) {
      assert Less(F[a + 1].key, F[b + 1].key);
    }
    forall a, b | 0 <= a < b < |T| ensures Sub(T[a]) !! Sub(T[b]) {
      assert Sub(F[a + 1]) !! Sub(F[b + 1]);
    }
    forall a | 0 <= a < |T| ensures T[a].id !in Ids(T[a].kids) && Good(T[a].kids) {
      assert T[a] == F[a + 1];
    }
  }

  /** A move keeps every level's chain good. */
  lemma {:induction false} StepOrdered(c: Cursor)
    requires Ordered(c) && c.S != []
    ensures Ordered(Step(c))
  {
    var d := |c.S| - 1;
    if !(c.down && c.S[d][0].kids != []) && |c.S[d]| > 1 {
      GoodTail(c.S[d]);
    }
  }

  /** The key after a move: one character longer, the last character replaced by the next sibling's, or one shorter. */
  lemma {:induction false} StepKey(c: Cursor)
    requires Shaped(c) && c.S != []
    ensures var d := |c.S| - 1;
      var t := c.S[d][0];
      var k := Key(Step(c));
      if c.down && t.kids != [] then k == Key(c) + [t.kids[0].key]
      else if |c.S[d]| > 1 then k == Key(c)[..d] + [c.S[d][1].key]
      else k == Key(c)[..d]
  {
  }

  /** `k` lies in the subtree below `K`: it extends `K` by at least one character. */
  predicate Below(K: seq<char>, k: seq<char>)
  {
    |K| < |k| && k[..|K|] == K
  }

  /** `k` is past `K`: at the first position where they differ, `k` has the greater character. */
  predicate Past(K: seq<char>, k: seq<char>)
  {
    exists i | 0 <= i < |K| && i < |k| :: k[..i] == K[..i] && Less(K[i], k[i])
  }

  /** `k` is a prefix of `K` (possibly `K` itself). */
  predicate Back(K: seq<char>, k: seq<char>)
  {
    |k| <= |K| && k == K[..|k|]
  }

  /**
   * Where a walk that started on the key `K` can be after one or more moves:
   * below `K`, past `K`, or popped back onto a prefix of `K` with no descent
   * pending.
   */
  ghost predicate Beyond(K: seq<char>, c: Cursor)
    requires Shaped(c)
  {
    Below(K, Key(c)) || Past(K, Key(c)) || (Back(K, Key(c)) && !c.down)
  }

  /** The first move of a walk leaves its starting key behind. */
  lemma {:induction false} StepBeyondStart(c: Cursor)
    requires Ordered(c) && c.S != []
    ensures Beyond(Key(c), Step(c))
  {
    var d := |c.S| - 1;
    var K := Key(c);
    var k := Key(Step(c));
    StepKey(c);
    if c.down && c.S[d][0].kids != [] {
      assert k[..|K|] == K;
    } else if |c.S[d]| > 1 {
      assert Less(c.S[d][0].key, c.S[d][1].key);
      assert k[..d] == K[..d] && Less(K[d], k[d]);
    }
  }

  /** Pushing a character keeps a key below or past `K`. */
  lemma {:induction false} PushBeyond(K: seq<char>, k: seq<char>, x: char)
    requires Below(K, k) || Past(K, k)
    ensures Below(K, k + [x]) || Past(K, k + [x])
  {
    var k' := k + [x];
    if Below(K, k) {
      assert k'[..|K|] == K;
    } else {
      var i :| 0 <= i < |K| && i < |k| && k[..i] == K[..i] && Less(K[i], k[i]);
      assert k'[..i] == K[..i] && k'[i] == k[i];
    }
  }

  /** Replacing the last character by a greater one keeps a key below or past `K`, or takes it past `K` from a prefix of it. */
  lemma {:induction false} NextBeyond(K: seq<char>, k: seq<char>, y: char)
    requires k != [] && Less(k[|k| - 1], y)
    requires Below(K, k) || Past(K, k) || Back(K, k)
    ensures Below(K, k[..|k| - 1] + [y]) || Past(K, k[..|k| - 1] + [y])
  {
    var d := |k| - 1;
    var k' := k[..d] + [y];
    if Below(K, k) {
      assert k'[..|K|] == K;
    } else if Past(K, k) {
      var i :| 0 <= i < |K| && i < |k| && k[..i] == K[..i] && Less(K[i], k[i]);
      assert k'[..i] == K[..i];
      if i < d {
        assert k'[i] == k[i];
      } else {
        assert Less(K[i], k'[i]);
      }
    } else {
      assert k'[..d] == K[..d] && Less(K[d], k'[d]);
    }
  }

  /** Dropping the last character keeps a key below or past `K`, or leaves a prefix of `K`. */
  lemma {:induction false} PopBeyond(K: seq<char>, k: seq<char>)
    requires k != []
    requires Below(K, k) || Past(K, k) || Back(K, k)
    ensures var k' := k[..|k| - 1]; Below(K, k') || Past(K, k') || Back(K, k')
  {
    var d := |k| - 1;
    var k' := k[..d];
    if Below(K, k) {
      if d > |K| {
        assert k'[..|K|] == K;
      } else {
        assert k' == K;
      }
    } else if Past(K, k) {
      var i :| 0 <= i < |K| && i < |k| && k[..i] == K[..i] && Less(K[i], k[i]);
      if i < d {
        assert k'[..i] == K[..i] && k'[i] == k[i];
      } else {
        assert k' == K[..|k'|];
      }
    } else {
      assert k' == K[..|k'|];
    }
  }

  /** Later moves stay beyond the starting key. */
  lemma {:induction false} StepBeyond(K: seq<char>, c: Cursor)
    requires Ordered(c) && c.S != [] && Beyond(K, c)
    ensures Beyond(K, Step(c))
  {
    var d := |c.S| - 1;
    var k := Key(c);
    StepKey(c);
    if c.down && c.S[d][0].kids != [] {
      PushBeyond(K, k, c.S[d][0].kids[0].key);
    } else if |c.S[d]| > 1 {
      assert Less(c.S[d][0].key, c.S[d][1].key);
      NextBeyond(K, k, c.S[d][1].key);
    } else {
      PopBeyond(K, k);
    }
  }

  /** A key below `K` is greater than `K`. */
  lemma {:induction false} BelowLess(K: seq<char>, k: seq<char>)
    requires Below(K, k)
    ensures KeyLess(K, k)
  {
    assert k == K + k[|K|..];
    PrefixLess(K, k[|K|..]);
  }

  /** A key past `K` is greater than `K`. */
  lemma {:induction false} PastLess(K: seq<char>, k: seq<char>)
    requires Past(K, k)
    ensures KeyLess(K, k)
  {
    var i :| 0 <= i < |K| && i < |k| && k[..i] == K[..i] && Less(K[i], k[i]);
    assert K == K[..i] + [K[i]] + K[i + 1..];
    assert k == K[..i] + [k[i]] + k[i + 1..];
    DivergeLess(K[..i], K[i], k[i], K[i + 1..], k[i + 1..]);
  }

  /** A position beyond `K` from which the walk may descend has a key greater than `K`. */
  lemma {:induction false} BeyondLess(K: seq<char>, c: Cursor)
    requires Shaped(c) && Beyond(K, c) && c.down
    ensures KeyLess(K, Key(c))
  {
    if Below(K, Key(c)) {
      BelowLess(K, Key(c));
    } else {
      PastLess(K, Key(c));
    }
  }

  /** `AdvanceFixed` from a position beyond `K` ends beyond `K`, in a good stack. */
  lemma {:induction false} AdvanceFixedBeyond(K: seq<char>, c: Cursor)
    requires Ordered(c) && c.S != [] && Beyond(K, c)
    ensures Ordered(AdvanceFixed(c))
    ensures AdvanceFixed(c).S != [] ==> Beyond(K, AdvanceFixed(c))
    decreases Work(c)
  {
    var c' := Step(c);
    StepWork(c);
    StepOrdered(c);
    StepBeyond(K, c);
    if !(c'.S == [] || (c'.down && HaveValue(Top(c').val))) {
      AdvanceFixedBeyond(K, c');
    }
  }

  /** The pre-order walk yields strictly ascending keys. */
  lemma {:induction false} AdvanceFixedAscends(c: Cursor)
    requires Ordered(c) && c.S != []
    ensures Ordered(AdvanceFixed(c))
    ensures AdvanceFixed(c).S != [] ==> KeyLess(Key(c), Key(AdvanceFixed(c)))
  {
    var c' := Step(c);
    StepOrdered(c);
    StepBeyondStart(c);
    var r := AdvanceFixed(c);
    if !(c'.S == [] || (c'.down && HaveValue(Top(c').val))) {
      AdvanceFixedBeyond(Key(c), c');
    }
    if r.S != [] {
      BeyondLess(Key(c), r);
    }
  }

  /**
   * `Advance` is not ascending: over the keys "a" (value 1) and "ab" (value
   * 2), an iterator on "a" moves to "ab" and then back to "a", because the
   * pop out of "ab" lands on "a", which holds a value.
   */
  lemma {:induction false} AdvanceRevisits()
    ensures var F := [Tree(1, 'a', 1, [Tree(2, 'b', 2, [])])];
      var r1 := Advance(Cursor([F], true));
      var r2 := Advance(r1);
      r1.S != [] && r2.S != [] && Key(r1) == "ab" && Key(r2) == "a" && Top(r2) == F[0]
      && KeyLess(Key(r2), Key(r1))
  {
    var b := Tree(2, 'b', 2, []);
    var F := [Tree(1, 'a', 1, [b])];
    var c0 := Cursor([F], true);
    var r1 := Cursor([F, [b]], true);
    assert Step(c0) == r1;
    assert Advance(c0) == r1;
    assert Step(r1) == Cursor([F], false);
    assert Advance(r1) == Cursor([F], false);
    assert Key(r1) == "ab";
    assert Key(Cursor([F], false)) == "a";
    PrefixLess("a", "b");
  }
}

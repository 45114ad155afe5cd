/**
 * The valued keys of a trie in ascending order: the first of them, which
 * the corrected `begin` reaches, and the least one not below a given key,
 * which is what `lower_bound` promises.
 *
 * `intGetNodePathGreatEq` clears its path when a level has no node not less
 * than the key's character, and `lower_bound` then gives the end although a
 * greater key may follow (`TrieBounds.LowerBoundMissesGreater`). The search
 * below keeps the same descent but, at such a dead end, goes on with the
 * next sibling of the node it descended through, as the pre-order walk
 * would.
 */
module TrieOrder {
  import opened Wrappers
  import opened CharOrder
  import opened TrieForest
  import opened TrieCursor
  import opened TrieBounds

  /** The key a stack spells, as `getString` rebuilds it. */
  function StackKey(S: seq<seq<Tree>>): seq<char>
    requires forall l | 0 <= l < |S| :: S[l] != []
  {
    Key(Cursor(S, true))
  }

  /**
   * The stack of the first node holding a value in the pre-order walk of
   * the forest: a node before its children, its children before its next
   * sibling. Empty when no node holds a value.
   */
  function FirstValued(F: seq<Tree>): (S: seq<seq<Tree>>)
    ensures forall l | 0 <= l < |S| :: S[l] != []
    ensures S != [] ==> HaveValue(S[|S| - 1][0].val)
    decreases F
  {
    if F == [] then []
    else if HaveValue(F[0].val) then [F]
    else
      var inner := FirstValued(F[0].kids);
      if inner != [] then [F] + inner else FirstValued(F[1..])
  }

  /**
   * The stack of the least key holding a value that is not less than `k`:
   * descend while the key's characters are matched exactly; from the first
   * node greater than the key's character (or matching its last one) take
   * the first valued node in walk order; when the subtree of a matched node
   * holds nothing not less than the rest of the key, go on with that node's
   * next siblings.
   */
  function LeastGe(F: seq<Tree>, k: seq<char>): (S: seq<seq<Tree>>)
    ensures forall l | 0 <= l < |S| :: S[l] != []
    ensures S != [] ==> HaveValue(S[|S| - 1][0].val)
    decreases k
  {
    if k == [] then FirstValued(F)
    else
      var i := FindGe(F, k[0]);
      if i == |F| then []
      else if !IsKeyEq(k[0], F[i].key) || |k| == 1 then FirstValued(F[i..])
      else
        var inner := LeastGe(F[i].kids, k[1..]);
        if inner != [] then [F[i..]] + inner else FirstValued(F[i + 1..])
  }

  /**
   * `lower_bound` as its documentation promises it: an iterator on the least
   * key holding a value that is greater than or equal to `k`, or the end
   * when there is none.
   */
  function LowerBoundGe(F: seq<Tree>, k: seq<char>): (r: Cursor)
    ensures Shaped(r) && (r.S == [] || HaveValue(Top(r).val))
  {
    var S := LeastGe(F, k);
    if S == [] then End() else Cursor(S, true)
  }

  /** Looking a non-empty key up through its first character, in terms of the key-value map. */
  lemma {:induction false} GetCons(F: seq<Tree>, K: seq<char>)
    requires K != []
    ensures var e := FindEq(F, K[0]);
      Get(F, K) ==
        if e == |F| then None
        else if |K| == 1 then (if HaveValue(F[e].val) then Some(F[e].val) else None)
        else Get(F[e].kids, K[1..])
  {
    FindCons(F, K);
  }

  /**
   * In a sorted chain, a key whose first character is not matched before
   * position `m` is looked up in the chain from `m` on, and a key holding a
   * value there is not matched before `m`.
   */
  lemma {:induction false} GetDrop(F: seq<Tree>, m: nat, K: seq<char>)
    requires Sorted(F) && m <= |F| && K != []
    ensures Get(F[m..], K).Some? ==> FindEq(F, K[0]) >= m
    ensures FindEq(F, K[0]) >= m ==> Get(F, K) == Get(F[m..], K)
  {
    var e := FindEq(F, K[0]);
    var e' := FindEq(F[m..], K[0]);
    GetCons(F, K);
    GetCons(F[m..], K);
    if e < m {
      forall j | 0 <= j < |F| - m ensures !IsKeyEq(F[m..][j].key, K[0]) {
        assert F[m..][j] == F[m + j];
        assert Less(F[e].key, F[m + j].key);
      }
    } else if e < |F| {
      assert F[m..][e - m] == F[e];
    }
  }

  /** A key matched in a sorted chain before the first node not less than `c` is less than any key starting with `c`. */
  lemma {:induction false} GetBefore(F: seq<Tree>, k: seq<char>, K: seq<char>)
    requires k != [] && K != [] && FindEq(F, K[0]) < FindGe(F, k[0])
    ensures KeyLess(K, k)
  {
    assert Less(F[FindEq(F, K[0])].key, k[0]);
  }

  /** A key above a single character whose first character is not below it is not less than it. */
  lemma {:induction false} NotBelowHead(K: seq<char>, a: char)
    requires K != [] && !Less(K[0], a)
    ensures !KeyLess(K, [a])
  {
    assert [a][1..] == [];
  }

  /** Keys with equal first characters compare as their tails do. */
  lemma {:induction false} KeyLessTail(s: seq<char>, t: seq<char>)
    requires s != [] && t != [] && IsKeyEq(s[0], t[0])
    ensures KeyLess(s, t) <==> KeyLess(s[1..], t[1..])
  {
  }

  /** The key of a stack with one more level on top of it. */
  lemma {:induction false} StackKeyCons(T: seq<Tree>, S: seq<seq<Tree>>)
    requires T != [] && forall l | 0 <= l < |S| :: S[l] != []
    ensures StackKey([T] + S) == [T[0].key] + StackKey(S)
  {
    var S' := [T] + S;
    forall l | 0 <= l < |S'| ensures S'[l] != [] {
      if l > 0 { assert S'[l] == S[l - 1]; }
    }
    var K := StackKey(S');
    assert K[1..] == StackKey(S) by {
      forall l | 0 <= l < |S| ensures K[1..][l] == S[l][0].key {
        assert S'[l + 1] == S[l];
      }
    }
  }

  /** A stack hanging in a chain suffix hangs in the whole chain. */
  lemma {:induction false} UnderDrop(F: seq<Tree>, m: nat, S: seq<seq<Tree>>)
    requires m <= |F| && Under(F[m..], S)
    ensures Under(F, S)
  {
    if S != [] {
      assert F[m..][|F[m..]| - |S[0]|..] == F[|F| - |S[0]|..];
    }
  }

  /** A stack hanging below the node heading a chain suffix hangs in the chain under that suffix. */
  lemma {:induction false} UnderPush(F: seq<Tree>, i: nat, S: seq<seq<Tree>>)
    requires i < |F| && Under(F[i].kids, S)
    ensures Under(F, [F[i..]] + S)
  {
    var S' := [F[i..]] + S;
    assert SuffixOf(S'[0], F);
    forall l | 0 < l < |S'| ensures Hangs(S', l) {
      assert S'[l] == S[l - 1];
      if l > 1 { assert Hangs(S, l - 1); }
    }
  }

  /** The first node of a stack hanging in a sorted chain from `i` on is not less than the chain's `i`-th node. */
  lemma {:induction false} UnderFirst(F: seq<Tree>, i: nat, S: seq<seq<Tree>>)
    requires Sorted(F) && i < |F| && S != [] && S[0] != [] && Under(F[i..], S)
    ensures S[0][0] == F[|F| - |S[0]|] && |F| - |S[0]| >= i
    ensures !Less(S[0][0].key, F[i].key)
    ensures |F| - |S[0]| > i ==> Less(F[i].key, S[0][0].key)
  {
    var j := |F| - |S[0]|;
    assert S[0] == F[i..][|F[i..]| - |S[0]|..];
    assert S[0][0] == F[j];
    if j > i {
      assert Less(F[i].key, F[j].key);
    }
  }

  /**
   * The first valued node in walk order holds the least key with a value:
   * there is none exactly when no key has a value, and otherwise no key
   * with a value is less than its key.
   */
  lemma {:induction false} FirstValuedLeast(F: seq<Tree>)
    requires Good(F)
    ensures var S := FirstValued(F);
      && (S == [] ==> forall K :: Get(F, K) == None)
      && (S != [] ==> Under(F, S) && forall K | Get(F, K).Some? :: !KeyLess(K, StackKey(S)))
    decreases F
  {
    var S := FirstValued(F);
    if F == [] {
      forall K ensures Get(F, K) == None {
        if K != [] { GetCons(F, K); }
      }
    } else if HaveValue(F[0].val) {
      assert F == F[|F| - |F|..];
      assert StackKey(S) == [F[0].key];
      forall K | Get(F, K).Some? ensures !KeyLess(K, StackKey(S)) {
        FirstValuedTop(F, K);
      }
    } else {
      var inner := FirstValued(F[0].kids);
      FirstValuedLeast(F[0].kids);
      if inner != [] {
        FirstValuedDown(F, inner);
      } else {
        GoodTail(F);
        FirstValuedLeast(F[1..]);
        forall K | Get(F, K).Some? ensures Get(F[1..], K).Some? && Get(F[1..], K) == Get(F, K) {
          FirstValuedNext(F, K);
        }
        if S != [] {
          UnderDrop(F, 1, S);
        }
      }
    }
  }

  /** A key with a value in a sorted chain is not less than the chain's first key. */
  lemma {:induction false} FirstValuedTop(F: seq<Tree>, K: seq<char>)
    requires Sorted(F) && F != [] && Get(F, K).Some?
    ensures !KeyLess(K, [F[0].key])
  {
    assert K != [];
    GetCons(F, K);
    var e := FindEq(F, K[0]);
    if e > 0 {
      assert Less(F[0].key, F[e].key);
    }
    NotBelowHead(K, F[0].key);
  }

  /** `FirstValuedLeast` when the first valued node lies below the value-less first node. */
  lemma {:induction false} FirstValuedDown(F: seq<Tree>, inner: seq<seq<Tree>>)
    requires Sorted(F) && F != [] && !HaveValue(F[0].val)
    requires inner != [] && forall l | 0 <= l < |inner| :: inner[l] != []
    requires Under(F[0].kids, inner) && forall K | Get(F[0].kids, K).Some? :: !KeyLess(K, StackKey(inner))
    ensures Under(F, [F] + inner)
    ensures forall K | Get(F, K).Some? :: !KeyLess(K, StackKey([F] + inner))
  {
    assert F[0..] == F;
    UnderPush(F, 0, inner);
    StackKeyCons(F, inner);
    forall K | Get(F, K).Some? ensures !KeyLess(K, [F[0].key] + StackKey(inner)) {
      FirstValuedDownKey(F, K, StackKey(inner));
    }
  }

  /** One key of `FirstValuedDown`: below the first node it compares by its tail, after it by its first character. */
  lemma {:induction false} FirstValuedDownKey(F: seq<Tree>, K: seq<char>, Ki: seq<char>)
    requires Sorted(F) && F != [] && !HaveValue(F[0].val) && Get(F, K).Some?
    requires forall K' | Get(F[0].kids, K').Some? :: !KeyLess(K', Ki)
    ensures !KeyLess(K, [F[0].key] + Ki)
  {
    var KS := [F[0].key] + Ki;
    assert KS[1..] == Ki;
    assert K != [];
    GetCons(F, K);
    var e := FindEq(F, K[0]);
    if e == 0 {
      assert Get(F[0].kids, K[1..]).Some?;
      KeyLessTail(K, KS);
    } else {
      assert Less(F[0].key, F[e].key);
    }
  }

  /** With nothing valued at or below the first node, a key with a value is found among the next siblings. */
  lemma {:induction false} FirstValuedNext(F: seq<Tree>, K: seq<char>)
    requires Good(F) && F != [] && !HaveValue(F[0].val)
    requires forall K' :: Get(F[0].kids, K') == None
    requires Get(F, K).Some?
    ensures Get(F[1..], K) == Get(F, K)
  {
    assert K != [];
    GetCons(F, K);
    GetDrop(F, 1, K);
  }

  /**
   * The corrected search finds the least key with a value not less than
   * `k`: when it finds nothing, every key with a value is less than `k`;
   * otherwise the stack hangs in the forest, its key is not less than `k`,
   * and no key with a value that is not less than `k` is less than it.
   */
  lemma {:induction false} LeastGeLeast(F: seq<Tree>, k: seq<char>)
    requires Good(F)
    ensures var S := LeastGe(F, k);
      && (S == [] ==> forall K | Get(F, K).Some? :: KeyLess(K, k))
      && (S != [] ==>
            Under(F, S) && !KeyLess(StackKey(S), k)
            && forall K | Get(F, K).Some? && !KeyLess(K, k) :: !KeyLess(K, StackKey(S)))
    decreases k, 1
  {
    if k == [] {
      FirstValuedLeast(F);
    } else {
      var i := FindGe(F, k[0]);
      if i == |F| {
        forall K | Get(F, K).Some? ensures KeyLess(K, k) {
          assert K != [];
          GetCons(F, K);
          GetBefore(F, k, K);
        }
      } else if !IsKeyEq(k[0], F[i].key) || |k| == 1 {
        LeastGeFrom(F, k, i);
      } else {
        LeastGeDown(F, k);
      }
    }
  }

  /** `LeastGeLeast` when the search takes the first valued node from position `i` of the chain on. */
  lemma {:induction false} LeastGeFrom(F: seq<Tree>, k: seq<char>, i: nat)
    requires Good(F) && k != [] && i == FindGe(F, k[0]) && i < |F|
    requires !IsKeyEq(k[0], F[i].key) || |k| == 1
    ensures var S := FirstValued(F[i..]);
      && (S == [] ==> forall K | Get(F, K).Some? :: KeyLess(K, k))
      && (S != [] ==>
            Under(F, S) && !KeyLess(StackKey(S), k)
            && forall K | Get(F, K).Some? && !KeyLess(K, k) :: !KeyLess(K, StackKey(S)))
  {
    var S := FirstValued(F[i..]);
    GoodSuffix(F, i);
    FirstValuedLeast(F[i..]);
    forall K | Get(F, K).Some? && !KeyLess(K, k) ensures Get(F[i..], K) == Get(F, K) {
      assert K != [];
      GetCons(F, K);
      if FindEq(F, K[0]) < i {
        GetBefore(F, k, K);
      }
      GetDrop(F, i, K);
    }
    if S != [] {
      UnderDrop(F, i, S);
      UnderFirst(F, i, S);
      var KS := StackKey(S);
      assert KS[0] == S[0][0].key;
      if |F| - |S[0]| > i || !IsKeyEq(k[0], F[i].key) {
        assert Less(k[0], KS[0]);
      } else {
        assert k == [k[0]];
        NotBelowHead(KS, k[0]);
      }
    }
  }

  /** `LeastGeLeast` when the key's first character is matched exactly and more of the key follows. */
  lemma {:induction false} LeastGeDown(F: seq<Tree>, k: seq<char>)
    requires Good(F) && |k| > 1
    requires var i := FindGe(F, k[0]); i < |F| && IsKeyEq(k[0], F[i].key)
    ensures var S := LeastGe(F, k);
      && (S == [] ==> forall K | Get(F, K).Some? :: KeyLess(K, k))
      && (S != [] ==>
            Under(F, S) && !KeyLess(StackKey(S), k)
            && forall K | Get(F, K).Some? && !KeyLess(K, k) :: !KeyLess(K, StackKey(S)))
    decreases k, 0
  {
    var i := FindGe(F, k[0]);
    var inner := LeastGe(F[i].kids, k[1..]);
    LeastGeLeast(F[i].kids, k[1..]);
    if inner != [] {
      LeastGeInside(F, k, i, inner);
    } else {
      LeastGePast(F, k, i);
    }
  }

  /**
   * Where a key with a value sits relative to the node `F[i]` that matched
   * the first character of `k` (with more of `k` to come): not less than `k`
   * means it either continues below `F[i]` or starts after it.
   */
  lemma {:induction false} MatchedSplit(F: seq<Tree>, k: seq<char>, i: nat, K: seq<char>)
    requires Good(F) && |k| > 1 && i == FindGe(F, k[0]) && i < |F| && IsKeyEq(k[0], F[i].key)
    requires Get(F, K).Some? && !KeyLess(K, k)
    ensures var e := FindEq(F, K[0]);
      && e >= i
      && (e == i ==> |K| > 1 && IsKeyEq(K[0], k[0]) && Get(F[i].kids, K[1..]).Some?
                     && !KeyLess(K[1..], k[1..]))
      && (e > i ==> Less(F[i].key, K[0]) && Get(F[i + 1..], K) == Get(F, K))
  {
    assert K != [];
    GetCons(F, K);
    var e := FindEq(F, K[0]);
    if e < i {
      GetBefore(F, k, K);
    } else if e == i {
      KeyLessTail(K, k);
    } else {
      assert Less(F[i].key, F[e].key);
      GetDrop(F, i + 1, K);
    }
  }

  /** `LeastGeDown` when the rest of the key finds a valued key below the matched node. */
  lemma {:induction false} LeastGeInside(F: seq<Tree>, k: seq<char>, i: nat, inner: seq<seq<Tree>>)
    requires Good(F) && |k| > 1 && i == FindGe(F, k[0]) && i < |F| && IsKeyEq(k[0], F[i].key)
    requires inner == LeastGe(F[i].kids, k[1..]) && inner != []
    requires Under(F[i].kids, inner) && !KeyLess(StackKey(inner), k[1..])
    requires forall K | Get(F[i].kids, K).Some? && !KeyLess(K, k[1..]) :: !KeyLess(K, StackKey(inner))
    ensures var S := [F[i..]] + inner;
      Under(F, S) && !KeyLess(StackKey(S), k)
      && forall K | Get(F, K).Some? && !KeyLess(K, k) :: !KeyLess(K, StackKey(S))
  {
    var S := [F[i..]] + inner;
    UnderPush(F, i, inner);
    StackKeyCons(F[i..], inner);
    var KS := StackKey(S);
    assert KS[0] == F[i].key && KS[1..] == StackKey(inner);
    KeyLessTail(KS, k);
    forall K | Get(F, K).Some? && !KeyLess(K, k) ensures !KeyLess(K, KS) {
      MatchedSplit(F, k, i, K);
      if FindEq(F, K[0]) == i {
        KeyLessTail(K, KS);
      }
    }
  }

  /** `LeastGeDown` when nothing below the matched node is valued and not less than the rest of the key. */
  lemma {:induction false} LeastGePast(F: seq<Tree>, k: seq<char>, i: nat)
    requires Good(F) && |k| > 1 && i == FindGe(F, k[0]) && i < |F| && IsKeyEq(k[0], F[i].key)
    requires forall K | Get(F[i].kids, K).Some? :: KeyLess(K, k[1..])
    ensures var S := FirstValued(F[i + 1..]);
      && (S == [] ==> forall K | Get(F, K).Some? :: KeyLess(K, k))
      && (S != [] ==>
            Under(F, S) && !KeyLess(StackKey(S), k)
            && forall K | Get(F, K).Some? && !KeyLess(K, k) :: !KeyLess(K, StackKey(S)))
  {
    var S := FirstValued(F[i + 1..]);
    GoodSuffix(F, i + 1);
    FirstValuedLeast(F[i + 1..]);
    forall K | Get(F, K).Some? && !KeyLess(K, k) ensures Get(F[i + 1..], K) == Get(F, K) {
      MatchedSplit(F, k, i, K);
    }
    if S != [] {
      UnderDrop(F, i + 1, S);
      PastAbove(F, k, i, S);
    }
  }

  /** A stack hanging among the siblings after the matched node `F[i]` has a key greater than `k`. */
  lemma {:induction false} PastAbove(F: seq<Tree>, k: seq<char>, i: nat, S: seq<seq<Tree>>)
    requires Sorted(F) && k != [] && i + 1 < |F| && IsKeyEq(k[0], F[i].key)
    requires S != [] && (forall l | 0 <= l < |S| :: S[l] != []) && Under(F[i + 1..], S)
    ensures !KeyLess(StackKey(S), k)
  {
    UnderFirst(F, i + 1, S);
    assert Less(F[i].key, F[i + 1].key);
    var KS := StackKey(S);
    assert KS[0] == S[0][0].key;
    assert Less(k[0], KS[0]);
  }

  /**
   * The corrected `lower_bound` keeps its documented promise: it is the end
   * exactly when every key with a value is less than `k`; otherwise it
   * stands on a node whose key holds that node's value, is not less than
   * `k`, and is the least such key.
   */
  lemma {:induction false} LowerBoundGeLeast(F: seq<Tree>, k: seq<char>)
    requires Good(F)
    ensures var r := LowerBoundGe(F, k);
      && (r.S == [] <==> forall K | Get(F, K).Some? :: KeyLess(K, k))
      && (r.S != [] ==>
            Get(F, Key(r)) == Some(Top(r).val) && !KeyLess(Key(r), k)
            && forall K | Get(F, K).Some? && !KeyLess(K, k) :: !KeyLess(K, Key(r)))
  {
    var r := LowerBoundGe(F, k);
    LeastGeLeast(F, k);
    if r.S != [] {
      UnderNode(F, r);
      assert Get(F, Key(r)) == Some(Top(r).val);
    }
  }

  /**
   * Where the greater-or-equal path gives up, the corrected search goes on:
   * over "a" and "b" (values 1 and 2), the search for "ab" finds nothing
   * below "a" and moves on to "b".
   */
  lemma {:induction false} LowerBoundGeFindsGreater()
    ensures var F := [Tree(1, 'a', 1, []), Tree(2, 'b', 2, [])];
      var r := LowerBoundGe(F, "ab");
      r.S != [] && Key(r) == "b" && Top(r).val == 2
  {
    var F := [Tree(1, 'a', 1, []), Tree(2, 'b', 2, [])];
    assert FindGe(F, 'a') == 0;
    assert LeastGe(F[0].kids, "b") == [];
    assert F[1..] == [F[1]];
    assert FirstValued(F[1..]) == [F[1..]];
    assert LeastGe(F, "ab") == [F[1..]];
  }

  /** Where the corrected walk goes on once the levels `P` and all below them are visited. */
  function Resume(P: seq<seq<Tree>>): Cursor
    requires forall l | 0 <= l < |P| :: P[l] != []
  {
    if P == [] then End() else AdvanceFixed(Cursor(P, false))
  }

  /**
   * The corrected walk from a node it may still descend from: it stops at
   * the first valued node below that node, else at the first valued node
   * among its later siblings, else goes on above.
   */
  lemma {:induction false} AdvanceFixedDown(P: seq<seq<Tree>>, T: seq<Tree>)
    requires T != [] && forall l | 0 <= l < |P| :: P[l] != []
    ensures AdvanceFixed(Cursor(P + [T], true)) ==
      var inner := FirstValued(T[0].kids);
      var next := FirstValued(T[1..]);
      if inner != [] then Cursor(P + [T] + inner, true)
      else if next != [] then Cursor(P + next, true)
      else Resume(P)
    decreases Work(Cursor(P + [T], true)), 4
  {
    if T[0].kids == [] {
      StepAt(P, T, true);
      StepAt(P, T, false);
      assert AdvanceFixed(Cursor(P + [T], true)) == AdvanceFixed(Cursor(P + [T], false));
      AdvanceFixedPassed(P, T);
    } else {
      AdvanceFixedKids(P, T);
      if FirstValued(T[0].kids) == [] {
        assert Work(Cursor(P + [T], false)) < Work(Cursor(P + [T], true));
        AdvanceFixedPassed(P, T);
      }
    }
  }

  /**
   * `AdvanceFixedDown` when the node has children: the walk stops at the
   * first valued node among them and below, else goes on past the node.
   */
  lemma {:induction false} AdvanceFixedKids(P: seq<seq<Tree>>, T: seq<Tree>)
    requires T != [] && T[0].kids != [] && forall l | 0 <= l < |P| :: P[l] != []
    ensures AdvanceFixed(Cursor(P + [T], true)) ==
      var inner := FirstValued(T[0].kids);
      if inner != [] then Cursor(P + [T] + inner, true) else Resume(P + [T])
    decreases Work(Cursor(P + [T], true)), 3
  {
    var c := Cursor(P + [T], true);
    var K := T[0].kids;
    var c' := Cursor(P + [T] + [K], true);
    StepAt(P, T, true);
    StepWork(c);
    if HaveValue(K[0].val) {
      assert FirstValued(K) == [K];
    } else {
      assert AdvanceFixed(c) == AdvanceFixed(c');
      AdvanceFixedDown(P + [T], K);
      var inner := FirstValued(K[0].kids);
      if inner != [] {
        assert FirstValued(K) == [K] + inner;
        assert P + [T] + [K] + inner == P + [T] + ([K] + inner);
      } else {
        assert FirstValued(K) == FirstValued(K[1..]);
      }
    }
  }

  /**
   * The corrected walk from a node whose subtree it has visited: it stops
   * at the first valued node among the node's later siblings, else goes on
   * above.
   */
  lemma {:induction false} AdvanceFixedPassed(P: seq<seq<Tree>>, T: seq<Tree>)
    requires T != [] && forall l | 0 <= l < |P| :: P[l] != []
    ensures AdvanceFixed(Cursor(P + [T], false)) ==
      var next := FirstValued(T[1..]);
      if next != [] then Cursor(P + next, true) else Resume(P)
    decreases Work(Cursor(P + [T], false)), 1
  {
    if |T| > 1 {
      AdvanceFixedSibling(P, T);
    } else {
      StepAt(P, T, false);
      assert T[1..] == [];
      assert AdvanceFixed(Cursor(P + [T], false)) == Resume(P);
    }
  }

  /** `AdvanceFixedPassed` when a sibling follows: the walk moves on to it. */
  lemma {:induction false} AdvanceFixedSibling(P: seq<seq<Tree>>, T: seq<Tree>)
    requires |T| > 1 && forall l | 0 <= l < |P| :: P[l] != []
    ensures AdvanceFixed(Cursor(P + [T], false)) ==
      var next := FirstValued(T[1..]);
      if next != [] then Cursor(P + next, true) else Resume(P)
    decreases Work(Cursor(P + [T], false)), 0
  {
    var c := Cursor(P + [T], false);
    var T' := T[1..];
    var c' := Cursor(P + [T'], true);
    StepAt(P, T, false);
    StepWork(c);
    if HaveValue(T'[0].val) {
      assert AdvanceFixed(c) == c';
      assert FirstValued(T') == [T'];
    } else {
      assert AdvanceFixed(c) == AdvanceFixed(c');
      AdvanceFixedDown(P, T');
      var inner := FirstValued(T'[0].kids);
      if inner != [] {
        assert FirstValued(T') == [T'] + inner;
        assert P + [T'] + inner == P + ([T'] + inner);
      } else {
        assert FirstValued(T') == FirstValued(T'[1..]);
      }
    }
  }

  /** One move of the walk from the last level `T` of a stack, in terms of the levels `P` below it. */
  lemma {:induction false} StepAt(P: seq<seq<Tree>>, T: seq<Tree>, down: bool)
    requires T != [] && forall l | 0 <= l < |P| :: P[l] != []
    ensures Step(Cursor(P + [T], down)) ==
      if down && T[0].kids != [] then Cursor(P + [T] + [T[0].kids], true)
      else if |T| > 1 then Cursor(P + [T[1..]], true)
      else Cursor(P, false)
  {
    assert (P + [T])[|P|] == T && (P + [T])[..|P|] == P;
  }

  /**
   * The corrected `begin` stands on the first valued node of the pre-order
   * walk, and is the end exactly when no node of the trie holds a value.
   */
  lemma {:induction false} BeginFixedComplete(F: seq<Tree>)
    ensures BeginFixed(F) == if FirstValued(F) == [] then End() else Cursor(FirstValued(F), true)
    ensures BeginFixed(F).S == [] <==> forall t | t in Nodes(F) :: !HaveValue(t.val)
    ensures BeginFixed(F).S != [] ==> Top(BeginFixed(F)) in Nodes(F)
  {
    BeginFixedFirst(F);
    if F != [] {
      var c := Cursor([F], true);
      assert Rem(c) == Nodes(F[1..]) + Nodes(F[0].kids) by {
        assert c.S[..|c.S| - 1] == [];
        assert Ahead(c.S) == Ahead([]) + Nodes(F[1..]);
      }
      assert Nodes(F) == {F[0]} + Nodes(F[0].kids) + Nodes(F[1..]);
      if !HaveValue(F[0].val) {
        AdvanceFixedSkips(c);
      }
    }
  }

  /** The corrected `begin` in terms of `FirstValued`. */
  lemma {:induction false} BeginFixedFirst(F: seq<Tree>)
    ensures BeginFixed(F) == if FirstValued(F) == [] then End() else Cursor(FirstValued(F), true)
  {
    if F != [] && !HaveValue(F[0].val) {
      assert [] + [F] == [F];
      AdvanceFixedDown([], F);
    }
  }

  /**
   * The corrected `begin` yields the least key with a value: it is the end
   * exactly when no key has a value, and otherwise stands on a node whose
   * key holds that node's value and is not greater than any key with a
   * value.
   */
  lemma {:induction false} BeginFixedLeast(F: seq<Tree>)
    requires Good(F)
    ensures var r := BeginFixed(F);
      && (r.S == [] <==> forall K :: Get(F, K) == None)
      && (r.S != [] ==>
            Get(F, Key(r)) == Some(Top(r).val)
            && forall K | Get(F, K).Some? :: !KeyLess(K, Key(r)))
  {
    var r := BeginFixed(F);
    BeginFixedComplete(F);
    FirstValuedLeast(F);
    if r.S != [] {
      UnderNode(F, r);
      assert Get(F, Key(r)) == Some(Top(r).val);
    }
  }
}

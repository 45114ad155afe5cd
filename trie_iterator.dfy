/**
 * The trie iterator, `base_interator`: a stack of levels over the node
 * arena and a cached key string. Each operation is proved against the
 * cursor it stands for (`TrieCursor`): the ghost `cur` describes the stack,
 * and `operator++` performs `Advance` on it.
 */
module TrieIterator {
  import opened Wrappers
  import opened CharOrder
  import opened TrieForest
  import opened TrieCursor
  import opened TrieBounds

  /** `TrieLevelInfo`: a node of the stack and whether `operator++` is to descend into its children. */
  datatype Level = Level(node: nat, toChild: bool)

  /** The stack a cursor stands for: each level on the head of its chain suffix, only the last one may descend. */
  function Stack(c: Cursor): (P: seq<Level>)
    requires Shaped(c)
    ensures |P| == |c.S|
    ensures forall l | 0 <= l < |P| - 1 :: !P[l].toChild
  {
    seq(|c.S|, l requires 0 <= l < |c.S| => Level(c.S[l][0].id, l == |c.S| - 1 && c.down))
  }

  class Iterator {
    /** The node arena the iterator walks (its nodes are not changed through it). */
    const nodes: seq<NodeRec>
    /** The trie's forest when the iterator was made. */
    ghost const forest: seq<Tree>
    /** `m_path`. */
    var path: seq<Level>
    /** `m_string`: the cached key, empty until `getString` rebuilds it. */
    var str: seq<char>
    /** The cursor the stack stands for. */
    ghost var cur: Cursor

    /** The stack is the one `cur` stands for, and `cur` hangs in the forest, level by level represented. */
    ghost predicate Inv()
      reads this
    {
      Good(forest) && Shaped(cur) && Under(forest, cur.S) && Fits(nodes, cur.S) && path == Stack(cur)
    }

    /** In addition, the cached key is empty or the key of the stack. */
    ghost predicate Valid()
      reads this
    {
      Inv() && (str == [] || str == Key(cur))
    }

    /** The default constructor: the end iterator, with an empty stack. */
    constructor End(nodes: seq<NodeRec>, ghost forest: seq<Tree>)
      requires Good(forest)
      ensures Valid() && this.nodes == nodes && this.forest == forest
      ensures cur == TrieBounds.End() && path == [] && str == []
    {
      this.nodes := nodes;
      this.forest := forest;
      path := [];
      str := [];
      cur := TrieBounds.End();
    }

    /**
     * `base_interator(const nodes_vector_type&)`: one level per node of the
     * path, none descending except the last; the end iterator for an empty
     * path.
     */
    constructor FromPath(nodes: seq<NodeRec>, ghost forest: seq<Tree>, P: seq<nat>, ghost S: seq<seq<Tree>>)
      requires Good(forest) && Under(forest, S) && Fits(nodes, S)
      requires |P| == |S| && forall l | 0 <= l < |S| :: S[l] != [] && P[l] == S[l][0].id
      ensures Valid() && this.nodes == nodes && this.forest == forest
      ensures cur == Cursor(S, S != []) && str == []
    {
      var p: seq<Level> := [];
      var i := 0;
      while i < |P|
        invariant 0 <= i <= |P| && |p| == i
        invariant forall l | 0 <= l < i :: p[l] == Level(P[l], false)
      {
        p := p + [Level(P[i], false)];
        i := i + 1;
      }
      if p != [] {
        p := p[|p| - 1 := Level(p[|p| - 1].node, true)];
      }
      this.nodes := nodes;
      this.forest := forest;
      path := p;
      str := [];
      cur := Cursor(S, S != []);
    }

    /**
     * One pass of the inner loop of `operator++` on the last level: descend
     * to the first child if the level may and there is one (the level may no
     * longer descend either way), else move to the next sibling, else pop.
     */
    method StepOnce()
      requires Inv() && path != []
      modifies this
      ensures Inv() && cur == Step(old(cur)) && str == old(str)
      ensures path != [] <==> cur.S != []
      ensures path != [] ==> path[|path| - 1].node < |nodes| && nodes[path[|path| - 1].node].value == Top(cur).val
    {
      var d := |path| - 1;
      var level := path[d];
      StackTop(nodes, cur);
      StackStep(cur);
      StepUnder(forest, cur);
      StepFits(nodes, cur);
      ghost var c' := Step(cur);
      if c'.S != [] {
        StackTop(nodes, c');
      }
      if level.toChild {
        path := path[d := Level(level.node, false)];
        var child := nodes[level.node].child;
        if child.Ptr? {
          path := path + [Level(child.id, true)];
          cur := c';
          return;
        }
      }
      var next := nodes[level.node].next;
      if next.Ptr? {
        path := path[..d] + [Level(next.id, true)];
      } else {
        path := path[..d];
      }
      cur := c';
    }

    /**
     * `operator++`: nothing on the end iterator; otherwise the passes of
     * `StepOnce` repeat until the stack is empty or its last node holds a
     * value, and the cached key is cleared.
     */
    method Next()
      requires Valid()
      modifies this
      ensures Valid()
      ensures old(path) == [] ==> path == [] && cur == old(cur) && str == old(str)
      ensures old(path) != [] ==> cur == Advance(old(cur)) && str == []
    {
      if path == [] {
        return;
      }
      ghost var c0 := cur;
      var clearStr := false;
      AdvanceStep(cur);
      StepOnce();
      clearStr := true;
      while path != [] && !HaveValue(nodes[path[|path| - 1].node].value)
        invariant Inv() && clearStr
        invariant path != [] <==> cur.S != []
        invariant path != [] ==> path[|path| - 1].node < |nodes| && nodes[path[|path| - 1].node].value == Top(cur).val
        invariant Advance(c0) == if cur.S == [] || HaveValue(Top(cur).val) then cur else Advance(cur)
        decreases Work(cur)
      {
        StepWork(cur);
        AdvanceStep(cur);
        StepOnce();
        clearStr := true;
      }
      if clearStr {
        str := [];
      }
    }

    /** The key characters of the stack's nodes, in order. */
    method Rebuild() returns (t: seq<char>)
      requires Inv()
      ensures t == Key(cur)
    {
      t := [];
      var i := 0;
      while i < |path|
        invariant 0 <= i <= |path| && t == Key(cur)[..i]
      {
        assert RepAt(nodes, cur.S[i], 0);
        t := t + [nodes[path[i].node].keyChar];
        i := i + 1;
      }
    }

    /**
     * `getString`: the key of the node the iterator is on, rebuilt from the
     * stack into the cache when the cache is empty. Looking that key up in
     * the trie reaches the same node.
     */
    method GetString() returns (s: seq<char>)
      requires Valid()
      modifies this
      ensures Valid() && path == old(path) && cur == old(cur)
      ensures s == Key(cur) && str == s
      ensures cur.S != [] ==> NodeAt(forest, s) == Some(Top(cur))
    {
      if str == [] && path != [] {
        str := Rebuild();
      }
      s := str;
      if cur.S != [] {
        UnderNode(forest, cur);
      }
    }

    /**
     * `operator==`: equal when both stacks are empty, or when they have the
     * same length and the same node on every level. Equal iterators over
     * the same arena rebuild the same key.
     */
    method Equals(other: Iterator) returns (r: bool)
      ensures r <==> |path| == |other.path| && forall l | 0 <= l < |path| :: path[l].node == other.path[l].node
      ensures r && Inv() && other.Inv() && other.nodes == nodes ==> Key(cur) == Key(other.cur)
    {
      if path == [] && other.path == [] {
        return true;
      }
      if |path| != |other.path| {
        return false;
      }
      var i := 0;
      while i < |path|
        invariant 0 <= i <= |path|
        invariant forall l | 0 <= l < i :: path[l].node == other.path[l].node
      {
        if path[i].node != other.path[i].node {
          return false;
        }
        i := i + 1;
      }
      r := true;
      if Inv() && other.Inv() && other.nodes == nodes {
        forall l | 0 <= l < |path| ensures cur.S[l][0].id == other.cur.S[l][0].id {
          assert path[l] == Stack(cur)[l] && other.path[l] == Stack(other.cur)[l];
        }
        SameNodesSameKey(nodes, cur, other.cur);
      }
    }
  }

  /** `Advance` is one step followed, unless that step stops, by `Advance` again. */
  lemma {:induction false} AdvanceStep(c: Cursor)
    requires Shaped(c) && c.S != []
    ensures Work(Step(c)) < Work(c)
    ensures var c' := Step(c);
      Advance(c) == if c'.S == [] || HaveValue(Top(c').val) then c' else Advance(c')
  {
    StepWork(c);
  }

  /** How a step of the cursor changes the stack it stands for. */
  lemma {:induction false} StackStep(c: Cursor)
    requires Shaped(c) && c.S != []
    ensures var d := |c.S| - 1; var t := c.S[d][0]; var P := Stack(c);
      Stack(Step(c))
      == if c.down && t.kids != [] then P[d := Level(t.id, false)] + [Level(t.kids[0].id, true)]
         else if |c.S[d]| > 1 then P[..d] + [Level(c.S[d][1].id, true)]
         else P[..d]
  {
  }

  /** The last level of a represented stack is its top node, whose record holds the top's value and links. */
  lemma {:induction false} StackTop(nodes: seq<NodeRec>, c: Cursor)
    requires Shaped(c) && c.S != [] && Fits(nodes, c.S)
    ensures var d := |c.S| - 1; var P := Stack(c);
      P[d] == Level(Top(c).id, c.down) && Top(c).id < |nodes|
      && nodes[Top(c).id].value == Top(c).val
      && nodes[Top(c).id].child == LinkAt(Top(c).kids, 0)
      && nodes[Top(c).id].next == LinkAt(c.S[d], 1)
  {
    TopNode(nodes, c);
  }

  /** Stacks on the same nodes of one arena have the same key. */
  lemma {:induction false} SameNodesSameKey(nodes: seq<NodeRec>, a: Cursor, b: Cursor)
    requires Shaped(a) && Shaped(b) && Fits(nodes, a.S) && Fits(nodes, b.S)
    requires |a.S| == |b.S| && forall l | 0 <= l < |a.S| :: a.S[l][0].id == b.S[l][0].id
    ensures Key(a) == Key(b)
  {
    forall l | 0 <= l < |a.S| ensures Key(a)[l] == Key(b)[l] {
      assert RepAt(nodes, a.S[l], 0) && RepAt(nodes, b.S[l], 0);
    }
  }
}

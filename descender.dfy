/** node_descender (include/vole/datamodel.hpp, src/datamodel.cpp): a visitor that walks the
    whole tree, calling an on_enter hook before a node's children and an on_exit hook after
    them, and keeping the nesting depth in a counter. The hooks a subclass would override
    are recorded in `calls`, each with the depth it observed, so what any subclass can see
    is visible in the model. */
module Descender {
  import opened DataModel

  /** One invocation of an on_enter or on_exit hook and the value get_depth() gave then. */
  datatype Hook = Enter(node: Node, depth: nat) | Exit(node: Node, depth: nat)

  /** The hooks a walk of `n` started at depth `d` invokes, in order. */
  function Walk(n: Node, d: nat): seq<Hook>
    decreases n, 1
  {
    if n.Literal? then [Enter(n, d), Exit(n, d)]
    else [Enter(n, d)] + WalkChildren(n, |n.children|, d + 1) + [Exit(n, d)]
  }

  /** The hooks of the walks of the first `k` children of `n`, one after the other. */
  function WalkChildren(n: Node, k: nat, d: nat): seq<Hook>
    requires IsComposite(n) && k <= |n.children|
    decreases n, 0, k
  {
    if k == 0 then [] else WalkChildren(n, k - 1, d) + Walk(n.children[k - 1], d)
  }

  /** The number of nodes in the tree rooted at `n`. */
  function Size(n: Node): (s: nat)
    ensures s >= 1
    decreases n, 1
  {
    if n.Literal? then 1 else 1 + SizeChildren(n, |n.children|)
  }

  function SizeChildren(n: Node, k: nat): nat
    requires IsComposite(n) && k <= |n.children|
    decreases n, 0, k
  {
    if k == 0 then 0 else SizeChildren(n, k - 1) + Size(n.children[k - 1])
  }

  /** Every node is entered once and exited once: a walk makes two hook calls per node. */
  lemma {:induction false} WalkLength(n: Node, d: nat)
    ensures |Walk(n, d)| == 2 * Size(n)
    decreases n, 1
  {
    if !n.Literal? {
      WalkChildrenLength(n, |n.children|, d + 1);
    }
  }

  lemma {:induction false} WalkChildrenLength(n: Node, k: nat, d: nat)
    requires IsComposite(n) && k <= |n.children|
    ensures |WalkChildren(n, k, d)| == 2 * SizeChildren(n, k)
    decreases n, 0, k
  {
    if k > 0 {
      WalkChildrenLength(n, k - 1, d);
      WalkLength(n.children[k - 1], d);
    }
  }

  /** A walk from depth `d` opens with on_enter and closes with on_exit for `n`, both at
      depth `d`; every hook in between belongs to a descendant and sees a greater depth. */
  lemma {:induction false} WalkDepths(n: Node, d: nat)
    ensures var w := Walk(n, d);
      |w| >= 2 && w[0] == Enter(n, d) && w[|w| - 1] == Exit(n, d)
      && forall k | 0 < k < |w| - 1 :: w[k].depth > d
    decreases n, 1
  {
    if !n.Literal? {
      WalkChildrenDepths(n, |n.children|, d + 1);
    }
  }

  lemma {:induction false} WalkChildrenDepths(n: Node, k: nat, d: nat)
    requires IsComposite(n) && k <= |n.children|
    ensures forall j | 0 <= j < |WalkChildren(n, k, d)| :: WalkChildren(n, k, d)[j].depth >= d
    decreases n, 0, k
  {
    if k > 0 {
      WalkChildrenDepths(n, k - 1, d);
      WalkDepths(n.children[k - 1], d);
      var front: seq<Hook>, back: seq<Hook> := WalkChildren(n, k - 1, d), Walk(n.children[k - 1], d);
      assert WalkChildren(n, k, d) == front + back;
      forall j | 0 <= j < |front + back| ensures (front + back)[j].depth >= d {
        if j >= |front| {
          assert (front + back)[j] == back[j - |front|];
        }
      }
    }
  }

  /** The number of on_enter calls in a sequence of hook calls. */
  function EnterCount(hooks: seq<Hook>): nat {
    if hooks == [] then 0
    else EnterCount(hooks[..|hooks| - 1]) + (if hooks[|hooks| - 1].Enter? then 1 else 0)
  }

  lemma {:induction false} EnterCountAppend(a: seq<Hook>, b: seq<Hook>)
    ensures EnterCount(a + b) == EnterCount(a) + EnterCount(b)
    decreases |b|
  {
    if b != [] {
      assert (a + b)[..|a + b| - 1] == a + b[..|b| - 1];
      EnterCountAppend(a, b[..|b| - 1]);
    } else {
      assert a + b == a;
    }
  }

  /** on_enter is called once per node of the tree. */
  lemma {:induction false} WalkEntersEachNode(n: Node, d: nat)
    ensures EnterCount(Walk(n, d)) == Size(n)
    decreases n, 1
  {
    if n.Literal? {
      assert [Enter(n, d), Exit(n, d)][..1] == [Enter(n, d)];
      assert [Enter(n, d)][..0] == [];
    } else {
      var kids := WalkChildren(n, |n.children|, d + 1);
      WalkChildrenEntersEachNode(n, |n.children|, d + 1);
      EnterCountAppend([Enter(n, d)], kids);
      EnterCountAppend([Enter(n, d)] + kids, [Exit(n, d)]);
      assert [Enter(n, d)][..0] == [];
      assert [Exit(n, d)][..0] == [];
    }
  }

  lemma {:induction false} WalkChildrenEntersEachNode(n: Node, k: nat, d: nat)
    requires IsComposite(n) && k <= |n.children|
    ensures EnterCount(WalkChildren(n, k, d)) == SizeChildren(n, k)
    decreases n, 0, k
  {
    if k > 0 {
      WalkChildrenEntersEachNode(n, k - 1, d);
      WalkEntersEachNode(n.children[k - 1], d);
      EnterCountAppend(WalkChildren(n, k - 1, d), Walk(n.children[k - 1], d));
    }
  }

  /** A literal's on_enter is followed directly by its on_exit. */
  lemma LiteralWalk(n: Node, d: nat)
    requires n.Literal?
    ensures Walk(n, d) == [Enter(n, d), Exit(n, d)]
  {
  }

  /** The walks of the first `k` children begin the walks of the first `m`. */
  lemma {:induction false} WalkChildrenPrefix(n: Node, k: nat, m: nat, d: nat)
    requires IsComposite(n) && k <= m <= |n.children|
    ensures var p, q := WalkChildren(n, k, d), WalkChildren(n, m, d);
      |p| <= |q| && q[..|p|] == p
    decreases m
  {
    if k < m {
      WalkChildrenPrefix(n, k, m - 1, d);
      var p, q' := WalkChildren(n, k, d), WalkChildren(n, m - 1, d);
      assert (q' + Walk(n.children[m - 1], d))[..|p|] == q'[..|p|];
    }
  }

  /** Child `i` of a composite entered at depth `d` is walked as one uninterrupted block,
      after its parent's on_enter and its elder siblings' walks: its on_enter and on_exit
      both see depth `d + 1`. */
  lemma ChildWalkNested(n: Node, i: nat, d: nat)
    requires IsComposite(n) && i < |n.children|
    ensures var c, at := n.children[i], 1 + |WalkChildren(n, i, d + 1)|;
      var w, wc := Walk(n, d), Walk(n.children[i], d + 1);
      && at + |wc| <= |w| && w[at..at + |wc|] == wc
      && w[at] == Enter(c, d + 1) && w[at + |wc| - 1] == Exit(c, d + 1)
  {
    var at, w, wc := 1 + |WalkChildren(n, i, d + 1)|, Walk(n, d), Walk(n.children[i], d + 1);
    ChildWalkAt(n, i, d);
    WalkDepths(n.children[i], d + 1);
    assert w[at] == w[at..at + |wc|][0];
    assert w[at + |wc| - 1] == w[at..at + |wc|][|wc| - 1];
  }

  /** Child `i`'s walk is one block of its parent's walk. */
  lemma ChildWalkAt(n: Node, i: nat, d: nat)
    requires IsComposite(n) && i < |n.children|
    ensures var at, w, wc := 1 + |WalkChildren(n, i, d + 1)|, Walk(n, d), Walk(n.children[i], d + 1);
      at + |wc| <= |w| && w[at..at + |wc|] == wc
  {
    var pre, wc := WalkChildren(n, i, d + 1), Walk(n.children[i], d + 1);
    var all := WalkChildren(n, |n.children|, d + 1);
    WalkChildrenPrefix(n, i + 1, |n.children|, d + 1);
    assert WalkChildren(n, i + 1, d + 1) == pre + wc;
    assert (all + [Exit(n, d)])[..|pre + wc|] == all[..|pre + wc|];
    assert Walk(n, d) == [Enter(n, d)] + (all + [Exit(n, d)]);
    BlockAt([Enter(n, d)], pre, wc, all + [Exit(n, d)]);
  }

  class NodeDescender {
    var depth: nat
    /** Every on_enter / on_exit call so far, in order. */
    var calls: seq<Hook>

    /** A fresh descender has depth 0, so the node it is applied to is entered at depth 0. */
    constructor ()
      ensures depth == 0 && calls == []
    {
      depth := 0;
      calls := [];
    }

    /** get_depth() */
    function GetDepth(): nat
      reads this
    {
      depth
    }

    /** The hook a subclass may override; recorded with the depth it observes. */
    method OnEnter(n: Node)
      modifies this
      ensures depth == old(depth) && calls == old(calls) + [Enter(n, depth)]
    {
      calls := calls + [Enter(n, depth)];
    }

    method OnExit(n: Node)
      modifies this
      ensures depth == old(depth) && calls == old(calls) + [Exit(n, depth)]
    {
      calls := calls + [Exit(n, depth)];
    }

    /** node.apply(descender): the final visit overloads. A composite is entered, its
        children are visited in insertion order one level deeper, and it is exited; a
        literal is entered and exited. The depth is restored afterwards. */
    method Visit(n: Node)
      modifies this
      ensures depth == old(depth)
      ensures calls == old(calls) + Walk(n, old(depth))
      decreases n, 1
    {
      OnEnter(n);
      if !n.Literal? {
        depth := depth + 1;
        VisitChildren(n);
        depth := depth - 1;
      }
      OnExit(n);
      if !n.Literal? {
        ConcatAssociates(old(calls), [Enter(n, depth)], WalkChildren(n, |n.children|, depth + 1));
        ConcatAssociates(old(calls), [Enter(n, depth)] + WalkChildren(n, |n.children|, depth + 1), [Exit(n, depth)]);
      }
    }

    /** The children of a composite, visited in insertion order at the current depth. */
    method VisitChildren(n: Node)
      requires IsComposite(n)
      modifies this
      ensures depth == old(depth)
      ensures calls == old(calls) + WalkChildren(n, |n.children|, depth)
      decreases n, 0
    {
      var i := 0;
      while i < |n.children|
        invariant 0 <= i <= |n.children|
        invariant depth == old(depth)
        invariant calls == old(calls) + WalkChildren(n, i, depth)
      {
        Visit(n.children[i]);
        ConcatAssociates(old(calls), WalkChildren(n, i, depth), Walk(n.children[i], depth));
        i := i + 1;
      }
    }
  }

  /** A fresh descender applied to a tree records exactly the walk from depth 0 and ends
      at depth 0 again. */
  method Descend(n: Node) returns (hooks: seq<Hook>, depthAfter: nat)
    ensures hooks == Walk(n, 0) && depthAfter == 0
    ensures |hooks| == 2 * Size(n) && hooks[0] == Enter(n, 0) && hooks[|hooks| - 1] == Exit(n, 0)
  {
    var d := new NodeDescender();
    d.Visit(n);
    hooks, depthAfter := d.calls, d.depth;
    WalkLength(n, 0);
    WalkDepths(n, 0);
  }
}

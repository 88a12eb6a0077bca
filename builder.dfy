/** node_tree_builder (include/vole/datamodel_parsers.hpp, src/datamodel_parsers.cpp): builds a
    tree from a stream of nodes, keeping the chain of open composites on a stack.

    In the source every stack entry is a shared pointer into the tree, so adding a child to
    the top of the stack changes the tree in place. Here the stack holds node values: each
    entry is the current state of an open node, and the entry below it still holds the copy
    of it that was current when it was opened, as its last child. `Plug` puts the chain back
    together, so the tree the pointers would show is `Plug(stack)`. */
module TreeBuilder {
  import opened Errors
  import opened DataModel

  // ---------------------------------------------------------------------------
  // The two lambda visitors of add_child

  /** The inserter applied to the open node `top`: an array appends the new node, an
      object appends it unless the name is taken, a literal refuses. */
  function Attach(top: Node, child: Node): (r: Result<Node>)
    ensures top.Literal? ==> r == Err(InvalidOperation)
    ensures top.Array? ==> r == Ok(Array(top.name, top.children + [child]))
    ensures top.Object? ==> (r.Err? <==> HasChild(top.children, child.name))
    ensures top.Object? && r.Err? ==> r.error == DuplicateKey
    ensures top.Object? && r.Ok? ==> r.value == Object(top.name, top.children + [child])
  {
    Visit(top,
      (name, cs) => Ok(Array(name, cs + [child])),
      (_, _) => Err(InvalidOperation),
      (name, cs) => match ObjectInsert(cs, child)
                    case Ok(cs') => Ok(Object(name, cs'))
                    case Err(e) => Err(e))
  }

  /** The outer visitor applied to the new node: arrays and objects become the new top of
      the stack, literals do not. */
  function Opens(n: Node): (r: bool)
    ensures r <==> IsComposite(n)
  {
    Visit(n, (_, _) => true, (_, _) => false, (_, _) => true)
  }

  // ---------------------------------------------------------------------------
  // The builder's state as a value

  /** node_stack and root_node. */
  datatype BuilderState = BuilderState(stack: seq<Node>, root: Option<Node>)

  /** A default-constructed builder. */
  function Fresh(): BuilderState {
    BuilderState([], None)
  }

  /** `parent` with its last child replaced by `child` (the parent is unchanged when it has
      no children to replace). */
  function Refreshed(parent: Node, child: Node): (r: Node)
    ensures r.name == parent.name && r.Literal? == parent.Literal? && r.Array? == parent.Array?
    ensures IsComposite(parent) && parent.children != [] ==>
      r.children == parent.children[..|parent.children| - 1] + [child]
  {
    match parent
    case Literal(_, _) => parent
    case Array(name, cs) => if cs == [] then parent else Array(name, cs[..|cs| - 1] + [child])
    case Object(name, cs) => if cs == [] then parent else Object(name, cs[..|cs| - 1] + [child])
  }

  /** The tree the stack's pointers show: the bottom entry with each entry above it put in
      place of its parent's last child. */
  function Plug(stack: seq<Node>): Node
    requires stack != []
    decreases |stack|
  {
    if |stack| == 1 then stack[0] else Refreshed(stack[0], Plug(stack[1..]))
  }

  /** get_root(): root_node once the stack has emptied, otherwise the tree under
      construction, whose root is the bottom entry of the stack. */
  function Root(b: BuilderState): Option<Node> {
    if b.stack == [] then b.root else Some(Plug(b.stack))
  }

  /** last_parent(): the top of the stack, the container new nodes go into. */
  function Top(b: BuilderState): Node
    requires b.stack != []
  {
    b.stack[|b.stack| - 1]
  }

  /** Every entry below the top is an open composite that already holds the entry above it
      as its last child; only a lone entry can be a literal (a scalar document). */
  predicate ValidState(b: BuilderState) {
    (forall i | 0 <= i < |b.stack| - 1 ::
       IsComposite(b.stack[i]) && b.stack[i].children != []
       && b.stack[i].children[|b.stack[i].children| - 1].name == b.stack[i + 1].name)
    && (|b.stack| > 1 ==> IsComposite(b.stack[|b.stack| - 1]))
  }

  /** add_child(node): on an empty stack the node becomes the root and is pushed, whatever
      its kind; otherwise it is attached to the top of the stack and, when it is a
      composite, pushed. A refused attachment leaves the builder as it was. */
  function Added(b: BuilderState, n: Node): (r: Result<BuilderState>)
    ensures b.stack == [] ==> r == Ok(BuilderState([n], Some(n)))
    ensures b.stack != [] && r.Ok? ==>
      && r.value.root == b.root
      && |r.value.stack| == |b.stack| + (if IsComposite(n) then 1 else 0)
      && r.value.stack[..|b.stack| - 1] == b.stack[..|b.stack| - 1]
    ensures b.stack != [] ==> (r.Err? <==> Attach(b.stack[|b.stack| - 1], n).Err?)
    ensures b.stack != [] && r.Err? ==> r.error == Attach(b.stack[|b.stack| - 1], n).error
  {
    if b.stack == [] then Ok(BuilderState([n], Some(n)))
    else
      var front, top := b.stack[..|b.stack| - 1], b.stack[|b.stack| - 1];
      match Attach(top, n)
      case Err(e) => Err(e)
      case Ok(top') => Ok(BuilderState(front + [top'] + (if Opens(n) then [n] else []), b.root))
  }

  /** close_parent(): pops the top of the stack. In the value model the entry below takes
      the popped node's final state as its last child; popping the last entry leaves the
      root as the finished tree. */
  function Closed(b: BuilderState): (r: BuilderState)
    requires b.stack != []
    ensures |r.stack| == |b.stack| - 1
    ensures r.stack == [] ==> r.root == Some(b.stack[0])
    ensures r.stack != [] ==> r.stack[..|r.stack| - 1] == b.stack[..|b.stack| - 2]
  {
    var k := |b.stack|;
    if k == 1 then BuilderState([], Some(b.stack[0]))
    else BuilderState(b.stack[..k - 2] + [Refreshed(b.stack[k - 2], b.stack[k - 1])], b.root)
  }

  // ---------------------------------------------------------------------------
  // The tree as a value: what adding and closing do to it

  /** The last child of a composite. */
  function LastChild(t: Node): Node
    requires IsComposite(t) && t.children != []
  {
    t.children[|t.children| - 1]
  }

  /** The reference meaning of add_child on a non-empty stack: follow the last child
      `depth` times from the root and attach the node there. */
  function AttachAtPath(t: Node, depth: nat, n: Node): (r: Result<Node>)
    ensures r.Ok? ==> r.value.name == t.name
    decreases depth
  {
    if depth == 0 then Attach(t, n)
    else if t.Literal? || t.children == [] then Err(NoSuchElement)
    else match AttachAtPath(LastChild(t), depth - 1, n)
      case Err(e) => Err(e)
      case Ok(c) => Ok(Refreshed(t, c))
  }

  lemma RefreshedTwice(p: Node, c: Node, c': Node)
    requires IsComposite(p) && p.children != []
    ensures Refreshed(Refreshed(p, c), c') == Refreshed(p, c')
    ensures LastChild(Refreshed(p, c)) == c
  {
  }

  /** Adding at the top of the stack is attaching at the end of the open path of the
      plugged tree. */
  lemma {:induction false} PlugAttach(s: seq<Node>, n: Node)
    requires s != [] && ValidState(BuilderState(s, None))
    ensures AttachAtPath(Plug(s), |s| - 1, n)
      == match Attach(s[|s| - 1], n)
         case Err(e) => Err(e)
         case Ok(t) => Ok(Plug(s[..|s| - 1] + [t]))
    decreases |s|
  {
    if |s| > 1 {
      var rest := s[1..];
      ValidStateTail(s);
      PlugAttach(rest, n);
      assert s[|s| - 1] == rest[|rest| - 1];
      assert Plug(s) == Refreshed(s[0], Plug(rest));
      RefreshedTwice(s[0], Plug(rest), Plug(rest));
      assert AttachAtPath(Plug(s), |s| - 1, n)
        == match AttachAtPath(Plug(rest), |rest| - 1, n)
           case Err(e) => Err(e)
           case Ok(c) => Ok(Refreshed(Plug(s), c));
      match Attach(s[|s| - 1], n)
      case Err(e) =>
      case Ok(t) =>
        var s' := s[..|s| - 1] + [t];
        assert s'[1..] == rest[..|rest| - 1] + [t];
        assert s'[0] == s[0];
        assert Plug(s') == Refreshed(s[0], Plug(s'[1..]));
        RefreshedTwice(s[0], Plug(rest), Plug(s'[1..]));
    }
  }

  /** The stack invariant holds for the entries above the bottom one. */
  lemma ValidStateTail(s: seq<Node>)
    requires |s| > 1 && ValidState(BuilderState(s, None))
    ensures ValidState(BuilderState(s[1..], None))
  {
    var rest := s[1..];
    forall i | 0 <= i < |rest| - 1
      ensures IsComposite(rest[i]) && rest[i].children != []
        && rest[i].children[|rest[i].children| - 1].name == rest[i + 1].name
    {
      assert rest[i] == s[i + 1] && rest[i + 1] == s[i + 2];
    }
  }

  /** Putting the entry above back into its parent does not change the plugged tree. */
  lemma {:induction false} PlugFold(s: seq<Node>)
    requires |s| >= 2
    ensures Plug(s) == Plug(s[..|s| - 2] + [Refreshed(s[|s| - 2], s[|s| - 1])])
    decreases |s|
  {
    if |s| > 2 {
      var s' := s[..|s| - 2] + [Refreshed(s[|s| - 2], s[|s| - 1])];
      PlugFold(s[1..]);
      assert s[1..][..|s| - 3] + [Refreshed(s[|s| - 2], s[|s| - 1])] == s'[1..];
    } else {
      assert s[..0] + [Refreshed(s[0], s[1])] == [Refreshed(s[0], s[1])];
    }
  }

  /** Pushing a node that is already its parent's last child does not change the tree. */
  lemma PlugPushed(front: seq<Node>, t: Node, n: Node)
    requires IsComposite(t) && t.children != [] && LastChild(t) == n
    ensures Plug(front + [t] + [n]) == Plug(front + [t])
  {
    var s' := front + [t] + [n];
    PlugFold(s');
    assert s'[..|s'| - 2] == front && s'[|s'| - 2] == t && s'[|s'| - 1] == n;
    assert t.children == t.children[..|t.children| - 1] + [n];
    assert Refreshed(t, n) == t;
  }

  /** add_child keeps the stack's shape. */
  lemma AddedKeepsValid(b: BuilderState, n: Node)
    requires ValidState(b) && Added(b, n).Ok?
    ensures ValidState(Added(b, n).value)
  {
    if b.stack != [] {
      var s, s' := b.stack, Added(b, n).value.stack;
      var top' := Attach(s[|s| - 1], n).value;
      assert s' == s[..|s| - 1] + [top'] + (if Opens(n) then [n] else []);
      forall i | 0 <= i < |s'| - 1
        ensures IsComposite(s'[i]) && s'[i].children != []
          && s'[i].children[|s'[i].children| - 1].name == s'[i + 1].name
      {
        if i < |s| - 2 {
          assert s'[i] == s[i] && s'[i + 1] == s[i + 1];
        } else if i == |s| - 2 {
          assert s'[i] == s[i] && s'[i + 1] == top';
        } else {
          assert s'[i] == top' && s'[i + 1] == n;
        }
      }
    }
  }

  /** close_parent keeps the stack's shape. */
  lemma ClosedKeepsValid(b: BuilderState)
    requires ValidState(b) && b.stack != []
    ensures ValidState(Closed(b))
  {
    var s, s' := b.stack, Closed(b).stack;
    if |s| > 1 {
      forall i | 0 <= i < |s'| - 1
        ensures IsComposite(s'[i]) && s'[i].children != []
          && s'[i].children[|s'[i].children| - 1].name == s'[i + 1].name
      {
        assert s'[i] == s[i];
        if i + 1 < |s'| - 1 {
          assert s'[i + 1] == s[i + 1];
        } else {
          assert s'[i + 1] == Refreshed(s[i + 1], s[i + 2]);
        }
      }
    }
  }

  /** Adding a node to a non-empty builder attaches it at the end of the open path of the
      tree get_root() shows, and fails exactly when that attachment fails. */
  lemma AddedGrowsTree(b: BuilderState, n: Node)
    requires ValidState(b) && b.stack != []
    ensures Added(b, n).Ok? <==> AttachAtPath(Root(b).value, |b.stack| - 1, n).Ok?
    ensures Added(b, n).Err? ==> Added(b, n).error == AttachAtPath(Root(b).value, |b.stack| - 1, n).error
    ensures Added(b, n).Ok? ==>
      Root(Added(b, n).value) == Some(AttachAtPath(Root(b).value, |b.stack| - 1, n).value)
  {
    var s := b.stack;
    PlugAttach(s, n);
    if Attach(s[|s| - 1], n).Ok? {
      var t := Attach(s[|s| - 1], n).value;
      var front := s[..|s| - 1];
      if IsComposite(n) {
        assert Added(b, n).value.stack == front + [t] + [n];
        PlugPushed(front, t, n);
      } else {
        assert Added(b, n).value.stack == front + [t];
      }
    }
  }

  /** Closing a parent never changes the tree get_root() shows. */
  lemma ClosedKeepsTree(b: BuilderState)
    requires b.stack != []
    ensures Root(Closed(b)) == Root(b)
  {
    if |b.stack| > 1 {
      PlugFold(b.stack);
    }
  }

  /** Attaching a node that is itself well keyed keeps a well-keyed tree well keyed. */
  lemma {:induction false} AttachAtPathKeepsWellKeyed(t: Node, depth: nat, n: Node)
    requires WellKeyed(t) && WellKeyed(n) && AttachAtPath(t, depth, n).Ok?
    ensures WellKeyed(AttachAtPath(t, depth, n).value)
    decreases depth
  {
    var r := AttachAtPath(t, depth, n).value;
    if depth == 0 {
      if t.Object? {
        ObjectInsertKeepsNamesDistinct(t.children, n);
      }
      assert r.children == t.children + [n];
      assert forall i | 0 <= i < |r.children| :: r.children[i] == n || r.children[i] == t.children[i];
    } else {
      var c := AttachAtPath(LastChild(t), depth - 1, n).value;
      AttachAtPathKeepsWellKeyed(LastChild(t), depth - 1, n);
      var k := |t.children| - 1;
      assert r.children == t.children[..k] + [c];
      assert forall i | 0 <= i < k :: r.children[i] == t.children[i];
      assert WellKeyed(c) && c.name == t.children[k].name;
    }
  }

  /** A builder fed only well-keyed nodes shows a well-keyed tree: no object in it ever
      holds two children with the same name. */
  lemma AddedKeepsWellKeyed(b: BuilderState, n: Node)
    requires ValidState(b) && Added(b, n).Ok? && WellKeyed(n)
    requires Root(b).Some? ==> WellKeyed(Root(b).value)
    ensures Root(Added(b, n).value).Some? && WellKeyed(Root(Added(b, n).value).value)
  {
    if b.stack != [] {
      AddedGrowsTree(b, n);
      AttachAtPathKeepsWellKeyed(Root(b).value, |b.stack| - 1, n);
    }
  }

  // ---------------------------------------------------------------------------
  // The builder object

  class NodeTreeBuilder {
    var nodeStack: seq<Node>
    var rootNode: Option<Node>

    function State(): BuilderState
      reads this
    {
      BuilderState(nodeStack, rootNode)
    }

    ghost predicate Valid()
      reads this
    {
      ValidState(State())
    }

    constructor ()
      ensures State() == Fresh() && Valid()
    {
      nodeStack := [];
      rootNode := None;
    }

    /** add_child: a refused attachment (the exception) leaves the builder unchanged. */
    method AddChild(n: Node) returns (r: Outcome)
      requires Valid()
      modifies this
      ensures Valid()
      ensures Added(old(State()), n).Ok? ==> r == Pass && State() == Added(old(State()), n).value
      ensures Added(old(State()), n).Err? ==> r == Fail(Added(old(State()), n).error) && State() == old(State())
    {
      if nodeStack == [] {
        rootNode := Some(n);
        nodeStack := nodeStack + [n];
        return Pass;
      }
      var attached := Attach(nodeStack[|nodeStack| - 1], n);
      if attached.Err? {
        return Fail(attached.error);
      }
      ghost var before := State();
      nodeStack := nodeStack[..|nodeStack| - 1] + [attached.value];
      if Opens(n) {
        nodeStack := nodeStack + [n];
      }
      AddedKeepsValid(before, n);
      r := Pass;
    }

    /** close_parent: pops the stack; on an empty stack the source's pop_back is undefined. */
    method CloseParent()
      requires Valid() && nodeStack != []
      modifies this
      ensures Valid() && State() == Closed(old(State()))
    {
      ClosedKeepsValid(State());
      if |nodeStack| == 1 {
        rootNode := Some(nodeStack[0]);
        nodeStack := [];
      } else {
        var k := |nodeStack|;
        nodeStack := nodeStack[..k - 2] + [Refreshed(nodeStack[k - 2], nodeStack[k - 1])];
      }
    }

    /** get_root(): empty until the first node is added. */
    function GetRoot(): (r: Option<Node>)
      reads this
      ensures r.None? <==> nodeStack == [] && rootNode.None?
      ensures nodeStack != [] ==> r.value.name == nodeStack[0].name
      ensures nodeStack != [] ==> r == Some(Plug(nodeStack))
      ensures nodeStack == [] ==> r == rootNode
    {
      Root(State())
    }

    /** last_parent(): the top of the stack, an open composite unless it is a lone scalar
        root; on an empty stack the source's back() is undefined. */
    method LastParent() returns (r: Node)
      requires Valid() && nodeStack != []
      ensures r == Top(State())
      ensures |nodeStack| > 1 ==> IsComposite(r)
    {
      r := nodeStack[|nodeStack| - 1];
    }
  }
}

/** debug_renderer (include/vole/render.hpp, src/render.cpp): a descender whose on_enter
    hooks append one line per node to a text buffer (`depth * 2` spaces, the node's debug
    label, a newline) and whose on_exit hooks keep their no-op default. */
module DebugRender {
  import opened DataModel
  import opened Descender

  /** TAB_SIZE */
  const TabSize: nat := 2

  function Spaces(k: nat): (s: string)
    ensures |s| == k && forall i | 0 <= i < k :: s[i] == ' '
  {
    seq(k, _ => ' ')
  }

  /** The line append() writes for a node entered at depth `depth`. */
  function Line(n: Node, depth: nat): string {
    Spaces(depth * TabSize) + FormatDebug(n) + "\n"
  }

  /** The text a descender writes during a walk of `n` from depth `d` when every on_enter
      appends `line(node, depth)` and every on_exit writes nothing: the node's own line,
      then its children's texts in order. It is kept generic in `line`, so that the facts
      about the walk's shape below do not depend on how one line is spelled. */
  function Emitted(line: (Node, nat) -> string, n: Node, d: nat): string
    decreases n, 1
  {
    if n.Literal? then line(n, d) else line(n, d) + EmittedChildren(line, n, |n.children|, d + 1)
  }

  function EmittedChildren(line: (Node, nat) -> string, n: Node, k: nat, d: nat): string
    requires IsComposite(n) && k <= |n.children|
    decreases n, 0, k
  {
    if k == 0 then "" else EmittedChildren(line, n, k - 1, d) + Emitted(line, n.children[k - 1], d)
  }

  /** One step of the walk: a node's line, then (for a composite) its children's texts. */
  lemma EmittedUnfolds(line: (Node, nat) -> string, n: Node, d: nat)
    ensures n.Literal? ==> Emitted(line, n, d) == line(n, d)
    ensures !n.Literal? ==>
      Emitted(line, n, d) == line(n, d) + EmittedChildren(line, n, |n.children|, d + 1)
  {
  }

  /** The text such a descender writes for a given sequence of hook calls. */
  function EnterText(line: (Node, nat) -> string, hooks: seq<Hook>): string {
    if hooks == [] then ""
    else EnterText(line, hooks[..|hooks| - 1]) + match hooks[|hooks| - 1]
      case Enter(m, depth) => line(m, depth)
      case Exit(_, _) => ""
  }

  lemma {:induction false} EnterTextAppend(line: (Node, nat) -> string, a: seq<Hook>, b: seq<Hook>)
    ensures EnterText(line, a + b) == EnterText(line, a) + EnterText(line, b)
    decreases |b|
  {
    if b != [] {
      var b' := b[..|b| - 1];
      assert (a + b)[..|a + b| - 1] == a + b';
      EnterTextAppend(line, a, b');
    } else {
      assert a + b == a;
    }
  }

  lemma EnterTextCombines(line: (Node, nat) -> string, w1: seq<Hook>, w2: seq<Hook>, t1: string, t2: string)
    requires EnterText(line, w1) == t1 && EnterText(line, w2) == t2
    ensures EnterText(line, w1 + w2) == t1 + t2
  {
    EnterTextAppend(line, w1, w2);
  }

  /** The text written is exactly the descender walk with every on_enter turned into its
      line and every on_exit into nothing: one line per node, in pre-order, each for the
      depth the hook observed. */
  lemma {:induction false} EmittedIsWalkEnters(line: (Node, nat) -> string, n: Node, d: nat)
    ensures Emitted(line, n, d) == EnterText(line, Walk(n, d))
    decreases n, 1
  {
    if n.Literal? {
      assert EnterText(line, [Enter(n, d)]) == line(n, d);
      EnterTextAppend(line, [Enter(n, d)], [Exit(n, d)]);
    } else {
      var kids := WalkChildren(n, |n.children|, d + 1);
      EmittedChildrenIsWalkEnters(line, n, |n.children|, d + 1);
      EnterTextAppend(line, [Enter(n, d)], kids);
      EnterTextAppend(line, [Enter(n, d)] + kids, [Exit(n, d)]);
      assert EnterText(line, [Enter(n, d)]) == line(n, d);
      assert EnterText(line, [Exit(n, d)]) == "";
    }
  }

  lemma {:induction false} EmittedChildrenIsWalkEnters(line: (Node, nat) -> string, n: Node, k: nat, d: nat)
    requires IsComposite(n) && k <= |n.children|
    ensures EmittedChildren(line, n, k, d) == EnterText(line, WalkChildren(n, k, d))
    decreases n, 0, k
  {
    if k > 0 {
      var c := n.children[k - 1];
      EmittedChildrenIsWalkEnters(line, n, k - 1, d);
      EmittedIsWalkEnters(line, c, d);
      EnterTextCombines(line, WalkChildren(n, k - 1, d), Walk(c, d),
                        EmittedChildren(line, n, k - 1, d), Emitted(line, c, d));
    }
  }

  /** What debug_renderer writes for a walk of `n` from depth `d`. */
  function Dump(n: Node, d: nat): string {
    Emitted(Line, n, d)
  }

  /** The number of newline characters in a text. */
  function Newlines(s: string): nat {
    if s == [] then 0 else Newlines(s[..|s| - 1]) + (if s[|s| - 1] == '\n' then 1 else 0)
  }

  lemma {:induction false} NewlinesAppend(a: string, b: string)
    ensures Newlines(a + b) == Newlines(a) + Newlines(b)
    decreases |b|
  {
    if b != [] {
      assert (a + b)[..|a + b| - 1] == a + b[..|b| - 1];
      NewlinesAppend(a, b[..|b| - 1]);
    } else {
      assert a + b == a;
    }
  }

  lemma {:induction false} NoNewlineCounted(s: string)
    requires '\n' !in s
    ensures Newlines(s) == 0
    decreases |s|
  {
    if s != [] {
      assert s[|s| - 1] in s;
      assert forall c | c in s[..|s| - 1] :: c in s;
      NoNewlineCounted(s[..|s| - 1]);
    }
  }

  /** No node name in the tree contains a newline. */
  predicate NoNewlineInNames(n: Node)
    decreases n
  {
    '\n' !in n.name
    && (IsComposite(n) ==> forall i | 0 <= i < |n.children| :: NoNewlineInNames(n.children[i]))
  }

  /** A node's line ends in the only newline it holds, whatever its indentation. */
  lemma LineHasOneNewline(n: Node, depth: nat)
    requires '\n' !in n.name
    ensures Newlines(Line(n, depth)) == 1
  {
    var sp, t := Spaces(depth * TabSize), TypeName(n);
    TypeNameHasNoBrace(n);
    assert '\n' !in sp && '\n' !in t;
    var body := sp + (t + "{" + n.name + "}");
    assert Line(n, depth) == body + "\n";
    NoNewlineCounted(body);
    NewlinesAppend(body, "\n");
    assert Newlines("\n") == 1 by {
      assert "\n"[..0] == "";
    }
  }

  /** No hook in the sequence is about a node whose name contains a newline. */
  predicate HookNamesWithoutNewline(hooks: seq<Hook>) {
    forall j | 0 <= j < |hooks| :: '\n' !in hooks[j].node.name
  }

  lemma {:induction false} WalkNamesWithoutNewline(n: Node, d: nat)
    requires NoNewlineInNames(n)
    ensures HookNamesWithoutNewline(Walk(n, d))
    decreases n, 1
  {
    if !n.Literal? {
      WalkChildrenNamesWithoutNewline(n, |n.children|, d + 1);
      var w: seq<Hook> := [Enter(n, d)] + WalkChildren(n, |n.children|, d + 1) + [Exit(n, d)];
      assert Walk(n, d) == w;
      forall j | 0 <= j < |w| ensures '\n' !in w[j].node.name {
        if 0 < j < |w| - 1 {
          assert w[j] == WalkChildren(n, |n.children|, d + 1)[j - 1];
        }
      }
    }
  }

  lemma {:induction false} WalkChildrenNamesWithoutNewline(n: Node, k: nat, d: nat)
    requires IsComposite(n) && k <= |n.children| && NoNewlineInNames(n)
    ensures HookNamesWithoutNewline(WalkChildren(n, k, d))
    decreases n, 0, k
  {
    if k > 0 {
      WalkChildrenNamesWithoutNewline(n, k - 1, d);
      WalkNamesWithoutNewline(n.children[k - 1], d);
      var front: seq<Hook>, back: seq<Hook> := WalkChildren(n, k - 1, d), Walk(n.children[k - 1], d);
      assert WalkChildren(n, k, d) == front + back;
      forall j | 0 <= j < |front + back| ensures '\n' !in (front + back)[j].node.name {
        if j >= |front| {
          assert (front + back)[j] == back[j - |front|];
        }
      }
    }
  }

  /** When every entered node's line holds exactly one newline, the text has one line per
      on_enter call. */
  lemma {:induction false} EnterTextNewlines(line: (Node, nat) -> string, hooks: seq<Hook>)
    requires forall j | 0 <= j < |hooks| :: hooks[j].Enter? ==> Newlines(line(hooks[j].node, hooks[j].depth)) == 1
    ensures Newlines(EnterText(line, hooks)) == EnterCount(hooks)
    decreases |hooks|
  {
    if hooks != [] {
      var front, last := hooks[..|hooks| - 1], hooks[|hooks| - 1];
      assert forall j | 0 <= j < |front| :: front[j] == hooks[j];
      EnterTextNewlines(line, front);
      if last.Enter? {
        NewlinesAppend(EnterText(line, front), line(last.node, last.depth));
      } else {
        NewlinesAppend(EnterText(line, front), "");
      }
    }
  }

  /** When no name contains a newline, the dump has exactly one line per node. */
  lemma DumpLineCount(n: Node, d: nat)
    requires NoNewlineInNames(n)
    ensures Newlines(Dump(n, d)) == Size(n)
  {
    var w := Walk(n, d);
    EmittedIsWalkEnters(Line, n, d);
    WalkNamesWithoutNewline(n, d);
    forall j | 0 <= j < |w| && w[j].Enter? ensures Newlines(Line(w[j].node, w[j].depth)) == 1 {
      LineHasOneNewline(w[j].node, w[j].depth);
    }
    EnterTextNewlines(Line, w);
    WalkEntersEachNode(n, d);
  }

  /** The first line of a dump from depth 0 is the node's own label with no indentation;
      a lone literal renders as exactly that line. */
  lemma DumpStartsWithRootLine(n: Node)
    ensures var first := FormatDebug(n) + "\n";
      |first| <= |Dump(n, 0)| && Dump(n, 0)[..|first|] == first
      && (n.Literal? ==> Dump(n, 0) == first)
  {
    assert Spaces(0) == "";
    assert Line(n, 0) == FormatDebug(n) + "\n";
  }

  /** The texts of the first `k` children begin the texts of the first `m`. */
  lemma {:induction false} EmittedChildrenPrefix(line: (Node, nat) -> string, n: Node, k: nat, m: nat, d: nat)
    requires IsComposite(n) && k <= m <= |n.children|
    ensures var p, q := EmittedChildren(line, n, k, d), EmittedChildren(line, n, m, d);
      |p| <= |q| && q[..|p|] == p
    decreases m
  {
    if k < m {
      EmittedChildrenPrefix(line, n, k, m - 1, d);
      var p, q' := EmittedChildren(line, n, k, d), EmittedChildren(line, n, m - 1, d);
      assert (q' + Emitted(line, n.children[m - 1], d))[..|p|] == q'[..|p|];
    }
  }

  /** A line one level deeper is indented by TAB_SIZE = 2 more spaces. */
  lemma LineOneDeeper(c: Node, d: nat)
    ensures Line(c, d + 1) == "  " + Spaces(d * TabSize) + FormatDebug(c) + "\n"
  {
    assert Spaces((d + 1) * TabSize) == "  " + Spaces(d * TabSize);
  }

  /** A dump opens with the node's own line. */
  lemma DumpOpensWithLine(c: Node, d: nat)
    ensures |Line(c, d)| <= |Dump(c, d)| && Dump(c, d)[..|Line(c, d)|] == Line(c, d)
  {
    EmittedUnfolds(Line, c, d);
  }

  /** Child `i`'s text sits in its parent's text right after the parent's line and the
      elder siblings' texts. */
  lemma ChildEmittedAt(line: (Node, nat) -> string, n: Node, i: nat, d: nat)
    requires IsComposite(n) && i < |n.children|
    ensures var at := |line(n, d) + EmittedChildren(line, n, i, d + 1)|;
      var w, x := Emitted(line, n, d), Emitted(line, n.children[i], d + 1);
      at + |x| <= |w| && w[at..at + |x|] == x && w[..|line(n, d)|] == line(n, d)
  {
    var pre, x := EmittedChildren(line, n, i, d + 1), Emitted(line, n.children[i], d + 1);
    var all := EmittedChildren(line, n, |n.children|, d + 1);
    EmittedChildrenPrefix(line, n, i + 1, |n.children|, d + 1);
    assert EmittedChildren(line, n, i + 1, d + 1) == pre + x;
    assert Emitted(line, n, d) == line(n, d) + all;
    BlockAt(line(n, d), pre, x, all);
  }

  /** In the dump of a composite at depth `d`, child `i`'s own dump follows the parent's line
      and the elder siblings' dumps as one block, and it opens with the child's line,
      indented by TAB_SIZE = 2 spaces more than the parent's line. */
  lemma ChildIndentation(n: Node, i: nat, d: nat)
    requires IsComposite(n) && i < |n.children|
    ensures |Line(n, d)| <= |Dump(n, d)|
    ensures Dump(n, d)[..|Line(n, d)|] == Spaces(d * TabSize) + FormatDebug(n) + "\n"
    ensures var c := n.children[i];
      var at := |Line(n, d) + EmittedChildren(Line, n, i, d + 1)|;
      var dc := Dump(c, d + 1);
      var childLine := "  " + Spaces(d * TabSize) + FormatDebug(c) + "\n";
      && at + |dc| <= |Dump(n, d)| && Dump(n, d)[at..at + |dc|] == dc
      && |childLine| <= |dc| && dc[..|childLine|] == childLine
  {
    ChildEmittedAt(Line, n, i, d);
    LineOneDeeper(n.children[i], d);
    DumpOpensWithLine(n.children[i], d + 1);
  }

  class DebugRenderer {
    /** The descender's depth counter, 0 between walks. */
    var depth: nat
    /** The text held by the string stream the lines are written to. */
    var renderer: string

    ghost predicate Valid()
      reads this
    {
      depth == 0
    }

    constructor ()
      ensures Valid() && renderer == ""
    {
      depth := 0;
      renderer := "";
    }

    /** render() as written: renderer.clear() only resets the stream's state flags, so the
        text of earlier calls stays in the buffer and the whole buffer is returned. */
    method Render(n: Node) returns (s: string)
      requires Valid()
      modifies this
      ensures Valid()
      ensures renderer == old(renderer) + Dump(n, 0) && s == renderer
    {
      Visit(n);
      s := renderer;
    }

    /** render() as evidently intended: the buffer is emptied before the walk. */
    method RenderFromEmpty(n: Node) returns (s: string)
      requires Valid()
      modifies this
      ensures Valid()
      ensures s == Dump(n, 0) && renderer == s
    {
      renderer := "";
      Visit(n);
      s := renderer;
    }

    /** append(): indentation of depth * TAB_SIZE spaces, the text and a newline. */
    method Append(text: string)
      modifies this
      ensures depth == old(depth)
      ensures renderer == old(renderer) + Spaces(depth * TabSize) + text + "\n"
    {
      renderer := renderer + Spaces(depth * TabSize) + text + "\n";
    }

    /** The on_enter overrides, identical for the three node kinds. */
    method OnEnter(n: Node)
      modifies this
      ensures depth == old(depth) && renderer == old(renderer) + Line(n, depth)
    {
      Append(FormatDebug(n));
    }

    /** The descender walk (the inherited final visit overloads) with these hooks; on_exit
        keeps its no-op default. */
    method Visit(n: Node)
      modifies this
      ensures depth == old(depth)
      ensures renderer == old(renderer) + Dump(n, old(depth))
      decreases n, 1
    {
      EmittedUnfolds(Line, n, depth);
      OnEnter(n);
      if !n.Literal? {
        depth := depth + 1;
        VisitChildren(n);
        depth := depth - 1;
        ConcatAssociates(old(renderer), Line(n, depth), EmittedChildren(Line, n, |n.children|, depth + 1));
      }
    }

    /** The children of a composite, visited in insertion order at the current depth. */
    method VisitChildren(n: Node)
      requires IsComposite(n)
      modifies this
      ensures depth == old(depth)
      ensures renderer == old(renderer) + EmittedChildren(Line, n, |n.children|, depth)
      decreases n, 0
    {
      var i := 0;
      while i < |n.children|
        invariant 0 <= i <= |n.children|
        invariant depth == old(depth)
        invariant renderer == old(renderer) + EmittedChildren(Line, n, i, depth)
      {
        Visit(n.children[i]);
        assert EmittedChildren(Line, n, i + 1, depth)
          == EmittedChildren(Line, n, i, depth) + Emitted(Line, n.children[i], depth);
        ConcatAssociates(old(renderer), EmittedChildren(Line, n, i, depth), Emitted(Line, n.children[i], depth));
        i := i + 1;
      }
    }
  }

  /** Rendering the same tree twice with one renderer returns its dump twice over. */
  method RenderTwice(n: Node) returns (first: string, second: string)
    ensures first == Dump(n, 0) && second == first + first
  {
    var r := new DebugRenderer();
    first := r.Render(n);
    second := r.Render(n);
  }

  /** With the buffer emptied first, the second rendering equals the first. */
  method RenderTwiceFromEmpty(n: Node) returns (first: string, second: string)
    ensures first == Dump(n, 0) && second == first
  {
    var r := new DebugRenderer();
    first := r.RenderFromEmpty(n);
    second := r.RenderFromEmpty(n);
  }
}

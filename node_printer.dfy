/** node_printer (src/node_printer.cpp): the printer used by the command-line front end and
    by the test visualisers. Its text is line for line the one debug_renderer writes, so it
    is specified by the same `Dump`. Its header, include/vole/node_printer.hpp, is not part
    of this model. */
module NodePrinting {
  import opened DataModel
  import opened Descender
  import opened DebugRender

  class NodePrinter {
    /** The descender's depth counter, 0 between walks. */
    var depth: nat
    /** The text held by the printer's string stream. */
    var renderer: string

    ghost predicate Valid()
      reads this
    {
      depth == 0
    }

    constructor ()
      ensures Valid() && renderer == ""
    {
      depth := 0;
      renderer := "";
    }

    /** render(): as in debug_renderer, clear() leaves the earlier text in the stream. */
    method Render(n: Node) returns (s: string)
      requires Valid()
      modifies this
      ensures Valid()
      ensures renderer == old(renderer) + Dump(n, 0) && s == renderer
    {
      Visit(n);
      s := renderer;
    }

    /** append(): depth * TAB_SIZE spaces, the text and a newline. */
    method Append(text: string)
      modifies this
      ensures depth == old(depth)
      ensures renderer == old(renderer) + Spaces(depth * TabSize) + text + "\n"
    {
      renderer := renderer + Spaces(depth * TabSize) + text + "\n";
    }

    /** The three on_enter overrides, each appending the node's format_debug(). */
    method OnEnter(n: Node)
      modifies this
      ensures depth == old(depth) && renderer == old(renderer) + Line(n, depth)
    {
      Append(FormatDebug(n));
    }

    /** The inherited descender walk; on_exit keeps its no-op default. */
    method Visit(n: Node)
      modifies this
      ensures depth == old(depth)
      ensures renderer == old(renderer) + Dump(n, old(depth))
      decreases n, 1
    {
      EmittedUnfolds(Line, n, depth);
      OnEnter(n);
      if !n.Literal? {
        depth := depth + 1;
        VisitChildren(n);
        depth := depth - 1;
        ConcatAssociates(old(renderer), Line(n, depth), EmittedChildren(Line, n, |n.children|, depth + 1));
      }
    }

    /** The children of a composite, visited in insertion order at the current depth. */
    method VisitChildren(n: Node)
      requires IsComposite(n)
      modifies this
      ensures depth == old(depth)
      ensures renderer == old(renderer) + EmittedChildren(Line, n, |n.children|, depth)
      decreases n, 0
    {
      var i := 0;
      while i < |n.children|
        invariant 0 <= i <= |n.children|
        invariant depth == old(depth)
        invariant renderer == old(renderer) + EmittedChildren(Line, n, i, depth)
      {
        Visit(n.children[i]);
        assert EmittedChildren(Line, n, i + 1, depth)
          == EmittedChildren(Line, n, i, depth) + Emitted(Line, n.children[i], depth);
        ConcatAssociates(old(renderer), EmittedChildren(Line, n, i, depth), Emitted(Line, n.children[i], depth));
        i := i + 1;
      }
    }
  }

  /** What the front end prints for a parsed tree: the dump, the root's label first and
      unindented, and one line per node when no name holds a newline. */
  method PrintTree(n: Node) returns (s: string)
    ensures s == Dump(n, 0)
    ensures NoNewlineInNames(n) ==> Newlines(s) == Size(n)
    ensures |FormatDebug(n) + "\n"| <= |s| && s[..|FormatDebug(n) + "\n"|] == FormatDebug(n) + "\n"
  {
    var printer := new NodePrinter();
    s := printer.Render(n);
    if NoNewlineInNames(n) {
      DumpLineCount(n, 0);
    }
    DumpStartsWithRootLine(n);
  }
}

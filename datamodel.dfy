/** The node tree: three node kinds, each with a fixed name (include/vole/datamodel.hpp,
    src/datamodel.cpp). A tree is a value of `Node`; the two composite kinds also exist as
    classes (`ArrayNode`, `ObjectNode`) whose `AddChild` pushes onto their child list in place. */
module DataModel {
  import opened Errors
  import Text

  /** literal_value: exactly one of bool, null, number (a double) or string. */
  datatype Value = Bool(b: bool) | Null | Number(n: real) | Str(s: string)

  /** A node and, for the composites, its ordered children. The name is a constructor
      argument and nothing can change it afterwards. */
  datatype Node =
    | Array(name: string, children: seq<Node>)
    | Object(name: string, children: seq<Node>)
    | Literal(name: string, value: Value)

  /** Arrays and objects can hold children; a literal cannot. */
  predicate IsComposite(n: Node) {
    !n.Literal?
  }

  /** Both nodes are of the same concrete class (and, for literals, hold the same
      alternative of the value variant). */
  predicate SameType(a: Node, b: Node) {
    (a.Array? && b.Array?) || (a.Object? && b.Object?)
    || (a.Literal? && b.Literal? && HeldType(a.value) == HeldType(b.value))
  }

  // ---------------------------------------------------------------------------
  // Visitors

  /** Double dispatch through a lambda visitor: the node calls exactly the callback
      of its own kind, handing it the node's parts. */
  function Visit<R>(n: Node,
                    onArray: (string, seq<Node>) -> R,
                    onLiteral: (string, Value) -> R,
                    onObject: (string, seq<Node>) -> R): (r: R)
    ensures n.Array? ==> r == onArray(n.name, n.children)
    ensures n.Literal? ==> r == onLiteral(n.name, n.value)
    ensures n.Object? ==> r == onObject(n.name, n.children)
  {
    match n
    case Array(name, cs) => onArray(name, cs)
    case Literal(name, v) => onLiteral(name, v)
    case Object(name, cs) => onObject(name, cs)
  }

  // ---------------------------------------------------------------------------
  // Labels and rendering

  function HeldType(v: Value): string {
    match v
    case Number(_) => "number"
    case Str(_) => "string"
    case Bool(_) => "bool"
    case Null => "null"
  }

  /** node::type() */
  function TypeName(n: Node): string {
    match n
    case Array(_, _) => "array_node"
    case Object(_, _) => "object_node"
    case Literal(_, v) => "literal_node<" + HeldType(v) + ">"
  }

  /** node::format_debug(): the type, then the name in braces. */
  function FormatDebug(n: Node): string {
    TypeName(n) + "{" + n.name + "}"
  }

  /** Two nodes have the same type label exactly when they are of the same type. */
  lemma TypeNameIdentifiesType(a: Node, b: Node)
    ensures TypeName(a) == TypeName(b) <==> SameType(a, b)
  {
    var ta, tb := TypeName(a), TypeName(b);
    if a.Literal? && b.Literal? {
      assert ta[13..|ta| - 1] == HeldType(a.value);
      assert tb[13..|tb| - 1] == HeldType(b.value);
    } else if !SameType(a, b) {
      assert ta[0] != tb[0];
    }
  }

  /** Type labels contain no opening brace and no line break. */
  lemma TypeNameHasNoBrace(n: Node)
    ensures forall i | 0 <= i < |TypeName(n)| :: TypeName(n)[i] != '{' && TypeName(n)[i] != '\n'
  {
    if n.Literal? {
      var t := TypeName(n);
      var h := HeldType(n.value);
      assert t == "literal_node<" + h + ">";
      forall i | 0 <= i < |t| ensures t[i] != '{' && t[i] != '\n' {
        if 13 <= i < 13 + |h| {
          assert t[i] == h[i - 13];
        }
      }
    }
  }

  /** A debug label determines the node's type label and its name: the first '{'
      separates them. */
  lemma {:induction false} FormatDebugDecodes(a: Node, b: Node)
    requires FormatDebug(a) == FormatDebug(b)
    ensures TypeName(a) == TypeName(b) && a.name == b.name
  {
    var ta, tb := TypeName(a), TypeName(b);
    var fa, fb := FormatDebug(a), FormatDebug(b);
    TypeNameHasNoBrace(a);
    TypeNameHasNoBrace(b);
    // |ta| and |tb| both locate the first '{' of the same text
    assert fa[|ta|] == '{' && forall i | 0 <= i < |ta| :: fa[i] == ta[i];
    assert fb[|tb|] == '{' && forall i | 0 <= i < |tb| :: fb[i] == tb[i];
    assert |ta| == |tb|;
    assert ta == fa[..|ta|] && tb == fb[..|tb|];
    assert a.name == fa[|ta| + 1 .. |fa| - 1];
    assert b.name == fb[|tb| + 1 .. |fb| - 1];
  }

  /** A double with no fractional part. */
  predicate Integral(x: real) {
    x.Floor as real == x
  }

  /** literal_node::render(): strings verbatim, booleans as true/false, null as null,
      integral numbers as their decimal digits and other numbers as std::to_string gives
      them (six decimals). */
  function Render(n: Node): (r: string)
    requires n.Literal?
    ensures n.value.Str? ==> r == n.value.s
    ensures n.value.Bool? ==> r == (if n.value.b then "true" else "false")
    ensures n.value.Null? ==> r == "null"
  {
    match n.value
    case Number(x) => if Integral(x) then Text.IntToString(x.Floor) else Text.FixedSix(x)
    case Str(s) => s
    case Bool(b) => if b then "true" else "false"
    case Null => "null"
  }

  /** The rendering of an integral number has no decimal point and reads back as the number. */
  lemma RenderIntegralRoundTrip(name: string, x: real)
    requires Integral(x)
    ensures var r := Render(Literal(name, Number(x)));
      Text.IsIntText(r) && Text.ParseInt(r) as real == x && '.' !in r
  {
    Text.IntRoundTrip(x.Floor);
  }

  /** A non-string rendering starts with a sign or a digit exactly when it is a number. */
  lemma RenderStartsNumeric(n: Node)
    requires n.Literal? && !n.value.Str?
    ensures |Render(n)| > 0
    ensures n.value.Number? <==> (Render(n)[0] == '-' || Text.IsDigit(Render(n)[0]))
  {
  }

  /** A number renders with a decimal point exactly when it has a fractional part; the
      fractional text reads back within half a millionth of the number. */
  lemma RenderShowsFraction(name: string, x: real)
    ensures var r := Render(Literal(name, Number(x)));
      ('.' in r <==> !Integral(x))
      && (!Integral(x) ==>
            var sign := if x < 0.0 then 1 else 0;
            var p := |r| - 7;
            sign < p && r[p] == '.' && Text.AllDigits(r[sign..p]) && Text.AllDigits(r[p + 1..])
            && var back := Text.ParseNat(r[sign..p]) * 1000000 + Text.ParseNat(r[p + 1..]);
               -0.5 <= back as real - Text.Abs(x) * 1000000.0 <= 0.5)
  {
    if Integral(x) {
      RenderIntegralRoundTrip(name, x);
    } else {
      Text.FixedSixReadsBack(x);
    }
  }

  lemma TwoHundredText()
    ensures Text.NatToString(200) == "200"
  {
    assert Text.NatToString(2) == "2";
    assert Text.NatToString(20) == "20";
  }

  lemma QuarterMillionths()
    ensures Text.Millionths(200.25) == 200250000
  {
    assert Text.Abs(200.25) * 1000000.0 == 200250000.0;
    assert (200250000.0).Floor == 200250000;
  }

  lemma QuarterDecimals()
    ensures Text.Padded(250000, 6) == "250000"
  {
    assert Text.Padded(2, 1) == "2";
    assert Text.Padded(25, 2) == "25";
    assert Text.Padded(250, 3) == "250";
    assert Text.Padded(2500, 4) == "2500";
    assert Text.Padded(25000, 5) == "25000";
  }

  lemma TwoHundredAndAQuarterText()
    ensures Text.FixedSix(200.25) == "200.250000"
  {
    QuarterMillionths();
    QuarterDecimals();
    TwoHundredText();
    var k := Text.Millionths(200.25);
    assert k / 1000000 == 200 && k % 1000000 == 250000;
    assert Text.UnsignedFixed(k) == "200" + "." + "250000";
  }

  /** The render tests: a string renders verbatim, 200.0 renders as "200" and 200.25
      starts with "200.250". */
  lemma RenderScenarios()
    ensures Render(Literal("RootNode", Str("Hello!"))) == "Hello!"
    ensures Render(Literal("WholeNumber", Number(200.0))) == "200"
    ensures var r := Render(Literal("RootNode", Number(200.25))); |r| >= 7 && r[..7] == "200.250"
  {
    TwoHundredText();
    TwoHundredAndAQuarterText();
    assert !Integral(200.25) by {
      assert (200.25).Floor == 200;
    }
  }

  /** Apart from strings, which render verbatim, rendering loses nothing: two non-string
      literals with the same rendering hold the same value. */
  lemma {:induction false} RenderDeterminesNonStringValue(a: Node, b: Node)
    requires a.Literal? && b.Literal? && !a.value.Str? && !b.value.Str?
    requires a.value.Number? ==> Integral(a.value.n)
    requires b.value.Number? ==> Integral(b.value.n)
    requires Render(a) == Render(b)
    ensures a.value == b.value
  {
    RenderStartsNumeric(a);
    RenderStartsNumeric(b);
    if a.value.Number? {
      Text.IntRoundTrip(a.value.n.Floor);
      Text.IntRoundTrip(b.value.n.Floor);
    }
  }

  // ---------------------------------------------------------------------------
  // Equality

  /** operator== of the three classes: the other node must be of the same class and have
      the same name; literals compare their values, composites their child counts and
      then their children pairwise in order. operator!= is its negation. */
  function Equal(a: Node, b: Node): (r: bool)
    ensures r ==> a.name == b.name
    ensures r ==> (a.Array? <==> b.Array?) && (a.Object? <==> b.Object?) && (a.Literal? <==> b.Literal?)
    decreases a
  {
    match a
    case Array(name, cs) =>
      b.Array? && name == b.name && |cs| == |b.children|
      && forall i | 0 <= i < |cs| :: Equal(cs[i], b.children[i])
    case Literal(name, v) =>
      b.Literal? && name == b.name && v == b.value
    case Object(name, cs) =>
      b.Object? && name == b.name && |cs| == |b.children|
      && forall i | 0 <= i < |cs| :: Equal(cs[i], b.children[i])
  }

  /** Structural equality is exactly equality of tree values. */
  lemma {:induction false} EqualIsStructural(a: Node, b: Node)
    ensures Equal(a, b) <==> a == b
    decreases a
  {
    match a
    case Literal(_, _) =>
    case Array(name, cs) =>
      if b.Array? && |cs| == |b.children| {
        forall i | 0 <= i < |cs| ensures Equal(cs[i], b.children[i]) <==> cs[i] == b.children[i] {
          EqualIsStructural(cs[i], b.children[i]);
        }
        if Equal(a, b) {
          assert cs == b.children;
        }
      }
    case Object(name, cs) =>
      if b.Object? && |cs| == |b.children| {
        forall i | 0 <= i < |cs| ensures Equal(cs[i], b.children[i]) <==> cs[i] == b.children[i] {
          EqualIsStructural(cs[i], b.children[i]);
        }
        if Equal(a, b) {
          assert cs == b.children;
        }
      }
  }

  lemma {:induction false} EqualReflexive(a: Node)
    ensures Equal(a, a)
  {
    EqualIsStructural(a, a);
  }

  lemma {:induction false} EqualSymmetric(a: Node, b: Node)
    ensures Equal(a, b) == Equal(b, a)
  {
    EqualIsStructural(a, b);
    EqualIsStructural(b, a);
  }

  lemma {:induction false} EqualTransitive(a: Node, b: Node, c: Node)
    requires Equal(a, b) && Equal(b, c)
    ensures Equal(a, c)
  {
    EqualIsStructural(a, b);
    EqualIsStructural(b, c);
    EqualIsStructural(a, c);
  }

  // ---------------------------------------------------------------------------
  // Children

  /** Some child carries the name `name`. */
  predicate HasChild(children: seq<Node>, name: string) {
    exists k | 0 <= k < |children| :: children[k].name == name
  }

  /** No two children share a name. */
  predicate DistinctNames(children: seq<Node>) {
    forall i, j | 0 <= i < j < |children| :: children[i].name != children[j].name
  }

  /** The find_if over the children by name: the position of the first child with that
      name, if there is one. */
  function FindByName(children: seq<Node>, name: string): (r: Option<nat>)
    ensures r.Some? ==> r.value < |children| && children[r.value].name == name
    ensures r.Some? ==> forall k | 0 <= k < r.value :: children[k].name != name
    ensures r.None? <==> !HasChild(children, name)
  {
    if children == [] then None
    else if children[0].name == name then Some(0)
    else match FindByName(children[1..], name)
      case Some(k) => Some(k + 1)
      case None => None
  }

  /** array_node::get_child(index): the child at `index`, or NoSuchElement past the end. */
  function ArrayChild(children: seq<Node>, index: nat): (r: Result<Node>)
    ensures r.Ok? <==> index < |children|
    ensures r.Ok? ==> r.value == children[index]
    ensures r.Err? ==> r.error == NoSuchElement
  {
    if index < |children| then Ok(children[index]) else Err(NoSuchElement)
  }

  /** object_node::get_child(name): the first child with that name, or NoSuchElement. */
  function ObjectChild(children: seq<Node>, name: string): (r: Result<Node>)
    ensures r.Ok? <==> HasChild(children, name)
    ensures r.Ok? ==> r.value.name == name && r.value in children
    ensures r.Ok? ==> r.value == children[FindByName(children, name).value]
    ensures r.Err? ==> r.error == NoSuchElement
  {
    match FindByName(children, name)
    case Some(k) => Ok(children[k])
    case None => Err(NoSuchElement)
  }

  /** object_node::add_child on a child list: DuplicateKey if the name is taken,
      otherwise the list with the child appended. */
  function ObjectInsert(children: seq<Node>, child: Node): (r: Result<seq<Node>>)
    ensures r.Err? <==> HasChild(children, child.name)
    ensures r.Err? ==> r.error == DuplicateKey
    ensures r.Ok? ==> r.value == children + [child]
  {
    if FindByName(children, child.name).Some? then Err(DuplicateKey) else Ok(children + [child])
  }

  /** Inserting into an object keeps its child names pairwise distinct. */
  lemma ObjectInsertKeepsNamesDistinct(children: seq<Node>, child: Node)
    requires DistinctNames(children) && ObjectInsert(children, child).Ok?
    ensures DistinctNames(ObjectInsert(children, child).value)
  {
  }

  /** After a successful insert, looking the new name up yields the new child, and every
      other name is found as before. */
  lemma {:induction false} ObjectInsertThenLookUp(children: seq<Node>, child: Node, name: string)
    requires ObjectInsert(children, child).Ok?
    ensures var after := ObjectInsert(children, child).value;
      ObjectChild(after, name) == (if name == child.name then Ok(child) else ObjectChild(children, name))
  {
    var after := children + [child];
    var f := FindByName(after, name);
    var g := FindByName(children, name);
    if g.Some? {
      assert after[g.value] == children[g.value];
      assert f.value <= g.value;
      assert children[f.value].name == name;
    } else if name == child.name {
      assert after[|children|].name == name;
      assert forall k | 0 <= k < |children| :: after[k].name != name;
    } else {
      forall k | 0 <= k < |after| ensures after[k].name != name {
        if k < |children| {
          assert after[k] == children[k];
        }
      }
    }
  }

  /** After appending to an array, the new child sits at the old length and every earlier
      index still yields the child it did. */
  lemma ArrayAppendThenIndex(children: seq<Node>, child: Node, index: nat)
    ensures ArrayChild(children + [child], index)
      == (if index == |children| then Ok(child) else ArrayChild(children, index))
  {
  }

  /** Every object in the tree has pairwise distinct child names (the invariant that
      object_node::add_child enforces). */
  predicate WellKeyed(n: Node)
    decreases n
  {
    match n
    case Literal(_, _) => true
    case Array(_, cs) => forall i | 0 <= i < |cs| :: WellKeyed(cs[i])
    case Object(_, cs) => DistinctNames(cs) && forall i | 0 <= i < |cs| :: WellKeyed(cs[i])
  }

  // ---------------------------------------------------------------------------
  // The composite classes, mutated in place

  /** array_node: an ordered child list in which names may repeat. */
  class ArrayNode {
    const name: string
    var children: seq<Node>

    /** make_array(name) */
    constructor (name: string)
      ensures this.name == name && children == []
    {
      this.name := name;
      children := [];
    }

    /** Always appends, even when a child of that name already exists. */
    method AddChild(child: Node)
      modifies this
      ensures children == old(children) + [child]
    {
      children := children + [child];
    }

    function GetChild(index: nat): Result<Node>
      reads this
    {
      ArrayChild(children, index)
    }

    function AsNode(): (n: Node)
      reads this
      ensures n.Array? && n.name == name && n.children == children
    {
      Array(name, children)
    }
  }

  /** object_node: an ordered child list whose names are pairwise distinct. */
  class ObjectNode {
    const name: string
    var children: seq<Node>

    ghost predicate Valid()
      reads this
    {
      DistinctNames(children)
    }

    /** make_object(name) */
    constructor (name: string)
      ensures Valid() && this.name == name && children == []
    {
      this.name := name;
      children := [];
    }

    /** Raises DuplicateKey, leaving the children as they were, when a child of that name
      exists; otherwise appends exactly the one child. */
    method AddChild(child: Node) returns (r: Outcome)
      requires Valid()
      modifies this
      ensures Valid()
      ensures r.Fail? <==> HasChild(old(children), child.name)
      ensures r.Fail? ==> r.error == DuplicateKey && children == old(children)
      ensures r.Pass? ==> children == old(children) + [child]
    {
      var existing := FindByName(children, child.name);
      if existing.Some? {
        return Fail(DuplicateKey);
      }
      children := children + [child];
      return Pass;
    }

    function GetChild(name: string): Result<Node>
      reads this
    {
      ObjectChild(children, name)
    }

    function AsNode(): (n: Node)
      reads this
      ensures n.Object? && n.name == name && n.children == children
    {
      Object(name, children)
    }
  }

  /** The tests' first scenario for get_child: two children added to an array are found at
      indices 0 and 1 and index 2 is NoSuchElement; added to an object, each is found by name. */
  method GetChildScenario() returns (a0: Result<Node>, a1: Result<Node>, a2: Result<Node>,
                                     o1: Result<Node>, o2: Result<Node>)
    ensures a0 == Ok(Literal("Child1", Str("I am one"))) && a1 == Ok(Literal("Child2", Number(2.0)))
    ensures a2 == Err(NoSuchElement)
    ensures o1 == Ok(Literal("Child1", Str("I am one"))) && o2 == Ok(Literal("Child2", Number(2.0)))
  {
    var child1 := Literal("Child1", Str("I am one"));
    var child2 := Literal("Child2", Number(2.0));
    var arr := new ArrayNode("RootNode");
    arr.AddChild(child1);
    arr.AddChild(child2);
    a0, a1, a2 := arr.GetChild(0), arr.GetChild(1), arr.GetChild(2);
    var obj := new ObjectNode("RootNode");
    var r1 := obj.AddChild(child1);
    var r2 := obj.AddChild(child2);
    assert obj.children == [child1, child2];
    o1, o2 := obj.GetChild("Child1"), obj.GetChild("Child2");
  }

  /** Regrouping a concatenation; the walks and renderings are built by appending. */
  lemma ConcatAssociates<T>(a: seq<T>, b: seq<T>, c: seq<T>)
    ensures (a + b) + c == a + (b + c)
  {
  }

  /** If `all` begins with `pre + x`, then `x` sits in `head + all` right after `head + pre`. */
  lemma BlockAt<T>(head: seq<T>, pre: seq<T>, x: seq<T>, all: seq<T>)
    requires |pre + x| <= |all| && all[..|pre + x|] == pre + x
    ensures var w, at := head + all, |head + pre|;
      at + |x| <= |w| && w[at..at + |x|] == x && w[..|head|] == head
  {
    var w, at := head + all, |head| + |pre|;
    assert w[at..at + |x|] == all[|pre|..|pre| + |x|];
    assert all[|pre|..|pre| + |x|] == (pre + x)[|pre|..];
  }
}

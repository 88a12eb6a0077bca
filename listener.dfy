/** json_sax_listener and json_parser::parse (src/datamodel_parsers.cpp): the handlers the
    JSON library calls while it reads a document, each turning one event into a node for the
    tree builder, and the naming rule for nodes that have no key. The JSON tokenizer itself
    is outside the model: a document is given as the sequence of events it produces. */
module JsonListener {
  import opened Errors
  import opened DataModel
  import opened TreeBuilder
  import Text

  /** The SAX callbacks, one constructor per handler. Integers are the library's signed
      and unsigned 64-bit values, floats are doubles. */
  datatype Event =
    | NullEvent
    | BooleanEvent(b: bool)
    | IntegerEvent(i: int)
    | UnsignedEvent(u: nat)
    | FloatEvent(x: real)
    | StringEvent(s: string)
    | BinaryEvent
    | StartObjectEvent
    | KeyEvent(key: string)
    | EndObjectEvent
    | StartArrayEvent
    | EndArrayEvent
    | ParseErrorEvent

  /** Events that carry one value and become a literal. */
  predicate IsScalarEvent(e: Event) {
    e.NullEvent? || e.BooleanEvent? || e.IntegerEvent? || e.UnsignedEvent?
    || e.FloatEvent? || e.StringEvent?
  }

  /** Events whose handler creates a node. */
  predicate IsValueEvent(e: Event) {
    IsScalarEvent(e) || e.StartArrayEvent? || e.StartObjectEvent?
  }

  /** The type word the handler hands to gen_node_name. */
  function Label(e: Event): string
    requires IsValueEvent(e)
  {
    match e
    case NullEvent => "Null"
    case BooleanEvent(_) => "Boolean"
    case StringEvent(_) => "String"
    case StartArrayEvent => "Array"
    case StartObjectEvent => "Object"
    case _ => "Number"
  }

  /** The node a value handler should build: a literal holding the event's value (integers
      converted to double) or an empty composite. */
  function NewNode(e: Event, name: string): (n: Node)
    requires IsValueEvent(e)
    ensures n.name == name
    ensures IsComposite(n) <==> !IsScalarEvent(e)
    ensures IsComposite(n) ==> n.children == [] && (n.Array? <==> e.StartArrayEvent?)
    ensures e.NullEvent? ==> n.Literal? && n.value == Null
    ensures e.BooleanEvent? ==> n.Literal? && n.value == Bool(e.b)
    ensures e.IntegerEvent? ==> n.Literal? && n.value == Number(e.i as real)
    ensures e.UnsignedEvent? ==> n.Literal? && n.value == Number(e.u as real)
    ensures e.FloatEvent? ==> n.Literal? && n.value == Number(e.x)
    ensures e.StringEvent? ==> n.Literal? && n.value == Str(e.s)
  {
    match e
    case NullEvent => Literal(name, Null)
    case BooleanEvent(b) => Literal(name, Bool(b))
    case IntegerEvent(i) => Literal(name, Number(i as real))
    case UnsignedEvent(u) => Literal(name, Number(u as real))
    case FloatEvent(x) => Literal(name, Number(x))
    case StringEvent(s) => Literal(name, Str(s))
    case StartArrayEvent => Array(name, [])
    case StartObjectEvent => Object(name, [])
  }

  /** The node a value handler builds as written: the boolean handler passes the constant
      `true` to make_literal and drops the value it was given; every other handler builds
      `NewNode`. The two differ exactly on a `false`. */
  function HandlerNode(e: Event, name: string): (n: Node)
    requires IsValueEvent(e)
    ensures n.name == name
    ensures IsComposite(n) <==> !IsScalarEvent(e)
    ensures e.BooleanEvent? ==> n == Literal(name, Bool(true))
    ensures n == NewNode(e, name) <==> e != BooleanEvent(false)
  {
    if e.BooleanEvent? then Literal(name, Bool(true)) else NewNode(e, name)
  }

  /** A `false` in the document comes out as `true` from the handler as written, where the
      intended node holds `false`. */
  lemma BooleanFalseBecomesTrue()
    ensures HandlerNode(BooleanEvent(false), "RootNode").value == Bool(true)
    ensures NewNode(BooleanEvent(false), "RootNode").value == Bool(false)
  {
  }

  // ---------------------------------------------------------------------------
  // Node names

  /** The name of the element an array is about to receive at position `index`. */
  function ElementName(arrayName: string, index: nat): string {
    arrayName + "[" + Text.NatToString(index) + "]"
  }

  /** The name of the `count`-th node that has neither a key nor an array parent. */
  function UnnamedName(kind: string, count: nat): string {
    "Unnamed" + kind + Text.NatToString(count)
  }

  /** An array's elements get pairwise distinct names. */
  lemma ElementNamesDistinct(arrayName: string, i: nat, j: nat)
    ensures ElementName(arrayName, i) == ElementName(arrayName, j) <==> i == j
  {
    var si, sj := ElementName(arrayName, i), ElementName(arrayName, j);
    if si == sj {
      var p := |arrayName| + 1;
      assert si[p..|si| - 1] == Text.NatToString(i);
      assert sj[p..|sj| - 1] == Text.NatToString(j);
      Text.NatToStringInjective(i, j);
    }
  }

  /** Unnamed nodes of one kind get pairwise distinct names. */
  lemma UnnamedNamesDistinct(kind: string, c: nat, d: nat)
    ensures UnnamedName(kind, c) == UnnamedName(kind, d) <==> c == d
  {
    var sc, sd := UnnamedName(kind, c), UnnamedName(kind, d);
    if sc == sd {
      var p := 7 + |kind|;
      assert sc[p..] == Text.NatToString(c);
      assert sd[p..] == Text.NatToString(d);
      Text.NatToStringInjective(c, d);
    }
  }

  // ---------------------------------------------------------------------------
  // The listener's state and one step of it

  /** The builder, last_key and unnamed_object_count. */
  datatype ListenerState = ListenerState(builder: BuilderState, lastKey: Option<string>, unnamedCount: nat)

  /** A new listener: nothing built, the key "RootNode" waiting for the first node. */
  function Initial(): ListenerState {
    ListenerState(Fresh(), Some("RootNode"), 0)
  }

  /** gen_node_name is defined: there is a pending key, or a last parent to ask (back() on
      an empty stack is undefined). */
  predicate CanName(st: ListenerState) {
    st.lastKey.Some? || st.builder.stack != []
  }

  /** gen_node_name(type): the pending key, used once; else, under an array, the index the
      node is about to take; else "Unnamed", the type word and a running counter. */
  function GenName(st: ListenerState, kind: string): (r: (string, ListenerState))
    requires CanName(st)
    ensures r.1.builder == st.builder && r.1.lastKey.None?
    ensures st.lastKey.Some? ==> r.0 == st.lastKey.value && r.1.unnamedCount == st.unnamedCount
    ensures st.lastKey.None? && Top(st.builder).Array? ==>
      r.0 == ElementName(Top(st.builder).name, |Top(st.builder).children|)
      && r.1.unnamedCount == st.unnamedCount
    ensures st.lastKey.None? && !Top(st.builder).Array? ==>
      r.0 == UnnamedName(kind, st.unnamedCount) && r.1.unnamedCount == st.unnamedCount + 1
  {
    if st.lastKey.Some? then (st.lastKey.value, st.(lastKey := None))
    else
      var top := Top(st.builder);
      if top.Array? then (ElementName(top.name, |top.children|), st)
      else (UnnamedName(kind, st.unnamedCount), st.(unnamedCount := st.unnamedCount + 1))
  }

  /** The handler for `e` is defined in state `st`: value handlers must be able to name
      their node and the end handlers need an open parent to pop. */
  predicate Defined(st: ListenerState, e: Event) {
    (IsValueEvent(e) ==> CanName(st))
    && (e.EndArrayEvent? || e.EndObjectEvent? ==> st.builder.stack != [])
  }

  /** The state after one handler, or the exception it throws. */
  function Step(st: ListenerState, e: Event): (r: Result<ListenerState>)
    requires Defined(st, e)
    ensures (e.BinaryEvent? || e.ParseErrorEvent?) ==> r == Err(UnsupportedElement)
    ensures e.KeyEvent? ==> r == Ok(st.(lastKey := Some(e.key)))
    ensures e.EndArrayEvent? || e.EndObjectEvent? ==> r == Ok(st.(builder := Closed(st.builder)))
  {
    match e
    case BinaryEvent => Err(UnsupportedElement)
    case ParseErrorEvent => Err(UnsupportedElement)
    case KeyEvent(k) => Ok(st.(lastKey := Some(k)))
    case EndArrayEvent => Ok(st.(builder := Closed(st.builder)))
    case EndObjectEvent => Ok(st.(builder := Closed(st.builder)))
    case _ => AddValue(st, e)
  }

  /** A value handler: gen_node_name, the new node as the handler builds it, and
      builder.add_child. */
  function AddValue(st: ListenerState, e: Event): (r: Result<ListenerState>)
    requires IsValueEvent(e) && CanName(st)
    ensures var n := HandlerNode(e, GenName(st, Label(e)).0);
      && (r.Err? <==> Added(st.builder, n).Err?)
      && (r.Err? ==> r.error == Added(st.builder, n).error)
      && (r.Ok? ==> r.value == GenName(st, Label(e)).1.(builder := Added(st.builder, n).value))
  {
    var (name, st') := GenName(st, Label(e));
    match Added(st'.builder, HandlerNode(e, name))
    case Err(err) => Err(err)
    case Ok(b) => Ok(st'.(builder := b))
  }

  /** `after` is the stack `before` with `n` added by add_child: on an empty stack `n` is
      the only entry; otherwise the old top, at the same place, holds `n` as a new last
      child, and `n` sits above it exactly when it is a composite. */
  predicate AddedAs(before: seq<Node>, after: seq<Node>, n: Node) {
    if before == [] then after == [n]
    else
      var k := |before| - 1;
      && |after| == |before| + (if IsComposite(n) then 1 else 0)
      && after[..k] == before[..k]
      && IsComposite(before[k]) && IsComposite(after[k]) && after[k].name == before[k].name
      && after[k].Array? == before[k].Array?
      && after[k].children == before[k].children + [n]
      && (IsComposite(n) ==> after[k + 1] == n)
  }

  /** The naming rule seen on the stack: a successful value handler adds its node named
      by the pending key, which it clears; with no key, under an array with children `cs`
      the node becomes child |cs| named `name[|cs|]`; under an object it is named
      `Unnamed<type><n>` and the counter moves on. */
  lemma {:induction false} AddValueNames(st: ListenerState, e: Event)
    requires IsValueEvent(e) && CanName(st) && AddValue(st, e).Ok?
    ensures var r := AddValue(st, e).value;
      && r.lastKey == None
      && (st.lastKey.Some? ==>
            AddedAs(st.builder.stack, r.builder.stack, HandlerNode(e, st.lastKey.value))
            && r.unnamedCount == st.unnamedCount)
      && (st.lastKey.None? ==> Top(st.builder).Array? || Top(st.builder).Object?)
      && (st.lastKey.None? && Top(st.builder).Array? ==>
            var cs := Top(st.builder).children;
            AddedAs(st.builder.stack, r.builder.stack, HandlerNode(e, ElementName(Top(st.builder).name, |cs|)))
            && r.builder.stack[|st.builder.stack| - 1].children[|cs|].name == ElementName(Top(st.builder).name, |cs|)
            && r.unnamedCount == st.unnamedCount)
      && (st.lastKey.None? && Top(st.builder).Object? ==>
            AddedAs(st.builder.stack, r.builder.stack, HandlerNode(e, UnnamedName(Label(e), st.unnamedCount)))
            && r.unnamedCount == st.unnamedCount + 1)
  {
    var (name, st') := GenName(st, Label(e));
    var n := HandlerNode(e, name);
    var b := st.builder;
    if b.stack != [] {
      var k := |b.stack| - 1;
      var top := b.stack[k];
      assert Added(b, n).Ok?;
      var top' := Attach(top, n).value;
      assert Added(b, n).value.stack == b.stack[..k] + [top'] + (if Opens(n) then [n] else []);
    }
  }

  /** Every handler along the way is defined. */
  predicate RunDefined(st: ListenerState, events: seq<Event>)
    decreases |events|
  {
    events == []
    || (Defined(st, events[0])
        && (Step(st, events[0]).Ok? ==> RunDefined(Step(st, events[0]).value, events[1..])))
  }

  /** The handlers applied in order; the first exception ends the run. */
  function Run(st: ListenerState, events: seq<Event>): Result<ListenerState>
    requires RunDefined(st, events)
    decreases |events|
  {
    if events == [] then Ok(st)
    else match Step(st, events[0])
      case Err(e) => Err(e)
      case Ok(st') => Run(st', events[1..])
  }

  /** json_parser::parse: the built node, or the exception that ended the parse. */
  function Parsed(events: seq<Event>): Result<Option<Node>>
    requires RunDefined(Initial(), events)
  {
    match Run(Initial(), events)
    case Err(e) => Err(e)
    case Ok(st) => Ok(Root(st.builder))
  }

  /** Running one event and then the rest. */
  lemma RunCons(st: ListenerState, e: Event, rest: seq<Event>)
    requires Defined(st, e)
    requires Step(st, e).Ok? ==> RunDefined(Step(st, e).value, rest)
    ensures RunDefined(st, [e] + rest)
    ensures Run(st, [e] + rest) == if Step(st, e).Ok? then Run(Step(st, e).value, rest) else Step(st, e)
  {
    assert ([e] + rest)[0] == e && ([e] + rest)[1..] == rest;
  }

  /** Running two stretches of events one after the other. */
  lemma {:induction false} RunAppend(st: ListenerState, a: seq<Event>, b: seq<Event>)
    requires RunDefined(st, a)
    requires Run(st, a).Ok? ==> RunDefined(Run(st, a).value, b)
    ensures RunDefined(st, a + b)
    ensures Run(st, a + b) == if Run(st, a).Ok? then Run(Run(st, a).value, b) else Run(st, a)
    decreases |a|
  {
    if a == [] {
      assert a + b == b;
    } else {
      assert (a + b)[0] == a[0] && (a + b)[1..] == a[1..] + b;
      if Step(st, a[0]).Ok? {
        RunAppend(Step(st, a[0]).value, a[1..], b);
      }
    }
  }

  /** The listener's fields after a handler threw: gen_node_name has already run for a value
      handler, while the builder refused the node and is unchanged. */
  function Thrown(st: ListenerState, e: Event): (r: ListenerState)
    requires Defined(st, e)
    ensures r.builder == st.builder
  {
    if IsValueEvent(e) then GenName(st, Label(e)).1 else st
  }

  /** One handler call in state `st` returned `r` and left the listener in state `after`:
      the next state when the step succeeds, the thrown error otherwise. */
  predicate Follows(st: ListenerState, e: Event, r: Outcome, after: ListenerState)
    requires Defined(st, e)
  {
    match Step(st, e)
    case Ok(next) => r == Pass && after == next
    case Err(err) => r == Fail(err) && after == Thrown(st, e)
  }

  // ---------------------------------------------------------------------------
  // What every run guarantees

  /** The builder's stack keeps its shape and the tree it shows has no object with two
      children of the same name. */
  predicate Sound(st: ListenerState) {
    ValidState(st.builder) && (Root(st.builder).Some? ==> WellKeyed(Root(st.builder).value))
  }

  lemma StepKeepsSound(st: ListenerState, e: Event)
    requires Sound(st) && Defined(st, e) && Step(st, e).Ok?
    ensures Sound(Step(st, e).value)
  {
    if e.EndArrayEvent? || e.EndObjectEvent? {
      ClosedKeepsValid(st.builder);
      ClosedKeepsTree(st.builder);
    } else if IsValueEvent(e) {
      var (name, st') := GenName(st, Label(e));
      var n := HandlerNode(e, name);
      assert WellKeyed(n);
      AddedKeepsValid(st'.builder, n);
      AddedKeepsWellKeyed(st'.builder, n);
    }
  }

  lemma {:induction false} RunKeepsSound(st: ListenerState, events: seq<Event>)
    requires Sound(st) && RunDefined(st, events) && Run(st, events).Ok?
    ensures Sound(Run(st, events).value)
    decreases |events|
  {
    if events != [] {
      StepKeepsSound(st, events[0]);
      RunKeepsSound(Step(st, events[0]).value, events[1..]);
    }
  }

  /** Whatever the document, a parsed tree never holds an object with two members of the
      same name: a repeated key ends the parse with DuplicateKey instead. */
  lemma ParsedTreeIsWellKeyed(events: seq<Event>)
    requires RunDefined(Initial(), events) && Parsed(events).Ok? && Parsed(events).value.Some?
    ensures WellKeyed(Parsed(events).value.value)
  {
    RunKeepsSound(Initial(), events);
  }

  /** A handler fails only with the builder's two refusals or on unsupported input; a
      refusal to attach to a literal happens only when the document's root is a scalar
      and something follows it. */
  lemma StepErrors(st: ListenerState, e: Event)
    requires Sound(st) && Defined(st, e) && Step(st, e).Err?
    ensures Step(st, e).error in {DuplicateKey, InvalidOperation, UnsupportedElement}
    ensures Step(st, e).error == UnsupportedElement <==> e.BinaryEvent? || e.ParseErrorEvent?
    ensures Step(st, e).error == InvalidOperation ==>
      |st.builder.stack| == 1 && st.builder.stack[0].Literal?
    ensures Step(st, e).error == DuplicateKey ==>
      var top := st.builder.stack[|st.builder.stack| - 1];
      top.Object? && HasChild(top.children, GenName(st, Label(e)).0)
  {
    if IsValueEvent(e) {
      var n := HandlerNode(e, GenName(st, Label(e)).0);
      var b := st.builder;
      assert Added(b, n).Err?;
      assert b.stack != [];
      var top := b.stack[|b.stack| - 1];
      assert Step(st, e).error == Attach(top, n).error;
      if top.Literal? {
        assert |b.stack| == 1;
      }
    }
  }

  lemma {:induction false} RunErrors(st: ListenerState, events: seq<Event>)
    requires Sound(st) && RunDefined(st, events) && Run(st, events).Err?
    ensures Run(st, events).error in {DuplicateKey, InvalidOperation, UnsupportedElement}
    decreases |events|
  {
    if Step(st, events[0]).Err? {
      StepErrors(st, events[0]);
    } else {
      StepKeepsSound(st, events[0]);
      RunErrors(Step(st, events[0]).value, events[1..]);
    }
  }

  /** A parse never fails with NoSuchElement. */
  lemma ParseErrors(events: seq<Event>)
    requires RunDefined(Initial(), events) && Parsed(events).Err?
    ensures Parsed(events).error in {DuplicateKey, InvalidOperation, UnsupportedElement}
  {
    RunErrors(Initial(), events);
  }

  // ---------------------------------------------------------------------------
  // Documents of a known shape

  /** A document that is a single scalar is a lone literal named RootNode; it stays on the
      stack, so a second value is refused. */
  lemma ScalarDocument(e: Event, next: Event)
    requires IsScalarEvent(e) && IsValueEvent(next)
    ensures RunDefined(Initial(), [e]) && Parsed([e]) == Ok(Some(HandlerNode(e, "RootNode")))
    ensures var n := HandlerNode(e, "RootNode");
      Run(Initial(), [e]) == Ok(ListenerState(BuilderState([n], Some(n)), None, 0))
    ensures RunDefined(Initial(), [e, next]) && Parsed([e, next]) == Err(InvalidOperation)
  {
    var n := HandlerNode(e, "RootNode");
    assert GenName(Initial(), Label(e)) == ("RootNode", Initial().(lastKey := None));
    var st := Initial().(lastKey := None, builder := BuilderState([n], Some(n)));
    assert Step(Initial(), e) == Ok(st);
    RunCons(Initial(), e, []);
    assert [e] + [] == [e];
    assert Attach(n, HandlerNode(next, GenName(st, Label(next)).0)) == Err(InvalidOperation);
    assert Step(st, next) == Err(InvalidOperation);
    RunCons(st, next, []);
    RunCons(Initial(), e, [next]);
    assert [e] + [next] == [e, next] && [next] + [] == [next];
  }

  /** The document `false` parses to a literal holding `true`. */
  lemma FalseDocumentParsesToTrue()
    ensures RunDefined(Initial(), [BooleanEvent(false)])
    ensures Parsed([BooleanEvent(false)]) == Ok(Some(Literal("RootNode", Bool(true))))
  {
    ScalarDocument(BooleanEvent(false), NullEvent);
  }

  // ---------------------------------------------------------------------------
  // Balanced documents

  /** How an event changes the number of open containers. */
  function Delta(e: Event): int {
    if e.StartArrayEvent? || e.StartObjectEvent? then 1
    else if e.EndArrayEvent? || e.EndObjectEvent? then -1
    else 0
  }

  /** `events` close the `open` containers open before them, and only with their last event:
      the count of open containers stays positive until the final event brings it to 0. */
  predicate Closes(open: nat, events: seq<Event>)
    decreases |events|
  {
    && events != []
    && var after := open + Delta(events[0]);
       if |events| == 1 then after == 0 else after > 0 && Closes(after, events[1..])
  }

  /** The events of a document whose root is an array or an object: a start event and the
      events that close it. */
  predicate CompositeDocument(events: seq<Event>) {
    && events != []
    && (events[0].StartArrayEvent? || events[0].StartObjectEvent?)
    && Closes(1, events[1..])
  }

  /** The builder holds `open` entries, all arrays or objects, the bottom one named `name`. */
  predicate OpenComposites(b: BuilderState, open: nat, name: string) {
    && |b.stack| == open
    && (forall i | 0 <= i < open :: IsComposite(b.stack[i]))
    && (open > 0 ==> b.stack[0].name == name)
  }

  /** close_parent with `open` containers open. */
  lemma ClosedKeepsOpenComposites(b: BuilderState, open: nat, name: string)
    requires open > 0 && OpenComposites(b, open, name)
    ensures open > 1 ==> OpenComposites(Closed(b), open - 1, name)
    ensures open == 1 ==>
      Closed(b).stack == [] && Closed(b).root.Some?
      && IsComposite(Closed(b).root.value) && Closed(b).root.value.name == name
  {
    if open > 1 {
      var s, k := b.stack, |b.stack|;
      assert Closed(b).stack == s[..k - 2] + [Refreshed(s[k - 2], s[k - 1])];
      assert forall i | 0 <= i < k - 2 :: Closed(b).stack[i] == s[i];
    }
  }

  /** add_child with `open` containers open: a composite is pushed, a literal is not. */
  lemma AddedKeepsOpenComposites(b: BuilderState, open: nat, name: string, n: Node)
    requires open > 0 && OpenComposites(b, open, name) && Added(b, n).Ok?
    ensures OpenComposites(Added(b, n).value, open + (if IsComposite(n) then 1 else 0), name)
  {
    var s := b.stack;
    var top' := Attach(s[|s| - 1], n).value;
    var s' := Added(b, n).value.stack;
    assert s' == s[..|s| - 1] + [top'] + (if Opens(n) then [n] else []);
    assert forall i | 0 <= i < |s| - 1 :: s'[i] == s[i];
    assert s'[|s| - 1] == top';
  }

  /** One handler with `open` containers open keeps every entry of the stack a composite
      and the bottom one's name, and changes the count as `Delta` says. */
  lemma StepKeepsOpenComposites(st: ListenerState, open: nat, name: string, e: Event)
    requires open > 0 && OpenComposites(st.builder, open, name)
    ensures Defined(st, e)
    ensures Step(st, e).Ok? && open + Delta(e) > 0 ==>
      OpenComposites(Step(st, e).value.builder, open + Delta(e), name)
    ensures Step(st, e).Ok? && open + Delta(e) == 0 ==>
      var b := Step(st, e).value.builder;
      b.stack == [] && b.root.Some? && IsComposite(b.root.value) && b.root.value.name == name
  {
    if e.EndArrayEvent? || e.EndObjectEvent? {
      ClosedKeepsOpenComposites(st.builder, open, name);
    } else if IsValueEvent(e) && Step(st, e).Ok? {
      var (nm, st') := GenName(st, Label(e));
      AddedKeepsOpenComposites(st.builder, open, name, HandlerNode(e, nm));
    }
  }

  /** Events that close the `open` containers leave the stack empty and a composite root. */
  lemma {:induction false} ClosingRun(st: ListenerState, open: nat, name: string, events: seq<Event>)
    requires open > 0 && OpenComposites(st.builder, open, name) && Closes(open, events)
    ensures RunDefined(st, events)
    ensures Run(st, events).Ok? ==>
      var b := Run(st, events).value.builder;
      b.stack == [] && b.root.Some? && IsComposite(b.root.value) && b.root.value.name == name
    decreases |events|
  {
    var e := events[0];
    StepKeepsOpenComposites(st, open, name, e);
    if Step(st, e).Ok? {
      var st' := Step(st, e).value;
      if |events| > 1 {
        ClosingRun(st', open + Delta(e), name, events[1..]);
      } else {
        assert events[1..] == [];
      }
    }
  }

  /** A document whose root is an array or an object, read to the end without an exception,
      leaves the builder's stack empty, and its tree is an array or an object named
      RootNode. (A scalar root stays on the stack instead: see ScalarDocument.) */
  lemma CompositeDocumentEmptiesStack(events: seq<Event>)
    requires CompositeDocument(events)
    ensures RunDefined(Initial(), events)
    ensures Run(Initial(), events).Ok? ==> Run(Initial(), events).value.builder.stack == []
    ensures Parsed(events).Ok? ==>
      Parsed(events).value.Some? && IsComposite(Parsed(events).value.value)
      && Parsed(events).value.value.name == "RootNode"
  {
    var e := events[0];
    var n := HandlerNode(e, "RootNode");
    assert GenName(Initial(), Label(e)) == ("RootNode", Initial().(lastKey := None));
    var st := Initial().(lastKey := None, builder := BuilderState([n], Some(n)));
    assert Step(Initial(), e) == Ok(st);
    ClosingRun(st, 1, "RootNode", events[1..]);
    RunCons(Initial(), e, events[1..]);
    assert [e] + events[1..] == events;
  }

  /** The elements an array receives from a run of scalars, named by their positions. */
  function Elements(arrayName: string, start: nat, scalars: seq<Event>): (r: seq<Node>)
    requires forall i | 0 <= i < |scalars| :: IsScalarEvent(scalars[i])
    ensures |r| == |scalars|
    ensures forall i | 0 <= i < |r| :: r[i] == HandlerNode(scalars[i], ElementName(arrayName, start + i))
    decreases |scalars|
  {
    if scalars == [] then []
    else [HandlerNode(scalars[0], ElementName(arrayName, start))] + Elements(arrayName, start + 1, scalars[1..])
  }

  /** One scalar read inside an array without a pending key is appended under the index it
      takes. */
  lemma ScalarIntoArray(st: ListenerState, name: string, cs: seq<Node>, e: Event)
    requires IsScalarEvent(e) && st.lastKey.None? && st.builder.stack == [Array(name, cs)]
    ensures Defined(st, e)
    ensures Step(st, e)
      == Ok(st.(builder := st.builder.(stack := [Array(name, cs + [HandlerNode(e, ElementName(name, |cs|))])])))
  {
    var child := HandlerNode(e, ElementName(name, |cs|));
    assert GenName(st, Label(e)) == (ElementName(name, |cs|), st);
    assert Attach(Array(name, cs), child) == Ok(Array(name, cs + [child]));
    assert [] + [Array(name, cs + [child])] + [] == [Array(name, cs + [child])];
    assert Added(st.builder, child) == Ok(BuilderState([Array(name, cs + [child])], st.builder.root));
  }

  /** Scalars read inside an array without keys are appended to it in order, each named
      after the array and its index. */
  lemma {:induction false} ScalarsIntoArray(st: ListenerState, name: string, cs: seq<Node>, scalars: seq<Event>)
    requires forall i | 0 <= i < |scalars| :: IsScalarEvent(scalars[i])
    requires st.lastKey.None? && st.builder.stack == [Array(name, cs)]
    ensures RunDefined(st, scalars)
    ensures Run(st, scalars)
      == Ok(st.(builder := st.builder.(stack := [Array(name, cs + Elements(name, |cs|, scalars))])))
    decreases |scalars|
  {
    if scalars == [] {
      assert cs + [] == cs;
    } else {
      var e := scalars[0];
      var child := HandlerNode(e, ElementName(name, |cs|));
      var st' := st.(builder := st.builder.(stack := [Array(name, cs + [child])]));
      ScalarIntoArray(st, name, cs, e);
      ScalarsIntoArray(st', name, cs + [child], scalars[1..]);
      RunCons(st, e, scalars[1..]);
      assert [e] + scalars[1..] == scalars;
      var later := Elements(name, |cs| + 1, scalars[1..]);
      assert Elements(name, |cs|, scalars) == [child] + later;
      ConcatAssociates(cs, [child], later);
    }
  }

  /** `[v0, v1, ...]` of scalars parses to an array named RootNode whose elements are named
      RootNode[0], RootNode[1], ... */
  lemma {:induction false} ArrayOfScalars(scalars: seq<Event>)
    requires forall i | 0 <= i < |scalars| :: IsScalarEvent(scalars[i])
    ensures var doc := [StartArrayEvent] + scalars + [EndArrayEvent];
      RunDefined(Initial(), doc)
      && Parsed(doc) == Ok(Some(Array("RootNode", Elements("RootNode", 0, scalars))))
  {
    var open := Step(Initial(), StartArrayEvent).value;
    assert open.builder.stack == [Array("RootNode", [])];
    ScalarsIntoArray(open, "RootNode", [], scalars);
    var filled := Run(open, scalars).value;
    assert [] + Elements("RootNode", 0, scalars) == Elements("RootNode", 0, scalars);
    assert RunDefined(filled, [EndArrayEvent]);
    RunAppend(open, scalars, [EndArrayEvent]);
    assert [StartArrayEvent] + scalars + [EndArrayEvent] == [StartArrayEvent] + (scalars + [EndArrayEvent]);
  }

  /** The events of the members of an object: each key followed by its scalar value. */
  function Members(pairs: seq<(string, Event)>): seq<Event>
    decreases |pairs|
  {
    if pairs == [] then [] else [KeyEvent(pairs[0].0), pairs[0].1] + Members(pairs[1..])
  }

  /** The literals those members become. */
  function MemberNodes(pairs: seq<(string, Event)>): (r: seq<Node>)
    requires forall i | 0 <= i < |pairs| :: IsScalarEvent(pairs[i].1)
    ensures |r| == |pairs|
    ensures forall i | 0 <= i < |r| :: r[i] == HandlerNode(pairs[i].1, pairs[i].0)
    decreases |pairs|
  {
    if pairs == [] then [] else [HandlerNode(pairs[0].1, pairs[0].0)] + MemberNodes(pairs[1..])
  }

  lemma NamesAfterAppend(cs: seq<Node>, n: Node)
    requires DistinctNames(cs) && !HasChild(cs, n.name)
    ensures DistinctNames(cs + [n])
  {
  }

  /** One member read inside an object: the key is remembered and the value is appended
      under it, unless the object already has a member of that name. */
  lemma MemberIntoObject(st: ListenerState, name: string, cs: seq<Node>, k: string, v: Event)
    requires IsScalarEvent(v) && st.lastKey.None? && st.builder.stack == [Object(name, cs)]
    ensures Defined(st, KeyEvent(k)) && Step(st, KeyEvent(k)) == Ok(st.(lastKey := Some(k)))
    ensures Defined(st.(lastKey := Some(k)), v)
    ensures Step(st.(lastKey := Some(k)), v)
      == if HasChild(cs, k) then Err(DuplicateKey)
         else Ok(st.(builder := st.builder.(stack := [Object(name, cs + [HandlerNode(v, k)])])))
  {
    var keyed := st.(lastKey := Some(k));
    var child := HandlerNode(v, k);
    assert GenName(keyed, Label(v)) == (k, st);
    if !HasChild(cs, k) {
      assert Attach(Object(name, cs), child) == Ok(Object(name, cs + [child]));
      assert [] + [Object(name, cs + [child])] + [] == [Object(name, cs + [child])];
      assert Added(st.builder, child) == Ok(BuilderState([Object(name, cs + [child])], st.builder.root));
    }
  }

  /** Members read inside an object are appended in order under their keys; the first key
      already present ends the run with DuplicateKey. */
  lemma {:induction false} MembersIntoObject(st: ListenerState, name: string, cs: seq<Node>, pairs: seq<(string, Event)>)
    requires forall i | 0 <= i < |pairs| :: IsScalarEvent(pairs[i].1)
    requires st.lastKey.None? && st.builder.stack == [Object(name, cs)]
    requires DistinctNames(cs)
    ensures RunDefined(st, Members(pairs))
    ensures DistinctNames(cs + MemberNodes(pairs)) ==>
      Run(st, Members(pairs)) == Ok(st.(builder := st.builder.(stack := [Object(name, cs + MemberNodes(pairs))])))
    ensures !DistinctNames(cs + MemberNodes(pairs)) ==> Run(st, Members(pairs)) == Err(DuplicateKey)
    decreases |pairs|
  {
    if pairs == [] {
      assert cs + [] == cs;
    } else {
      var (k, v) := pairs[0];
      var child := HandlerNode(v, k);
      var rest := Members(pairs[1..]);
      assert Members(pairs) == [KeyEvent(k)] + ([v] + rest);
      var keyed := st.(lastKey := Some(k));
      MemberIntoObject(st, name, cs, k, v);
      assert cs + MemberNodes(pairs) == (cs + [child]) + MemberNodes(pairs[1..]);
      if HasChild(cs, k) {
        var i :| 0 <= i < |cs| && cs[i].name == k;
        assert (cs + MemberNodes(pairs))[i].name == (cs + MemberNodes(pairs))[|cs|].name;
        RunCons(keyed, v, rest);
      } else {
        var st' := st.(builder := st.builder.(stack := [Object(name, cs + [child])]));
        NamesAfterAppend(cs, child);
        MembersIntoObject(st', name, cs + [child], pairs[1..]);
        RunCons(keyed, v, rest);
      }
      RunCons(st, KeyEvent(k), [v] + rest);
    }
  }

  /** `{"k0": v0, "k1": v1, ...}` of scalars parses to an object named RootNode holding one
      literal per member, named by its key, when the keys are distinct; a repeated key makes
      the parse fail with DuplicateKey. */
  lemma {:induction false} ObjectOfScalars(pairs: seq<(string, Event)>)
    requires forall i | 0 <= i < |pairs| :: IsScalarEvent(pairs[i].1)
    ensures var doc := [StartObjectEvent] + Members(pairs) + [EndObjectEvent];
      RunDefined(Initial(), doc)
      && Parsed(doc) == if DistinctNames(MemberNodes(pairs))
                        then Ok(Some(Object("RootNode", MemberNodes(pairs))))
                        else Err(DuplicateKey)
  {
    assert GenName(Initial(), Label(StartObjectEvent)) == ("RootNode", Initial().(lastKey := None));
    var open := Step(Initial(), StartObjectEvent).value;
    assert open.builder.stack == [Object("RootNode", [])];
    assert [] + MemberNodes(pairs) == MemberNodes(pairs);
    MembersIntoObject(open, "RootNode", [], pairs);
    if Run(open, Members(pairs)).Ok? {
      assert RunDefined(Run(open, Members(pairs)).value, [EndObjectEvent]);
    }
    RunAppend(open, Members(pairs), [EndObjectEvent]);
    assert [StartObjectEvent] + Members(pairs) + [EndObjectEvent]
      == [StartObjectEvent] + (Members(pairs) + [EndObjectEvent]);
  }

  /** The members of the BasicObject test document and the literals they become. */
  function BasicObjectPairs(): seq<(string, Event)> {
    [("name", StringEvent("John")), ("age", UnsignedEvent(7)), ("alive", BooleanEvent(true))]
  }

  lemma BasicObjectEvents()
    ensures [StartObjectEvent] + Members(BasicObjectPairs()) + [EndObjectEvent]
      == [StartObjectEvent, KeyEvent("name"), StringEvent("John"), KeyEvent("age"),
          UnsignedEvent(7), KeyEvent("alive"), BooleanEvent(true), EndObjectEvent]
  {
    var pairs := BasicObjectPairs();
    assert Members(pairs[2..]) == [KeyEvent("alive"), BooleanEvent(true)] + Members([]);
    assert Members(pairs[1..]) == [KeyEvent("age"), UnsignedEvent(7)] + Members(pairs[2..]);
  }

  lemma BasicObjectNodes()
    ensures MemberNodes(BasicObjectPairs())
      == [Literal("name", Str("John")), Literal("age", Number(7.0)), Literal("alive", Bool(true))]
    ensures DistinctNames(MemberNodes(BasicObjectPairs()))
  {
    var nodes := MemberNodes(BasicObjectPairs());
    assert nodes[0] == Literal("name", Str("John"));
    assert nodes[1] == Literal("age", Number(7.0));
    assert nodes[2] == Literal("alive", Bool(true));
    assert |nodes[0].name| == 4 && |nodes[1].name| == 3 && |nodes[2].name| == 5;
  }

  /** The parser test BasicObject: {"name": "John", "age": 7, "alive": true}. */
  lemma BasicObject()
    ensures var doc := [StartObjectEvent, KeyEvent("name"), StringEvent("John"), KeyEvent("age"),
                        UnsignedEvent(7), KeyEvent("alive"), BooleanEvent(true), EndObjectEvent];
      RunDefined(Initial(), doc)
      && Parsed(doc) == Ok(Some(Object("RootNode", [Literal("name", Str("John")),
                                                     Literal("age", Number(7.0)),
                                                     Literal("alive", Bool(true))])))
  {
    ObjectOfScalars(BasicObjectPairs());
    BasicObjectEvents();
    BasicObjectNodes();
  }

  /** The names the first three elements of the root array receive. */
  lemma RootElementNames()
    ensures ElementName("RootNode", 0) == "RootNode[0]"
    ensures ElementName("RootNode", 1) == "RootNode[1]"
    ensures ElementName("RootNode", 2) == "RootNode[2]"
  {
    assert Text.NatToString(0) == "0" && Text.NatToString(1) == "1" && Text.NatToString(2) == "2";
  }

  /** The parser test Basic_Array: [1.2, 3.4, 28.0]. */
  lemma BasicArray()
    ensures var doc := [StartArrayEvent, FloatEvent(1.2), FloatEvent(3.4), FloatEvent(28.0), EndArrayEvent];
      RunDefined(Initial(), doc)
      && Parsed(doc) == Ok(Some(Array("RootNode", [Literal("RootNode[0]", Number(1.2)),
                                                   Literal("RootNode[1]", Number(3.4)),
                                                   Literal("RootNode[2]", Number(28.0))])))
  {
    var scalars := [FloatEvent(1.2), FloatEvent(3.4), FloatEvent(28.0)];
    var nodes := [Literal("RootNode[0]", Number(1.2)), Literal("RootNode[1]", Number(3.4)),
                  Literal("RootNode[2]", Number(28.0))];
    ArrayOfScalars(scalars);
    assert [StartArrayEvent] + scalars + [EndArrayEvent]
      == [StartArrayEvent, FloatEvent(1.2), FloatEvent(3.4), FloatEvent(28.0), EndArrayEvent];
    RootElementNames();
    assert Elements("RootNode", 0, scalars) == nodes by {
      assert Elements("RootNode", 0, scalars)[0] == nodes[0];
      assert Elements("RootNode", 0, scalars)[1] == nodes[1];
      assert Elements("RootNode", 0, scalars)[2] == nodes[2];
    }
  }

  // ---------------------------------------------------------------------------
  // The listener object

  class JsonSaxListener {
    const builder: NodeTreeBuilder
    var lastKey: Option<string>
    var unnamedObjectCount: nat

    function State(): ListenerState
      reads this, builder
    {
      ListenerState(builder.State(), lastKey, unnamedObjectCount)
    }

    ghost predicate Valid()
      reads this, builder
    {
      Sound(State())
    }

    /** A new listener with an empty builder and the pending key "RootNode". */
    constructor ()
      ensures State() == Initial() && Valid() && fresh(builder)
    {
      builder := new NodeTreeBuilder();
      lastKey := Some("RootNode");
      unnamedObjectCount := 0;
    }

    /** gen_node_name(type); only the listener's own fields change. */
    method GenNodeName(kind: string) returns (name: string)
      requires Valid() && CanName(State())
      modifies this
      ensures Valid()
      ensures (name, State()) == GenName(old(State()), kind)
    {
      if lastKey.Some? {
        name := lastKey.value;
        lastKey := None;
        return;
      }
      var parent := builder.LastParent();
      if parent.Array? {
        name := ElementName(parent.name, |parent.children|);
      } else {
        name := UnnamedName(kind, unnamedObjectCount);
        unnamedObjectCount := unnamedObjectCount + 1;
      }
    }

    /** The body shared by the value handlers: name the node, make it and add it. */
    method AddNode(e: Event) returns (r: Outcome)
      requires IsValueEvent(e) && Valid() && CanName(State())
      modifies this, builder
      ensures Valid() && Follows(old(State()), e, r, State())
    {
      ghost var st := State();
      var name := GenNodeName(Label(e));
      var n := match e
        case NullEvent => Literal(name, Null)
        case BooleanEvent(_) => Literal(name, Bool(true))
        case IntegerEvent(i) => Literal(name, Number(i as real))
        case UnsignedEvent(u) => Literal(name, Number(u as real))
        case FloatEvent(x) => Literal(name, Number(x))
        case StringEvent(v) => Literal(name, Str(v))
        case StartArrayEvent => Array(name, [])
        case _ => Object(name, []);
      assert n == HandlerNode(e, name);
      r := builder.AddChild(n);
      if r.Pass? {
        StepKeepsSound(st, e);
      }
    }

    /** boolean(val): as written, the literal holds `true` whatever `val` is (see HandlerNode). */
    method Boolean(b: bool) returns (r: Outcome)
      requires Valid() && CanName(State())
      modifies this, builder
      ensures Valid() && Follows(old(State()), BooleanEvent(b), r, State())
    {
      r := AddNode(BooleanEvent(b));
    }

    /** null() */
    method NullValue() returns (r: Outcome)
      requires Valid() && CanName(State())
      modifies this, builder
      ensures Valid() && Follows(old(State()), NullEvent, r, State())
    {
      r := AddNode(NullEvent);
    }

    /** number_integer(val): the value converted to double. */
    method NumberInteger(i: int) returns (r: Outcome)
      requires Valid() && CanName(State())
      modifies this, builder
      ensures Valid() && Follows(old(State()), IntegerEvent(i), r, State())
    {
      r := AddNode(IntegerEvent(i));
    }

    /** number_unsigned(val): the value converted to double. */
    method NumberUnsigned(u: nat) returns (r: Outcome)
      requires Valid() && CanName(State())
      modifies this, builder
      ensures Valid() && Follows(old(State()), UnsignedEvent(u), r, State())
    {
      r := AddNode(UnsignedEvent(u));
    }

    /** number_float(val, text) */
    method NumberFloat(x: real) returns (r: Outcome)
      requires Valid() && CanName(State())
      modifies this, builder
      ensures Valid() && Follows(old(State()), FloatEvent(x), r, State())
    {
      r := AddNode(FloatEvent(x));
    }

    /** string(val) */
    method String(v: string) returns (r: Outcome)
      requires Valid() && CanName(State())
      modifies this, builder
      ensures Valid() && Follows(old(State()), StringEvent(v), r, State())
    {
      r := AddNode(StringEvent(v));
    }

    /** start_array(size): an empty array that becomes the builder's new top. */
    method StartArray() returns (r: Outcome)
      requires Valid() && CanName(State())
      modifies this, builder
      ensures Valid() && Follows(old(State()), StartArrayEvent, r, State())
    {
      r := AddNode(StartArrayEvent);
    }

    /** start_object(size) */
    method StartObject() returns (r: Outcome)
      requires Valid() && CanName(State())
      modifies this, builder
      ensures Valid() && Follows(old(State()), StartObjectEvent, r, State())
    {
      r := AddNode(StartObjectEvent);
    }

    /** end_array() and end_object(): close_parent. */
    method EndComposite(e: Event) returns (r: Outcome)
      requires e.EndArrayEvent? || e.EndObjectEvent?
      requires Valid() && Defined(State(), e)
      modifies builder
      ensures Valid() && Follows(old(State()), e, r, State())
    {
      ghost var st := State();
      builder.CloseParent();
      StepKeepsSound(st, e);
      r := Pass;
    }

    /** key(key): remembered for the next node. */
    method Key(k: string) returns (r: Outcome)
      requires Valid()
      modifies this
      ensures Valid() && Follows(old(State()), KeyEvent(k), r, State())
    {
      lastKey := Some(k);
      r := Pass;
    }

    /** binary(val) and parse_error(...): unsupported_element_exception. */
    method Unsupported(e: Event) returns (r: Outcome)
      requires e.BinaryEvent? || e.ParseErrorEvent?
      requires Valid()
      ensures Valid() && Follows(State(), e, r, State())
    {
      r := Fail(UnsupportedElement);
    }

    /** The SAX parser delivering one event to the matching handler. */
    method Handle(e: Event) returns (r: Outcome)
      requires Valid() && Defined(State(), e)
      modifies this, builder
      ensures Valid() && Follows(old(State()), e, r, State())
    {
      match e
      case KeyEvent(k) => r := Key(k);
      case EndArrayEvent => r := EndComposite(e);
      case EndObjectEvent => r := EndComposite(e);
      case BinaryEvent => r := Unsupported(e);
      case ParseErrorEvent => r := Unsupported(e);
      case _ => r := AddNode(e);
    }

    /** get_built_node() */
    function GetBuiltNode(): Option<Node>
      reads this, builder
    {
      builder.GetRoot()
    }
  }

  /** json_parser::parse: a fresh listener receives the document's events in order; the
      first exception ends the parse, otherwise the result is the built node. */
  method Parse(events: seq<Event>) returns (r: Result<Option<Node>>)
    requires RunDefined(Initial(), events)
    ensures r == Parsed(events)
  {
    var listener := new JsonSaxListener();
    var i := 0;
    while i < |events|
      invariant 0 <= i <= |events|
      invariant listener.Valid()
      invariant RunDefined(listener.State(), events[i..])
      invariant Run(Initial(), events) == Run(listener.State(), events[i..])
    {
      assert events[i..][0] == events[i] && events[i..][1..] == events[i + 1..];
      var o := listener.Handle(events[i]);
      if o.Fail? {
        return Err(o.error);
      }
      i := i + 1;
    }
    r := Ok(listener.GetBuiltNode());
  }
}

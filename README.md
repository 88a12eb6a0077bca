# vole data model, tree builder and debug renderers in Dafny

This project models the core of vole, a small C++ library that reads structured documents into a tree.

A vole tree is made of three kinds of node, each with a fixed name:
- `array_node`: an ordered list of children;
- `object_node`: an ordered list of children whose names are unique;
- `literal_node`: holds a bool, null, a number (a double) or a string.

The model covers:
- the nodes, their `type()`, `format_debug()`, `render()`, `operator==` and `get_child`/`add_child`;
- the lambda visitors and the `node_descender` walk, which calls `on_enter` and `on_exit` hooks and keeps a depth counter;
- the `node_tree_builder`, a stack of open containers that the JSON reader feeds;
- the `json_sax_listener`, which turns the JSON reader's events into nodes and names every node, together with `json_parser::parse`;
- the two debug renderers, `debug_renderer` and `node_printer`. Each one prints one indented `format_debug()` line per node.

Trees are values of the `Node` datatype. Where the source changes an object's fields step by step, the model uses classes with `modifies` clauses:
- `ArrayNode` and `ObjectNode` (in-place `add_child`);
- `NodeDescender`, `DebugRenderer` and `NodePrinter` (depth counter and output buffer);
- `NodeTreeBuilder` (node stack and root);
- `JsonSaxListener` (pending key and unnamed counter).

Each of these methods is proved against a specification function:
- `Walk` for the descender;
- `Dump` for the renderers;
- `Added` and `Closed` for the builder;
- `Step` and `Run` for the listener.

The properties of the source are proved about those functions.

The files are:
- `errors.dfy`: the exception kinds;
- `text.dfy`: decimal text;
- `datamodel.dfy`: nodes;
- `descender.dfy`: the walk;
- `render.dfy`: `debug_renderer`;
- `node_printer.dfy`: `node_printer`;
- `builder.dfy`: `node_tree_builder`;
- `listener.dfy`: the SAX listener and `parse`.

An exception thrown by the source is a `Result`/`Outcome` error in the model: `DuplicateKey`, `InvalidOperation`, `NoSuchElement` or `UnsupportedElement`.

## Model

| member | source | states |
|---|---|---|
| DataModel.Visit | src/datamodel.cpp:259-311 | a lambda visitor calls exactly the callback for the node's own kind, with that node |
| DataModel.TypeNameIdentifiesType | src/datamodel.cpp:109-118 | two nodes have the same `type()` text iff they are the same class and, for literals, hold the same alternative of the value |
| DataModel.TypeNameHasNoBrace | src/datamodel.cpp:38-192 | no label of the three `type()` overrides (array_node at lines 38-40, literal_node at 109-118, object_node at 190-192) contains '{' or a line break |
| DataModel.FormatDebugDecodes | src/datamodel.cpp:26-28 | `type{name}` can be decoded: equal debug labels mean equal type labels and equal names |
| DataModel.Render | src/datamodel.cpp:121-137 | a string literal renders as its exact text, a boolean as `true` or `false`, and null as `null` (numbers: the two lemmas below) |
| DataModel.RenderIntegralRoundTrip | src/datamodel.cpp:125-127 | a whole number renders as integer text without a point, and that text reads back as the number |
| DataModel.RenderShowsFraction | src/datamodel.cpp:123-130 | a number renders with a point iff it has a fractional part; a fractional number's digits read back within half a millionth |
| DataModel.RenderStartsNumeric | src/datamodel.cpp:121-137 | a non-string rendering is non-empty and starts with '-' or a digit iff it is a number |
| DataModel.RenderDeterminesNonStringValue | src/datamodel.cpp:121-137 | two non-string literals (whole numbers, bools, null) with the same rendering hold the same value |
| DataModel.RenderScenarios | tests/datamodel_tests.cpp:11-23 | "Hello!" renders verbatim, 200.0 renders as "200", and 200.25 starts with "200.250" |
| DataModel.TwoHundredAndAQuarterText | tests/datamodel_tests.cpp:17-23 | 200.25 is written with six decimals as "200.250000" |
| DataModel.Equal | src/datamodel.cpp:74-96 | equal nodes have the same name and the same kind |
| DataModel.EqualIsStructural | src/datamodel.cpp:227-249 | `operator==` (same class, same name, same value or pairwise-equal children) holds iff the two trees are identical |
| DataModel.EqualReflexive | src/datamodel.cpp:149-165 | every node equals itself |
| DataModel.EqualSymmetric | src/datamodel.cpp:149-165 | equality does not depend on the order of the operands |
| DataModel.EqualTransitive | src/datamodel.cpp:149-165 | equality is transitive |
| DataModel.FindByName | src/datamodel.cpp:175-187 | finds the first child with that name, or none iff no child has it |
| DataModel.ArrayChild | src/datamodel.cpp:43-52 | index i succeeds iff i < length and yields child i; otherwise NoSuchElement |
| DataModel.ObjectChild | src/datamodel.cpp:175-187 | succeeds iff some child has the name, and then yields the first child of that name (the one `find_if` stops at); otherwise NoSuchElement |
| DataModel.ObjectInsert | src/datamodel.cpp:195-209 | DuplicateKey iff the name is taken; otherwise exactly the child is appended |
| DataModel.ObjectInsertKeepsNamesDistinct | src/datamodel.cpp:195-209 | an object's child names stay pairwise distinct after an insert |
| DataModel.ObjectInsertThenLookUp | src/datamodel.cpp:175-209 | after an insert, looking up the new name yields the new child; other names are found as before |
| DataModel.ArrayAppendThenIndex | src/datamodel.cpp:43-67 | after an append the new child is at the old length; earlier indices are unchanged |
| DataModel.ArrayNode.constructor | include/vole/datamodel.hpp:103-106 | a new array has the given name and no children |
| DataModel.ArrayNode.AddChild | src/datamodel.cpp:65-67 | appends the child, even under a repeated name |
| DataModel.ArrayNode.AsNode | src/datamodel.cpp:70-72 | the array's tree value holds exactly its current children |
| DataModel.ObjectNode.constructor | include/vole/datamodel.hpp:113-116 | a new object has the given name and no children |
| DataModel.ObjectNode.AddChild | src/datamodel.cpp:195-209 | fails with DuplicateKey and leaves the children unchanged iff the name is taken; otherwise appends exactly the child; names stay distinct |
| DataModel.ObjectNode.AsNode | src/datamodel.cpp:212-214 | the object's tree value holds exactly its current children |
| DataModel.GetChildScenario | tests/datamodel_tests.cpp:26-47 | the get_child tests: indices 0 and 1 give the children, index 2 is NoSuchElement, and names find their children |
| Text.NatToString | src/datamodel_parsers.cpp:92 | decimal text is non-empty, digits only, and has no leading zero |
| Text.NatRoundTrip | src/datamodel_parsers.cpp:92 | the decimal text of an index reads back as the index |
| Text.NatToStringInjective | src/datamodel_parsers.cpp:92-94 | different numbers get different decimal texts |
| Text.IntToString | src/datamodel.cpp:127 | integer text starts with '-' or a digit, and is all digits iff the integer is non-negative |
| Text.IntRoundTrip | src/datamodel.cpp:126-127 | integer text is well formed and reads back as the integer |
| Text.RoundHalfEven | src/datamodel.cpp:129 | picks an integer within one half of the value, non-negative for non-negative values |
| Text.FixedSix | src/datamodel.cpp:129 | the text starts with '-' or a digit and contains a point |
| Text.FixedSixReadsBack | src/datamodel.cpp:129 | the text is an optional '-', the integer digits, a point and six digits, and reads back within half a millionth of the value |
| Text.PaddedRoundTrip | src/datamodel.cpp:129 | the six fractional digits, zero padded, read back as the fraction in millionths |
| Descender.Size | src/datamodel.cpp:321-346 | every tree has at least one node |
| Descender.WalkLength | src/datamodel.cpp:321-346 | a walk makes exactly two hook calls per node |
| Descender.WalkDepths | src/datamodel.cpp:321-346 | a walk opens with on_enter and closes with on_exit of its root at the start depth; every hook in between sees a greater depth |
| Descender.ChildWalkNested | src/datamodel.cpp:321-346 | child i is walked as one block right after its parent's on_enter and its elder siblings' walks, with its on_enter and on_exit both at the parent's depth + 1 |
| Descender.WalkEntersEachNode | src/datamodel.cpp:321-346 | on_enter is called exactly once per node |
| Descender.LiteralWalk | src/datamodel.cpp:332-335 | a literal's on_enter is directly followed by its on_exit |
| Descender.NodeDescender.constructor | include/vole/datamodel.hpp:219-221 | a new descender is at depth 0 and has made no calls |
| Descender.NodeDescender.OnEnter | include/vole/datamodel.hpp:206-211 | records one on_enter call with the current depth, and changes nothing else |
| Descender.NodeDescender.OnExit | include/vole/datamodel.hpp:206-211 | records one on_exit call with the current depth, and changes nothing else |
| Descender.NodeDescender.Visit | src/datamodel.cpp:321-346 | the hooks called are exactly `Walk(n, depth)`, and the depth is restored |
| Descender.NodeDescender.VisitChildren | src/datamodel.cpp:324-326 | the children are walked in insertion order at the current depth |
| Descender.Descend | src/datamodel.cpp:321-346 | a fresh descender records the walk from depth 0: 2·size calls, starting with on_enter and ending with on_exit of the root |
| DebugRender.Spaces | src/render.cpp:28-31 | k spaces |
| DebugRender.EmittedUnfolds | src/render.cpp:13-25 | a composite's text is its own line followed by its children's texts, in order |
| DebugRender.EnterTextAppend | src/render.cpp:13-25 | the text of two stretches of hook calls is the concatenation of their texts |
| DebugRender.EmittedIsWalkEnters | src/render.cpp:13-25 | the rendering is the on_enter lines of the descender walk, in walk order (on_exit prints nothing) |
| DebugRender.NewlinesAppend | src/render.cpp:28-31 | line breaks add up over concatenation |
| DebugRender.LineHasOneNewline | src/render.cpp:28-31 | each appended line ends in the one line break it contains |
| DebugRender.WalkNamesWithoutNewline | src/render.cpp:13-25 | if no name in the tree contains a line break, no node met by the walk has one |
| DebugRender.EnterTextNewlines | src/render.cpp:13-25 | single-line hooks produce one line break per on_enter call |
| DebugRender.DumpLineCount | src/render.cpp:13-31 | when no name contains a line break, the rendering has exactly one line per node |
| DebugRender.DumpStartsWithRootLine | src/render.cpp:7-11 | the rendering starts with the root's `format_debug()` line, unindented |
| DebugRender.ChildIndentation | src/render.cpp:13-31 | in a composite's dump, child i's dump follows the parent's line and the elder siblings' dumps as one block, and it opens with the child's line indented TAB_SIZE = 2 spaces more than the parent's |
| DebugRender.LineOneDeeper | src/render.cpp:28-31 | a line one level deeper has exactly two more leading spaces |
| DebugRender.DebugRenderer.constructor | include/vole/render.hpp:15-32 | a new renderer is at depth 0 with an empty buffer |
| DebugRender.DebugRenderer.Render | src/render.cpp:7-11 | as written: the tree's rendering is appended to whatever the buffer held, and the whole buffer is returned |
| DebugRender.DebugRenderer.RenderFromEmpty | src/render.cpp:7-11 | as intended: returns exactly the tree's rendering |
| DebugRender.DebugRenderer.Append | src/render.cpp:28-31 | appends depth·2 spaces, the text and a line break |
| DebugRender.DebugRenderer.OnEnter | src/render.cpp:13-25 | appends the node's `format_debug()` line at the current depth |
| DebugRender.DebugRenderer.Visit | src/datamodel.cpp:321-346 | appends the subtree's rendering at the current depth, and restores the depth |
| DebugRender.DebugRenderer.VisitChildren | src/datamodel.cpp:324-326 | appends the children's renderings in order |
| DebugRender.RenderTwice | src/render.cpp:7-11 | as written: a second render of the same tree returns the first result twice over |
| DebugRender.RenderTwiceFromEmpty | src/render.cpp:7-11 | as intended: a second render returns the same text as the first |
| NodePrinting.NodePrinter.constructor | include/vole/datamodel.hpp:219-221 | a new printer starts at the inherited descender depth 0 with an empty buffer |
| NodePrinting.NodePrinter.Render | src/node_printer.cpp:7-11 | the tree's rendering is appended to the buffer, and the whole buffer is returned |
| NodePrinting.NodePrinter.Append | src/node_printer.cpp:28-31 | appends depth·2 spaces, the text and a line break |
| NodePrinting.NodePrinter.OnEnter | src/node_printer.cpp:13-25 | appends the node's `format_debug()` line at the current depth |
| NodePrinting.NodePrinter.Visit | src/datamodel.cpp:321-346 | appends the subtree's rendering at the current depth, and restores the depth |
| NodePrinting.NodePrinter.VisitChildren | src/datamodel.cpp:324-326 | appends the children's renderings in order |
| NodePrinting.PrintTree | src/node_printer.cpp:7-11 | a fresh printer returns the rendering of any tree, starting with the root's line; when no name contains a line break it has one line per node |
| TreeBuilder.Attach | src/datamodel_parsers.cpp:127-137 | a literal parent gives InvalidOperation, an array appends, an object gives DuplicateKey iff the name is taken and appends otherwise |
| TreeBuilder.Opens | src/datamodel_parsers.cpp:139-151 | the new node is pushed iff it is an array or an object |
| TreeBuilder.Refreshed | src/datamodel_parsers.cpp:156-158 | replacing the last child keeps the parent's name and kind |
| TreeBuilder.Added | src/datamodel_parsers.cpp:119-153 | on an empty stack the node becomes root and only entry; otherwise the call fails exactly when attaching to the top fails, with that error, and on success the entries below the top are unchanged and the stack grows iff the node is a composite |
| TreeBuilder.Closed | src/datamodel_parsers.cpp:156-158 | pops one entry; popping the last one leaves it as the root |
| TreeBuilder.AttachAtPath | src/datamodel_parsers.cpp:119-153 | attaching along the path of last children keeps the root's name |
| TreeBuilder.RefreshedTwice | src/datamodel_parsers.cpp:156-158 | refreshing the last child twice is the same as refreshing it once |
| TreeBuilder.PlugAttach | src/datamodel_parsers.cpp:119-153 | attaching under the top of the stack is attaching at depth |stack|−1 in the tree that the stack shows |
| TreeBuilder.PlugFold | src/datamodel_parsers.cpp:156-158 | folding the top entry into its parent does not change the tree the stack shows |
| TreeBuilder.PlugPushed | src/datamodel_parsers.cpp:139-151 | pushing a node that is already its parent's last child does not change the tree |
| TreeBuilder.AddedKeepsValid | src/datamodel_parsers.cpp:139-151 | every entry below the top stays an open composite whose last child is the entry above it |
| TreeBuilder.ClosedKeepsValid | src/datamodel_parsers.cpp:156-158 | closing keeps the stack invariant |
| TreeBuilder.AddedGrowsTree | src/datamodel_parsers.cpp:119-153 | add_child fails iff attaching at the innermost open container of the tree fails, with the same error; on success the tree becomes exactly that attachment |
| TreeBuilder.ClosedKeepsTree | src/datamodel_parsers.cpp:156-158 | close_parent never changes the tree get_root shows |
| TreeBuilder.AttachAtPathKeepsWellKeyed | src/datamodel.cpp:195-209 | attaching keeps every object's child names distinct |
| TreeBuilder.AddedKeepsWellKeyed | src/datamodel_parsers.cpp:127-137 | the built tree never has an object with two children of the same name |
| TreeBuilder.NodeTreeBuilder.constructor | src/datamodel_parsers.cpp:116 | a new builder has an empty stack and no root |
| TreeBuilder.NodeTreeBuilder.AddChild | src/datamodel_parsers.cpp:119-153 | the new state is `Added(old state, node)`; a refused node throws its error and leaves the builder unchanged |
| TreeBuilder.NodeTreeBuilder.CloseParent | src/datamodel_parsers.cpp:156-158 | the new state is `Closed(old state)`, and the invariant is kept |
| TreeBuilder.NodeTreeBuilder.GetRoot | src/datamodel_parsers.cpp:161-163 | there is no root iff nothing was added; while the stack is non-empty the root is `Plug(stack)`, the tree the shared pointers show, named like the bottom entry; afterwards it is the stored root |
| TreeBuilder.NodeTreeBuilder.LastParent | src/datamodel_parsers.cpp:166-168 | the top of the stack, which is a composite unless it is a lone scalar root |
| JsonListener.NewNode | src/datamodel_parsers.cpp:23-77 | the intended node of each value handler: it has the generated name; null, boolean, integer (converted to double), float and string events give literals holding that value, and start events give empty composites of the right kind |
| JsonListener.HandlerNode | src/datamodel_parsers.cpp:23-77 | the node a value handler builds as written: the boolean handler's literal holds `true`; it equals `NewNode` for every event except `false` |
| JsonListener.BooleanFalseBecomesTrue | src/datamodel_parsers.cpp:23-26 | for `false`, the as-written node holds `true` while the intended node holds `false` |
| JsonListener.ElementNamesDistinct | src/datamodel_parsers.cpp:89-93 | `name[i]` and `name[j]` are equal iff i = j |
| JsonListener.UnnamedNamesDistinct | src/datamodel_parsers.cpp:94 | `Unnamed<type><c>` names of one type are equal iff the counters are equal |
| JsonListener.GenName | src/datamodel_parsers.cpp:83-95 | a pending key is the name and is cleared; with no key, under an array top the name is `top.name[len]` for the array's current length, otherwise `Unnamed<type><n>` for the current counter n, which then grows by one; the builder is untouched |
| JsonListener.AddValueNames | src/datamodel_parsers.cpp:23-95 | a successful value handler adds its node to the stack named by the pending key (then cleared); with no key, under an array holding k children it becomes child k, named `name[k]`; under an object it is named `Unnamed<type><n>` and the counter grows by one |
| JsonListener.Step | src/datamodel_parsers.cpp:19-81 | binary data and parse errors throw UnsupportedElement, a key is stored, and an end event closes the top container |
| JsonListener.AddValue | src/datamodel_parsers.cpp:23-77 | a value handler fails exactly when the builder refuses the node the handler builds (`HandlerNode`), with the builder's error |
| JsonListener.Thrown | src/datamodel_parsers.cpp:83-95 | a handler that throws has left the builder unchanged |
| JsonListener.RunAppend | src/datamodel_parsers.cpp:102-106 | reading two stretches of events one after the other is reading their concatenation |
| JsonListener.StepKeepsSound | src/datamodel_parsers.cpp:19-81 | every handler keeps the stack invariant and the unique-names property of the tree |
| JsonListener.RunKeepsSound | src/datamodel_parsers.cpp:102-106 | a run of handlers keeps both properties |
| JsonListener.ParsedTreeIsWellKeyed | src/datamodel_parsers.cpp:102-106 | a parsed tree never has an object with two members of the same name |
| JsonListener.StepErrors | src/datamodel_parsers.cpp:19-81 | a handler fails only with DuplicateKey (the top is an object that already has the name), InvalidOperation (the stack is a lone literal) or UnsupportedElement (iff binary data or a parse error) |
| JsonListener.RunErrors | src/datamodel_parsers.cpp:102-106 | a run fails only with DuplicateKey, InvalidOperation or UnsupportedElement |
| JsonListener.ParseErrors | src/datamodel_parsers.cpp:102-106 | parse never fails with NoSuchElement |
| JsonListener.ScalarDocument | src/datamodel_parsers.cpp:119-124 | a scalar document parses to one literal named RootNode, which stays on the stack; a second value after it fails with InvalidOperation |
| JsonListener.FalseDocumentParsesToTrue | src/datamodel_parsers.cpp:23-26 | as written: the document `false` parses to a literal holding `true` |
| JsonListener.StepKeepsOpenComposites | src/datamodel_parsers.cpp:28-46 | with containers open, each handler keeps every stack entry an array or object and the bottom entry's name; a start adds one entry, an end removes one, other events none |
| JsonListener.ClosingRun | src/datamodel_parsers.cpp:119-158 | events that close all open containers, and only with their last event, are always defined and leave an empty stack and a composite root |
| JsonListener.CompositeDocumentEmptiesStack | src/datamodel_parsers.cpp:119-163 | a balanced document with an array or object root either throws or ends with an empty stack, and parses to an array or object named RootNode |
| JsonListener.Elements | src/datamodel_parsers.cpp:89-93 | element i of a run of scalars is the scalar's literal, named by its index |
| JsonListener.ScalarIntoArray | src/datamodel_parsers.cpp:89-93 | an unkeyed scalar inside an array is appended, named `array[length]` |
| JsonListener.ScalarsIntoArray | src/datamodel_parsers.cpp:89-93 | unkeyed scalars inside an array are appended in order, named by their indices |
| JsonListener.ArrayOfScalars | src/datamodel_parsers.cpp:102-106 | `[v0, v1, …]` parses to an array named RootNode whose elements are named RootNode[0], RootNode[1], … |
| JsonListener.MemberNodes | src/datamodel_parsers.cpp:48-52 | each member becomes its value's literal, named by its key |
| JsonListener.MemberIntoObject | src/datamodel_parsers.cpp:48-52 | a key is stored; the value after it is appended under that key unless the key is taken (DuplicateKey) |
| JsonListener.MembersIntoObject | src/datamodel_parsers.cpp:48-52 | members are appended in order under their keys; the first repeated key fails with DuplicateKey |
| JsonListener.ObjectOfScalars | src/datamodel_parsers.cpp:102-106 | `{k0: v0, …}` parses to an object named RootNode with one literal per member iff the keys are distinct, and fails with DuplicateKey otherwise |
| JsonListener.BasicObjectEvents | tests/datamodel_parser_tests.cpp:10-19 | the events of the BasicObject document |
| JsonListener.BasicObjectNodes | tests/datamodel_parser_tests.cpp:10-19 | the literals of the BasicObject members, with distinct names |
| JsonListener.BasicObject | tests/datamodel_parser_tests.cpp:10-19 | {"name": "John", "age": 7, "alive": true} parses to the expected object |
| JsonListener.RootElementNames | tests/datamodel_parser_tests.cpp:21-30 | the first three element names are RootNode[0], RootNode[1] and RootNode[2] |
| JsonListener.BasicArray | tests/datamodel_parser_tests.cpp:21-30 | [1.2, 3.4, 28.0] parses to the expected array |
| JsonListener.JsonSaxListener.constructor | src/datamodel_parsers.cpp:97-99 | a new listener has an empty builder, the pending key "RootNode" and a counter of 0 |
| JsonListener.JsonSaxListener.GenNodeName | src/datamodel_parsers.cpp:83-95 | returns the name and sets the fields as `GenName` states: the pending key, `name[len]` under an array top, or `Unnamed<type><n>` with the counter incremented; the builder is untouched |
| JsonListener.JsonSaxListener.AddNode | src/datamodel_parsers.cpp:23-77 | a value handler adds `HandlerNode` under the generated name: exactly `Step`'s transition, or `Step`'s error |
| JsonListener.JsonSaxListener.Boolean | src/datamodel_parsers.cpp:23-26 | `boolean(b)` follows `Step`, which as written stores `true` whatever b is |
| JsonListener.JsonSaxListener.NullValue | src/datamodel_parsers.cpp:54-57 | `null()` follows `Step` |
| JsonListener.JsonSaxListener.NumberInteger | src/datamodel_parsers.cpp:59-62 | `number_integer` follows `Step` |
| JsonListener.JsonSaxListener.NumberUnsigned | src/datamodel_parsers.cpp:64-67 | `number_unsigned` follows `Step` |
| JsonListener.JsonSaxListener.NumberFloat | src/datamodel_parsers.cpp:69-72 | `number_float` follows `Step` |
| JsonListener.JsonSaxListener.String | src/datamodel_parsers.cpp:74-77 | `string` follows `Step` |
| JsonListener.JsonSaxListener.StartArray | src/datamodel_parsers.cpp:28-31 | `start_array` follows `Step` and opens an array |
| JsonListener.JsonSaxListener.StartObject | src/datamodel_parsers.cpp:38-41 | `start_object` follows `Step` and opens an object |
| JsonListener.JsonSaxListener.EndComposite | src/datamodel_parsers.cpp:33-46 | `end_array`/`end_object` close the innermost container |
| JsonListener.JsonSaxListener.Key | src/datamodel_parsers.cpp:48-52 | `key` stores the pending key |
| JsonListener.JsonSaxListener.Unsupported | src/datamodel_parsers.cpp:19-21 | `binary`/`parse_error` throw UnsupportedElement and change nothing |
| JsonListener.JsonSaxListener.Handle | src/datamodel_parsers.cpp:19-81 | each event goes to its handler, which makes `Step`'s transition |
| JsonListener.Parse | src/datamodel_parsers.cpp:102-106 | parse returns exactly `Parsed(events)`: the first handler error, or the tree the builder built |

## Left out

- The JSON tokenizer (nlohmann's `sax_parse`) and its input text: a document is given as the sequence of SAX events it produces, and malformed text appears only as a `ParseErrorEvent`.
- File I/O and `main.cpp`.
- The messages of exceptions. Only their kinds are modelled.
- `include/vole/node_printer.hpp` is not part of this model. `NodePrinter` is assumed to declare the same members as `debug_renderer`.
- Doubles are modelled as mathematical reals: there is no rounding when an integer event is converted to double, and no -0.0, infinity or NaN. As a result, `{:.0f}` of -0.0 ("-0") and the rendering of `inf`/`nan` are not captured.
- `unnamed_object_count` is a `size_t`. Its wrap-around after 2^64 unnamed nodes is not modelled.
- Aliasing through `shared_ptr`. The builder's stack holds node values, and each parent's last child is refreshed from the entry above it on `close_parent`. Proved: `get_root` shows the same tree the shared pointers would (`AddedGrowsTree`, `ClosedKeepsTree`). Not modelled: that a node returned by `get_root` keeps changing as events arrive.
- `DataModel.RenderDeterminesNonStringValue`: stated for whole numbers only, because two different fractional numbers can share their six-decimal text.
- `NodeTreeBuilder.CloseParent`, `NodeTreeBuilder.LastParent` and `JsonSaxListener.GenNodeName` require a non-empty stack (or a pending key). In the source, `pop_back`/`back` on an empty vector is undefined behaviour, not an exception.
- Unbalanced input. The code pushes a scalar root, so a second value fails with InvalidOperation (`ScalarDocument`). `close_parent` and `last_parent` on an empty stack are undefined behaviour in the code; the model makes them preconditions (see the line above).
- Kinds of end events. A balanced document is counted by starts and ends only (`Closes`), as in the code, where `end_array` and `end_object` both just call `close_parent`. That an end matches its start is left to the JSON library.
- `const_node_visitor` and `node_visitor` differ only in constness. They are one `Visit` function.

## Findings

| source | as written | input that shows it | evidently intended | confidence | as-written member | corrected member |
|---|---|---|---|---|---|---|
| src/datamodel_parsers.cpp:23-26 | `boolean(bool)` ignores its argument and passes `true` to `make_literal` | the JSON document `false` parses to a literal holding `true` | the literal holds the parsed value | high; not executed | JsonListener.FalseDocumentParsesToTrue | JsonListener.NewNode |
| src/render.cpp:7-11 | `renderer.clear()` on a `std::stringstream` resets only the error flags, not the buffer | rendering the same tree twice with one renderer: the second call returns the first text twice | each call returns only the rendering of its argument | high; not executed | DebugRender.RenderTwice | DebugRender.RenderTwiceFromEmpty |

The listener, `Step`, `Run`, `Parsed` and `Parse` follow the boolean handler as written (`HandlerNode`). `NewNode` is the corrected node, and `HandlerNode` is proved to differ from it only on `false`.

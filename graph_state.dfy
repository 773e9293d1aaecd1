/** The state the graph page keeps between messages (`GraphState`) and the
    reducer that applies a `GUIAction` to it. */
module GraphStates {

  /** Rust's `i32`. */
  newtype i32 = x: int | -0x8000_0000 <= x <= 0x7fff_ffff

  /** `i32::MAX`, the largest value of the type. */
  const I32_MAX: i32 := 0x7fff_ffff

  datatype GUIAction =
    | ParseResult(parsedLog: bool, svgText: string, lineNrOfNode: map<nat, nat>)
    | SetMaxLineNr(maxLineNr: i32)
    | ReadInput(input: i32)

  datatype GraphState = GraphState(
    parsedLog: bool,
    svgText: string,
    lineNrOfNode: map<nat, nat>,
    maxLineNr: i32,
    input: i32)

  /** `GraphState::default()`: nothing parsed, no picture, no nodes, and
      no limit on line numbers (both the limit and the input are the
      largest `i32`). */
  function Default(): (g: GraphState)
    ensures !g.parsedLog && g.svgText == [] && g.lineNrOfNode == map[]
    ensures g.maxLineNr == I32_MAX && g.input == I32_MAX
  {
    GraphState(false, "", map[], I32_MAX, I32_MAX)
  }

  /** `GraphState::reduce`: a parse result replaces the three parse fields;
      each of the other actions replaces its one field; every other field
      is kept. */
  function Reduce(s: GraphState, a: GUIAction): (t: GraphState)
    ensures t.parsedLog == (if a.ParseResult? then a.parsedLog else s.parsedLog)
    ensures t.svgText == (if a.ParseResult? then a.svgText else s.svgText)
    ensures t.lineNrOfNode == (if a.ParseResult? then a.lineNrOfNode else s.lineNrOfNode)
    ensures t.maxLineNr == (if a.SetMaxLineNr? then a.maxLineNr else s.maxLineNr)
    ensures t.input == (if a.ReadInput? then a.input else s.input)
  {
    match a
    case ParseResult(parsedLog, svgText, lineNrOfNode) =>
      GraphState(parsedLog, svgText, lineNrOfNode, s.maxLineNr, s.input)
    case SetMaxLineNr(maxLineNr) =>
      GraphState(s.parsedLog, s.svgText, s.lineNrOfNode, maxLineNr, s.input)
    case ReadInput(input) =>
      GraphState(s.parsedLog, s.svgText, s.lineNrOfNode, s.maxLineNr, input)
  }

  /** Two actions of the same kind. */
  predicate SameKind(a: GUIAction, b: GUIAction) {
    (a.ParseResult? && b.ParseResult?) || (a.SetMaxLineNr? && b.SetMaxLineNr?) || (a.ReadInput? && b.ReadInput?)
  }

  /** Applying the same action twice is applying it once, and actions of
      different kinds touch disjoint fields, so their order does not
      matter; of two actions of one kind the later one wins. */
  lemma ReduceIdempotentCommutes(s: GraphState, a: GUIAction, b: GUIAction)
    ensures Reduce(Reduce(s, a), a) == Reduce(s, a)
    ensures !SameKind(a, b) ==> Reduce(Reduce(s, a), b) == Reduce(Reduce(s, b), a)
    ensures SameKind(a, b) ==> Reduce(Reduce(s, a), b) == Reduce(s, b)
  {
  }

  /** The state after a run of dispatched actions, in order. */
  function ReduceAll(s: GraphState, actions: seq<GUIAction>): (r: GraphState)
    decreases |actions|
  {
    if actions == [] then s else ReduceAll(Reduce(s, actions[0]), actions[1..])
  }

  /** The limit the last `SetMaxLineNr` of `actions` sets, or `d` if none. */
  function LastMaxLineNr(actions: seq<GUIAction>, d: i32): (r: i32)
    decreases |actions|
  {
    if actions == [] then d
    else if actions[|actions| - 1].SetMaxLineNr? then actions[|actions| - 1].maxLineNr
    else LastMaxLineNr(actions[..|actions| - 1], d)
  }

  /** The input the last `ReadInput` of `actions` reads, or `d` if none. */
  function LastInput(actions: seq<GUIAction>, d: i32): (r: i32)
    decreases |actions|
  {
    if actions == [] then d
    else if actions[|actions| - 1].ReadInput? then actions[|actions| - 1].input
    else LastInput(actions[..|actions| - 1], d)
  }

  lemma {:induction false} ReduceAllSnoc(s: GraphState, actions: seq<GUIAction>, a: GUIAction)
    ensures ReduceAll(s, actions + [a]) == Reduce(ReduceAll(s, actions), a)
    decreases |actions|
  {
    if actions != [] {
      assert (actions + [a])[1..] == actions[1..] + [a];
      ReduceAllSnoc(Reduce(s, actions[0]), actions[1..], a);
    }
  }

  /** After any run of actions, the line limit and the input are those the
      last action of their kind set; parse results never change them. */
  lemma {:induction false} ReduceAllLastWins(s: GraphState, actions: seq<GUIAction>)
    ensures ReduceAll(s, actions).maxLineNr == LastMaxLineNr(actions, s.maxLineNr)
    ensures ReduceAll(s, actions).input == LastInput(actions, s.input)
    decreases |actions|
  {
    if actions != [] {
      var init := actions[..|actions| - 1];
      assert actions == init + [actions[|actions| - 1]];
      ReduceAllSnoc(s, init, actions[|actions| - 1]);
      ReduceAllLastWins(s, init);
    }
  }
}

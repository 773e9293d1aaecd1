/** The small token combinators of the Z3 log parser: `iter_until_eq`,
    `expect_completed`, the tuple gobbler `gobble_tuples` and the
    variable-name list parser `gobble_var_names_list`.  A line's payload
    is the sequence of its space-separated tokens; an iterator over it is
    the suffix not yet consumed. */
module Tokens {
  import opened Items

  // ---------------------------------------------------------------------
  // iter_until_eq and expect_completed
  // ---------------------------------------------------------------------

  /** `iter_until_eq(l, end)` drained: the tokens before the first `end`,
      and the tokens left in `l` afterwards (the `end` itself is consumed). */
  function TakeUntil(l: seq<string>, end: string): (r: (seq<string>, seq<string>))
    ensures end !in r.0
    ensures end in l ==> l == r.0 + [end] + r.1
    ensures end !in l ==> r.0 == l && r.1 == []
    decreases |l|
  {
    if l == [] then ([], [])
    else if l[0] == end then ([], l[1..])
    else
      var (before, after) := TakeUntil(l[1..], end);
      assert l == [l[0]] + l[1..];
      ([l[0]] + before, after)
  }

  /** `expect_completed`: succeeds exactly on an exhausted iterator. */
  function ExpectCompleted(l: seq<string>): (ok: bool)
  {
    l == []
  }

  /** `expect_completed` applied to the rest of an `iter_until_eq` iterator
      succeeds exactly when the next token is the terminator or the line has
      ended, and the tokens left afterwards are those after the terminator. */
  lemma UntilThenCompleted(l: seq<string>, end: string)
    ensures ExpectCompleted(TakeUntil(l, end).0) <==> (l == [] || l[0] == end)
    ensures l != [] && l[0] == end ==> TakeUntil(l, end).1 == l[1..]
  {
  }

  // ---------------------------------------------------------------------
  // gobble_tuples
  // ---------------------------------------------------------------------

  /** The three ways a tuple may be written: `(A;B)` as one token, `(A B)`
      as two, and `(A ; B)` as three.  The source's `spaces` cell holds
      0, 1 or 2 for them. */
  datatype Form = Glued | Spaced | Separated

  /** One call of the gobbling closure: the tuple read (None for a tuple
      that is malformed or, when forms must agree, of a different form than
      the first), how many tokens it consumed, and the new form cell. */
  datatype Step = Step(item: Option<(string, string)>, used: nat, spaces: Option<Form>)

  /** `Option::get_or_insert`: the cell keeps its first value. */
  function Settle(spaces: Option<Form>, f: Form): (r: Option<Form>)
    ensures r.Some?
  {
    if spaces.None? then Some(f) else spaces
  }

  /** Strip the opening parenthesis of the first half and the closing one of the second. */
  function Strip(first: string, second: string): Option<(string, string)> {
    if StartsWith(first, '(') && EndsWith(second, ')')
    then Some((first[1..], second[..|second| - 1]))
    else None
  }

  /** The body of the closure in `gobble_tuples`, on the non-empty rest `l`. */
  function Gobble(l: seq<string>, spaces: Option<Form>, formsEqual: bool): (s: Step)
    requires l != []
    ensures 1 <= s.used <= |l|
    ensures spaces.Some? ==> s.spaces == spaces
  {
    var first := l[0];
    if EndsWith(first, ')') then
      var cell := Settle(spaces, Glued);
      if formsEqual && cell != Some(Glued) then Step(None, 1, cell)
      else
        var parts := SplitOn(first, ';');
        Step(if |parts| < 2 then None else Strip(parts[0], parts[1]), 1, cell)
    else if |l| < 2 then Step(None, 1, spaces)
    else if l[1] != ";" then
      var cell := Settle(spaces, Spaced);
      Step(if formsEqual && cell != Some(Spaced) then None else Strip(first, l[1]), 2, cell)
    else
      var cell := Settle(spaces, Separated);
      if formsEqual && cell != Some(Separated) then Step(None, 2, cell)
      else if |l| < 3 then Step(None, 2, cell)
      else Step(Strip(first, l[2]), 3, cell)
  }

  /** The items the iterator returned by `gobble_tuples` yields on `l`,
      starting from the form cell `spaces`. */
  function Tuples(l: seq<string>, formsEqual: bool, spaces: Option<Form>): (items: seq<Option<(string, string)>>)
    ensures |items| <= |l|
    decreases |l|
  {
    if l == [] then []
    else
      var s := Gobble(l, spaces, formsEqual);
      [s.item] + Tuples(l[s.used..], formsEqual, s.spaces)
  }

  /** `gobble_tuples::<FORMS_EQUAL>`: the closure runs until the tokens are
      exhausted at a tuple boundary, updating its `spaces` cell in place. */
  method GobbleTuples(l: seq<string>, formsEqual: bool) returns (items: seq<Option<(string, string)>>)
    ensures items == Tuples(l, formsEqual, None)
  {
    var spaces: Option<Form> := None;
    var rest := l;
    items := [];
    while rest != []
      invariant items + Tuples(rest, formsEqual, spaces) == Tuples(l, formsEqual, None)
      decreases |rest|
    {
      ghost var before := spaces;
      var first := rest[0];
      var item: Option<(string, string)>;
      var used: nat;
      if EndsWith(first, ')') {
        if spaces.None? { spaces := Some(Glued); }
        used := 1;
        if formsEqual && spaces != Some(Glued) {
          item := None;
        } else {
          var parts := SplitOn(first, ';');
          item := if |parts| < 2 then None else Strip(parts[0], parts[1]);
        }
      } else if |rest| < 2 {
        item, used := None, 1;
      } else if rest[1] != ";" {
        if spaces.None? { spaces := Some(Spaced); }
        used := 2;
        item := if formsEqual && spaces != Some(Spaced) then None else Strip(first, rest[1]);
      } else {
        if spaces.None? { spaces := Some(Separated); }
        if formsEqual && spaces != Some(Separated) {
          item, used := None, 2;
        } else if |rest| < 3 {
          item, used := None, 2;
        } else {
          item, used := Strip(first, rest[2]), 3;
        }
      }
      assert Gobble(rest, before, formsEqual) == Step(item, used, spaces);
      assert Tuples(rest, formsEqual, before) == [item] + Tuples(rest[used..], formsEqual, spaces);
      Assoc(items, [item], Tuples(rest[used..], formsEqual, spaces));
      items := items + [item];
      rest := rest[used..];
    }
  }

  /** The tokens of the tuple `(p.0, p.1)` written in form `f`. */
  function RenderTuple(p: (string, string), f: Form): seq<string> {
    match f
    case Glued => ["(" + p.0 + ";" + p.1 + ")"]
    case Spaced => ["(" + p.0, p.1 + ")"]
    case Separated => ["(" + p.0, ";", p.1 + ")"]
  }

  function Render(ps: seq<(string, string)>, f: Form): seq<string>
    decreases |ps|
  {
    if ps == [] then [] else RenderTuple(ps[0], f) + Render(ps[1..], f)
  }

  /** A tuple that reads back unambiguously in form `f`: no `;` inside a
      glued tuple, and no first half that already closes the tuple. */
  predicate Renderable(p: (string, string), f: Form) {
    match f
    case Glued => ';' !in p.0 && ';' !in p.1
    case _ => !EndsWith("(" + p.0, ')')
  }

  function Somes(ps: seq<(string, string)>): (r: seq<Option<(string, string)>>)
    ensures |r| == |ps|
    decreases |ps|
  {
    if ps == [] then [] else [Some(ps[0])] + Somes(ps[1..])
  }

  lemma SomesHead(ps: seq<(string, string)>)
    requires ps != []
    ensures Somes(ps)[0] == Some(ps[0])
  {
  }

  lemma Assoc<T>(a: seq<T>, b: seq<T>, c: seq<T>)
    ensures a + (b + c) == (a + b) + c
  {
  }

  /** One rendered tuple is read back in one closure call, which fixes the form cell. */
  lemma GobbleRendered(p: (string, string), f: Form, rest: seq<string>, spaces: Option<Form>, formsEqual: bool)
    requires Renderable(p, f)
    requires spaces == None || spaces == Some(f)
    ensures Gobble(RenderTuple(p, f) + rest, spaces, formsEqual) == Step(Some(p), |RenderTuple(p, f)|, Some(f))
  {
    var l := RenderTuple(p, f) + rest;
    match f
    case Glued =>
      var t := "(" + p.0 + ";" + p.1 + ")";
      assert l[0] == t;
      IndexOfFirst("(" + p.0, ';', p.1 + ")");
      assert t == ("(" + p.0) + [';'] + (p.1 + ")");
      var k := |p.0| + 1;
      assert t[..k] == "(" + p.0;
      assert t[k + 1..] == p.1 + ")";
      assert ';' !in p.1 + ")";
      assert SplitOn(t, ';') == ["(" + p.0, p.1 + ")"];
      assert ("(" + p.0)[1..] == p.0;
      assert (p.1 + ")")[..|p.1|] == p.1;
    case Spaced =>
      assert l[0] == "(" + p.0 && l[1] == p.1 + ")";
      assert l[1] != ";" by { assert |p.1 + ")"| == 1 ==> p.1 + ")" == ")"; }
      assert ("(" + p.0)[1..] == p.0;
      assert (p.1 + ")")[..|p.1|] == p.1;
    case Separated =>
      assert l[0] == "(" + p.0 && l[1] == ";" && l[2] == p.1 + ")";
      assert ("(" + p.0)[1..] == p.0;
      assert (p.1 + ")")[..|p.1|] == p.1;
  }

  /** Reading a rendered tuple off the front of the tokens. */
  lemma TuplesRenderedHead(p: (string, string), f: Form, tail: seq<string>, spaces: Option<Form>, formsEqual: bool)
    requires Renderable(p, f)
    requires spaces == None || spaces == Some(f)
    ensures Tuples(RenderTuple(p, f) + tail, formsEqual, spaces) == [Some(p)] + Tuples(tail, formsEqual, Some(f))
  {
    var l := RenderTuple(p, f) + tail;
    GobbleRendered(p, f, tail, spaces, formsEqual);
    assert l[|RenderTuple(p, f)|..] == tail;
  }

  /** Tuples written in one form are all read back, and leave the form cell set to that form. */
  lemma {:induction false} TuplesRendered(ps: seq<(string, string)>, f: Form, rest: seq<string>, spaces: Option<Form>, formsEqual: bool)
    requires forall i | 0 <= i < |ps| :: Renderable(ps[i], f)
    requires spaces == None || spaces == Some(f)
    ensures Tuples(Render(ps, f) + rest, formsEqual, spaces)
         == Somes(ps) + Tuples(rest, formsEqual, if ps == [] then spaces else Some(f))
    decreases |ps|
  {
    if ps == [] {
      assert Render(ps, f) + rest == rest;
    } else {
      var tail := Render(ps[1..], f) + rest;
      var l := Render(ps, f) + rest;
      assert l == RenderTuple(ps[0], f) + tail;
      TuplesRenderedHead(ps[0], f, tail, spaces, formsEqual);
      TuplesRendered(ps[1..], f, rest, Some(f), formsEqual);
      var x, S, A := Some(ps[0]), Somes(ps[1..]), Tuples(rest, formsEqual, Some(f));
      assert Tuples(l, formsEqual, spaces) == [x] + (S + A);
      Assoc([x], S, A);
    }
  }

  /** `gobble_tuples` accepts each of the three forms: a list written in any
      one of them is read back exactly. */
  lemma GobbleTuplesRoundTrip(ps: seq<(string, string)>, f: Form, formsEqual: bool)
    requires forall i | 0 <= i < |ps| :: Renderable(ps[i], f)
    ensures Tuples(Render(ps, f), formsEqual, None) == Somes(ps)
  {
    TuplesRendered(ps, f, [], None, formsEqual);
    assert Render(ps, f) + [] == Render(ps, f);
  }

  /** With forms required to agree, a tuple in another form than the one
      the cell holds is rejected. */
  lemma GobbleOtherForm(q: (string, string), g: Form, rest: seq<string>, f: Form)
    requires Renderable(q, g) && f != g
    ensures Gobble(RenderTuple(q, g) + rest, Some(f), true).item == None
  {
    var l := RenderTuple(q, g) + rest;
    match g
    case Glued =>
      assert l[0] == "(" + q.0 + ";" + q.1 + ")";
    case Spaced =>
      assert l[0] == "(" + q.0 && l[1] == q.1 + ")";
      assert l[1] != ";" by { assert |q.1 + ")"| == 1 ==> q.1 + ")" == ")"; }
    case Separated =>
      assert l[0] == "(" + q.0 && l[1] == ";";
  }

  /** `gobble_tuples::<true>`: after tuples in form `f`, the first tuple
      written in another form yields `None`. */
  lemma MixedFormsRejected(ps: seq<(string, string)>, f: Form, q: (string, string), g: Form, rest: seq<string>)
    requires ps != [] && f != g
    requires forall i | 0 <= i < |ps| :: Renderable(ps[i], f)
    requires Renderable(q, g)
    ensures var items := Tuples(Render(ps, f) + RenderTuple(q, g) + rest, true, None);
      |items| > |ps| && items[..|ps|] == Somes(ps) && items[|ps|] == None
  {
    var tail := RenderTuple(q, g) + rest;
    assert Render(ps, f) + RenderTuple(q, g) + rest == Render(ps, f) + tail;
    TuplesRendered(ps, f, tail, None, true);
    GobbleOtherForm(q, g, rest, f);
  }

  // ---------------------------------------------------------------------
  // gobble_var_names_list
  // ---------------------------------------------------------------------

  /** `strip_bars`: both halves must be wrapped in `|...|`. */
  function StripBars(p: (string, string)): Option<(string, string)> {
    if |p.0| >= 2 && p.0[0] == '|' && p.0[|p.0| - 1] == '|'
       && |p.1| >= 2 && p.1[0] == '|' && p.1[|p.1| - 1] == '|'
    then Some((p.0[1..|p.0| - 1], p.1[1..|p.1| - 1]))
    else None
  }

  /** Collects the types of `(;T)` tuples; fails on any other item. */
  function TypesOf(items: seq<Option<(string, string)>>): (r: Option<seq<string>>)
    ensures r.Some? ==> |r.value| == |items|
    decreases |items|
  {
    if items == [] then Some([])
    else if items[0].None? || items[0].value.0 != "" then None
    else
      match TypesOf(items[1..])
      case None => None
      case Some(ts) => Some([items[0].value.1] + ts)
  }

  /** Collects `(|name| ; |type|)` tuples with their bars stripped; fails on any other item. */
  function NamesOf(items: seq<Option<(string, string)>>): (r: Option<seq<(string, string)>>)
    ensures r.Some? ==> |r.value| == |items|
    decreases |items|
  {
    if items == [] then Some([])
    else if items[0].None? || StripBars(items[0].value).None? then None
    else
      match NamesOf(items[1..])
      case None => None
      case Some(ns) => Some([StripBars(items[0].value).value] + ns)
  }

  /** `gobble_var_names_list`: a non-empty list of tuples in one form,
      either all type-only `(;T)` or all `(|name|;|type|)`; the first tuple
      decides which. */
  function GobbleVarNamesList(l: seq<string>): (r: Option<VarNames>)
    ensures r.Some? ==> Tuples(l, true, None) != []
    ensures r.Some? && r.value.TypeOnly? ==> |r.value.types| == |Tuples(l, true, None)|
    ensures r.Some? && r.value.NameAndType? ==> |r.value.pairs| == |Tuples(l, true, None)|
  {
    var items := Tuples(l, true, None);
    if items == [] || items[0].None? then None
    else if items[0].value.0 == "" then
      match TypesOf(items[1..])
      case None => None
      case Some(ts) => Some(TypeOnly([items[0].value.1] + ts))
    else
      match NamesOf(items)
      case None => None
      case Some(ns) => Some(NameAndType(ns))
  }

  function TypeTuples(ts: seq<string>): (r: seq<(string, string)>)
    ensures |r| == |ts| && forall i | 0 <= i < |ts| :: r[i] == ("", ts[i])
    decreases |ts|
  {
    if ts == [] then [] else [("", ts[0])] + TypeTuples(ts[1..])
  }

  function Bars(s: string): string {
    "|" + s + "|"
  }

  function NameTuples(ps: seq<(string, string)>): (r: seq<(string, string)>)
    ensures |r| == |ps| && forall i | 0 <= i < |ps| :: r[i] == (Bars(ps[i].0), Bars(ps[i].1))
    decreases |ps|
  {
    if ps == [] then [] else [(Bars(ps[0].0), Bars(ps[0].1))] + NameTuples(ps[1..])
  }

  /** The tokens of a variable-name list written in form `f`. */
  function RenderVarNames(v: VarNames, f: Form): seq<string> {
    match v
    case TypeOnly(ts) => Render(TypeTuples(ts), f)
    case NameAndType(ps) => Render(NameTuples(ps), f)
  }

  /** A non-empty list that reads back in form `f`. */
  predicate VarNamesRenderable(v: VarNames, f: Form) {
    match v
    case TypeOnly(ts) => ts != [] && (f == Glued ==> forall i | 0 <= i < |ts| :: ';' !in ts[i])
    case NameAndType(ps) => ps != [] && (f == Glued ==> forall i | 0 <= i < |ps| :: ';' !in ps[i].0 && ';' !in ps[i].1)
  }

  lemma {:induction false} TypesOfRendered(ts: seq<string>)
    ensures TypesOf(Somes(TypeTuples(ts))) == Some(ts)
    decreases |ts|
  {
    if ts != [] {
      var items := Somes(TypeTuples(ts));
      assert items[0] == Some(("", ts[0]));
      assert items[1..] == Somes(TypeTuples(ts[1..]));
      TypesOfRendered(ts[1..]);
      assert [ts[0]] + ts[1..] == ts;
    }
  }

  lemma {:induction false} NamesOfRendered(ps: seq<(string, string)>)
    ensures NamesOf(Somes(NameTuples(ps))) == Some(ps)
    decreases |ps|
  {
    if ps != [] {
      var b0, b1 := Bars(ps[0].0), Bars(ps[0].1);
      assert b0[1..|b0| - 1] == ps[0].0 && b1[1..|b1| - 1] == ps[0].1;
      var items := Somes(NameTuples(ps));
      assert items[0] == Some((b0, b1));
      assert StripBars(items[0].value) == Some(ps[0]);
      assert items[1..] == Somes(NameTuples(ps[1..]));
      NamesOfRendered(ps[1..]);
      assert [ps[0]] + ps[1..] == ps;
    }
  }

  lemma RenderableTuples(v: VarNames, f: Form)
    requires VarNamesRenderable(v, f)
    ensures v.TypeOnly? ==> forall i | 0 <= i < |TypeTuples(v.types)| :: Renderable(TypeTuples(v.types)[i], f)
    ensures v.NameAndType? ==> forall i | 0 <= i < |NameTuples(v.pairs)| :: Renderable(NameTuples(v.pairs)[i], f)
  {
    match v
    case TypeOnly(ts) =>
      forall i | 0 <= i < |ts| ensures Renderable(TypeTuples(ts)[i], f) {
        assert "(" + "" == "(";
      }
    case NameAndType(ps) =>
      forall i | 0 <= i < |ps| ensures Renderable(NameTuples(ps)[i], f) {
        var b0, b1 := Bars(ps[i].0), Bars(ps[i].1);
        assert ';' !in ps[i].0 ==> ';' !in b0;
        assert ';' !in ps[i].1 ==> ';' !in b1;
        assert ("(" + b0)[|"(" + b0| - 1] == '|';
      }
  }

  /** Round trip: a well-formed variable-name list, written in any one of
      the three tuple forms, is parsed back to itself. */
  lemma VarNamesRoundTrip(v: VarNames, f: Form)
    requires VarNamesRenderable(v, f)
    ensures GobbleVarNamesList(RenderVarNames(v, f)) == Some(v)
  {
    RenderableTuples(v, f);
    match v
    case TypeOnly(ts) =>
      GobbleTuplesRoundTrip(TypeTuples(ts), f, true);
      var items := Somes(TypeTuples(ts));
      assert items[1..] == Somes(TypeTuples(ts[1..]));
      TypesOfRendered(ts[1..]);
      assert [ts[0]] + ts[1..] == ts;
    case NameAndType(ps) =>
      GobbleTuplesRoundTrip(NameTuples(ps), f, true);
      NamesOfRendered(ps);
  }

  lemma {:induction false} TypesOfStopsAtNone(items: seq<Option<(string, string)>>, k: nat)
    requires k < |items| && items[k] == None
    ensures TypesOf(items) == None
    decreases k
  {
    if k > 0 && items[0].Some? && items[0].value.0 == "" {
      TypesOfStopsAtNone(items[1..], k - 1);
    }
  }

  lemma {:induction false} NamesOfStopsAtNone(items: seq<Option<(string, string)>>, k: nat)
    requires k < |items| && items[k] == None
    ensures NamesOf(items) == None
    decreases k
  {
    if k > 0 && items[0].Some? && StripBars(items[0].value).Some? {
      NamesOfStopsAtNone(items[1..], k - 1);
    }
  }

  /** A variable-name list whose tuples do not all share the first tuple's
      form is rejected. */
  lemma VarNamesMixedFormsRejected(v: VarNames, f: Form, q: (string, string), g: Form, rest: seq<string>)
    requires VarNamesRenderable(v, f) && Renderable(q, g) && f != g
    ensures GobbleVarNamesList(RenderVarNames(v, f) + RenderTuple(q, g) + rest) == None
  {
    RenderableTuples(v, f);
    match v
    case TypeOnly(ts) =>
      var ps := TypeTuples(ts);
      MixedFormsRejected(ps, f, q, g, rest);
      var items := Tuples(Render(ps, f) + RenderTuple(q, g) + rest, true, None);
      SomesHead(ps);
      assert items[0] == items[..|ps|][0];
      assert items[1..][|ps| - 1] == items[|ps|];
      TypesOfStopsAtNone(items[1..], |ps| - 1);
    case NameAndType(ns) =>
      var ps := NameTuples(ns);
      MixedFormsRejected(ps, f, q, g, rest);
      var items := Tuples(Render(ps, f) + RenderTuple(q, g) + rest, true, None);
      SomesHead(ps);
      assert items[0] == items[..|ps|][0];
      assert Bars(ns[0].0)[0] == '|';
      NamesOfStopsAtNone(items, |ps|);
  }
}

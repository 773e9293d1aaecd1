/** The read-only halves of the log-line handlers: resolving textual term
    ids against the id map (`parse_existing_id`, `gobble_children`,
    `gobble_id_pairs`), decoding each line's payload, building a partial
    dependency (`add_dependency`), and the blame loop of `[new-match]` and
    `[inst-discovered]` as a specification over the tokens. */
module Lines {
  import opened Items
  import opened Tokens

  /** Every id in the map refers to one of `n` terms. */
  predicate IdsIn(ids: map<TermId, TermIdx>, n: nat) {
    forall id | id in ids :: ids[id] < n
  }

  /** `parse_existing_id`: an unparsable id rejects the line, a parsable
      but unregistered id panics (`unwrap`). */
  function Resolve(ids: map<TermId, TermIdx>, s: string): (r: Res<TermIdx>)
    ensures r.Ok? <==> ParseTermId(s).Some? && ParseTermId(s).value in ids
    ensures r.Panic? <==> ParseTermId(s).Some? && ParseTermId(s).value !in ids
    ensures r.Ok? ==> r.value == ids[ParseTermId(s).value]
  {
    match ParseTermId(s)
    case None => Fail
    case Some(id) => if id in ids then Ok(ids[id]) else Panic
  }

  lemma ResolveIn(ids: map<TermId, TermIdx>, s: string, n: nat)
    requires IdsIn(ids, n) && Resolve(ids, s).Ok?
    ensures Resolve(ids, s).value < n
  {
  }

  /** A registered id, written out, resolves to the index it was registered with. */
  lemma ResolveRegistered(ids: map<TermId, TermIdx>, ns: string, n: nat, idx: TermIdx)
    requires '#' !in ns && n < USIZE_LIMIT
    ensures Resolve(ids[TermId(ns, n) := idx], ns + "#" + ShowNat(n)) == Ok(idx)
  {
    ParseTermIdShow(ns, n);
  }

  /** `gobble_children` and every `collect::<Option<Vec<_>>>` of resolved
      ids: all ids resolve, else the first one that does not decides. */
  function ResolveAll(ids: map<TermId, TermIdx>, ss: seq<string>): (r: Res<seq<TermIdx>>)
    ensures r.Ok? <==> forall i | 0 <= i < |ss| :: Resolve(ids, ss[i]).Ok?
    ensures r.Ok? ==> |r.value| == |ss| && forall i | 0 <= i < |ss| :: r.value[i] == Resolve(ids, ss[i]).value
    decreases |ss|
  {
    if ss == [] then Ok([])
    else
      var first :- Resolve(ids, ss[0]);
      var rest :- ResolveAll(ids, ss[1..]);
      assert forall i | 1 <= i < |ss| :: ss[i] == ss[1..][i - 1];
      Ok([first] + rest)
  }

  /** A list that does not resolve fails the way its first unresolved id
      does: `Fail` for an id that does not parse, a panic for one that was
      never defined. */
  lemma {:induction false} ResolveAllFirstFailure(ids: map<TermId, TermIdx>, ss: seq<string>)
    requires ResolveAll(ids, ss).IsFailure()
    ensures exists k | 0 <= k < |ss| ::
      ResolveAll(ids, ss).Void() == Resolve(ids, ss[k]).Void() && forall i | 0 <= i < k :: Resolve(ids, ss[i]).Ok?
    decreases |ss|
  {
    if Resolve(ids, ss[0]).Ok? {
      ResolveAllFirstFailure(ids, ss[1..]);
      var k :| 0 <= k < |ss[1..]| && ResolveAll(ids, ss[1..]).Void() == Resolve(ids, ss[1..][k]).Void()
        && forall i | 0 <= i < k :: Resolve(ids, ss[1..][i]).Ok?;
      assert forall i | 1 <= i < k + 1 :: ss[i] == ss[1..][i - 1];
      assert ResolveAll(ids, ss).Void() == Resolve(ids, ss[k + 1]).Void();
    } else {
      assert ResolveAll(ids, ss).Void() == Resolve(ids, ss[0]).Void();
    }
  }

  lemma ResolveAllIn(ids: map<TermId, TermIdx>, ss: seq<string>, n: nat)
    requires IdsIn(ids, n) && ResolveAll(ids, ss).Ok?
    ensures forall i | 0 <= i < |ResolveAll(ids, ss).value| :: ResolveAll(ids, ss).value[i] < n
  {
  }

  /** A tuple that was read and both of whose ids are registered. */
  predicate PairResolves(ids: map<TermId, TermIdx>, item: Option<(string, string)>) {
    item.Some? && Resolve(ids, item.value.0).Ok? && Resolve(ids, item.value.1).Ok?
  }

  /** Every tuple resolves. */
  predicate AllPairsResolve(ids: map<TermId, TermIdx>, items: seq<Option<(string, string)>>) {
    forall k | 0 <= k < |items| :: PairResolves(ids, items[k])
  }

  /** `collect::<Option<Vec<_>>>` over results: every value, in order, if
      all are present, else the first failure, which stops the iterator. */
  function Collect<T>(rs: seq<Res<T>>): (r: Res<seq<T>>)
    ensures r.Ok? <==> forall k | 0 <= k < |rs| :: rs[k].Ok?
    ensures r.Ok? ==> |r.value| == |rs| && forall k | 0 <= k < |rs| :: rs[k] == Ok(r.value[k])
    ensures !r.Ok? ==> exists k | 0 <= k < |rs| :: !rs[k].Ok? && r.Fail? == rs[k].Fail? && forall i | 0 <= i < k :: rs[i].Ok?
    decreases |rs|
  {
    if rs == [] then Ok([])
    else
      assert forall k | 1 <= k < |rs| :: rs[k] == rs[1..][k - 1];
      var first :- rs[0];
      var rest :- Collect(rs[1..]);
      Ok([first] + rest)
  }

  /** Resolves each tuple read by `gobble_tuples::<true>`, in order; the
      first tuple that does not resolve stops the collect. Succeeds exactly
      when every tuple was read and names registered ids, and then pair k
      holds the indices of tuple k. */
  function ResolvePairs(ids: map<TermId, TermIdx>, items: seq<Option<(string, string)>>): (r: Res<seq<(TermIdx, TermIdx)>>)
    ensures r.Ok? <==> AllPairsResolve(ids, items)
    ensures r.Ok? ==> |r.value| == |items| && forall k | 0 <= k < |items| :: ResolvePair(ids, items[k]) == Ok(r.value[k])
  {
    var rs := seq(|items|, k requires 0 <= k < |items| => ResolvePair(ids, items[k]));
    assert forall k | 0 <= k < |items| :: rs[k] == ResolvePair(ids, items[k]);
    Collect(rs)
  }

  /** One tuple: `None` (a tuple that was not read) fails, otherwise both
      ids are resolved, the first one first. */
  function ResolvePair(ids: map<TermId, TermIdx>, item: Option<(string, string)>): (r: Res<(TermIdx, TermIdx)>)
    ensures r.Ok? <==> PairResolves(ids, item)
    ensures r.Ok? ==> r.value == (Resolve(ids, item.value.0).value, Resolve(ids, item.value.1).value)
  {
    match item
    case None => Fail
    case Some((a, b)) =>
      var first :- Resolve(ids, a);
      var second :- Resolve(ids, b);
      Ok((first, second))
  }

  /** `gobble_id_pairs`: the argument equalities of a congruence explanation. */
  function GobbleIdPairs(ids: map<TermId, TermIdx>, l: seq<string>): (r: Res<seq<(TermIdx, TermIdx)>>)
    ensures r.Ok? <==> AllPairsResolve(ids, Tuples(l, true, None))
    ensures r.Ok? ==> |r.value| == |Tuples(l, true, None)| && forall k | 0 <= k < |r.value| ::
      ResolvePair(ids, Tuples(l, true, None)[k]) == Ok(r.value[k])
  {
    ResolvePairs(ids, Tuples(l, true, None))
  }

  /** Argument pairs that switch tuple form part-way are rejected, whatever
      follows: `gobble_tuples::<true>` yields `None` at the first tuple of
      another form, and the collect stops there. */
  lemma GobbleIdPairsMixedFormsRejected(ids: map<TermId, TermIdx>, ps: seq<(string, string)>, f: Form,
                                        q: (string, string), g: Form, rest: seq<string>)
    requires ps != [] && f != g
    requires forall i | 0 <= i < |ps| :: Renderable(ps[i], f)
    requires Renderable(q, g)
    ensures !GobbleIdPairs(ids, Render(ps, f) + RenderTuple(q, g) + rest).Ok?
  {
    MixedFormsRejected(ps, f, q, g, rest);
    var items := Tuples(Render(ps, f) + RenderTuple(q, g) + rest, true, None);
    assert !PairResolves(ids, items[|ps|]);
  }

  /** `l.collect::<Vec<_>>().join(" ")`. */
  function Join(ws: seq<string>): string
    decreases |ws|
  {
    if ws == [] then "" else if |ws| == 1 then ws[0] else ws[0] + " " + Join(ws[1..])
  }

  // ---------------------------------------------------------------------
  // Payload decoders, one per line kind
  // ---------------------------------------------------------------------

  /** `[tool-version]`: solver name and a semantic version, nothing more. */
  function ParseVersionLine(l: seq<string>): (r: Res<SolverVersion>)
    ensures r.Ok? ==> |l| == 2 && r.value.solver == l[0] && ParseVersion(l[1]) == Some(r.value.version)
    ensures !r.Panic?
  {
    if |l| != 2 then Fail
    else
      match ParseVersion(l[1])
      case None => Fail
      case Some(v) => Ok(SolverVersion(l[0], v))
  }

  datatype QuantLine = QuantLine(id: TermId, kind: QuantKind, numVars: nat, children: seq<TermIdx>)

  /** `[mk-quant]`: id, name, number of variables, then at least one child. */
  function ParseQuantLine(ids: map<TermId, TermIdx>, l: seq<string>): (r: Res<QuantLine>)
    ensures r.Ok? ==> (|l| >= 4 && ParseTermId(l[0]) == Some(r.value.id) && r.value.kind == ParseQuantKind(l[1])
                       && ParseUsize(l[2]) == Some(r.value.numVars) && ResolveAll(ids, l[3..]) == Ok(r.value.children))
    ensures |l| >= 3 && ParseTermId(l[0]).Some? && ParseUsize(l[2]).Some? && |l| == 3 ==> r.Panic?
  {
    if |l| < 1 || ParseTermId(l[0]).None? then Fail
    else if |l| < 2 then Fail
    else if |l| < 3 || ParseUsize(l[2]).None? then Fail
    else
      var children :- ResolveAll(ids, l[3..]);
      if children == [] then Panic
      else Ok(QuantLine(ParseTermId(l[0]).value, ParseQuantKind(l[1]), ParseUsize(l[2]).value, children))
  }

  /** `[mk-var]`: id and variable index, nothing more. */
  function ParseVarLine(l: seq<string>): (r: Res<(TermId, TermKind)>)
    ensures r.Ok? ==> |l| == 2 && ParseTermId(l[0]) == Some(r.value.0) && ParseVar(l[1]) == Some(r.value.1)
    ensures !r.Panic?
  {
    if |l| < 1 || ParseTermId(l[0]).None? then Fail
    else if |l| < 2 || ParseVar(l[1]).None? then Fail
    else if |l| > 2 then Fail
    else Ok((ParseTermId(l[0]).value, ParseVar(l[1]).value))
  }

  datatype AppLine = AppLine(id: TermId, kind: TermKind, children: seq<TermIdx>)

  /** `[mk-app]` and `[mk-proof]`: id, name, then any number of children. */
  function ParseAppLine(ids: map<TermId, TermIdx>, l: seq<string>, isProof: bool): (r: Res<AppLine>)
    ensures r.Ok? ==> (|l| >= 2 && ParseTermId(l[0]) == Some(r.value.id) && r.value.kind == ParseProofApp(isProof, l[1])
                       && ResolveAll(ids, l[2..]) == Ok(r.value.children))
  {
    if |l| < 1 || ParseTermId(l[0]).None? then Fail
    else if |l| < 2 then Fail
    else
      var children :- ResolveAll(ids, l[2..]);
      Ok(AppLine(ParseTermId(l[0]).value, ParseProofApp(isProof, l[1]), children))
  }

  /** `[attach-meaning]`: id, theory, then the value's words joined by spaces. */
  function ParseMeaningLine(ids: map<TermId, TermIdx>, l: seq<string>): (r: Res<(TermIdx, Meaning)>)
    ensures r.Ok? ==> |l| >= 2 && Resolve(ids, l[0]) == Ok(r.value.0) && r.value.1 == Meaning(l[1], Join(l[2..]))
  {
    if |l| < 2 then Fail
    else
      var idx :- Resolve(ids, l[0]);
      Ok((idx, Meaning(l[1], Join(l[2..]))))
  }

  /** `[attach-var-names]`: id, then a variable-name list; the list is
      decoded before the id is resolved. */
  function ParseVarNamesLine(ids: map<TermId, TermIdx>, l: seq<string>): (r: Res<(TermIdx, VarNames)>)
    ensures r.Ok? ==> |l| >= 1 && Resolve(ids, l[0]) == Ok(r.value.0) && GobbleVarNamesList(l[1..]) == Some(r.value.1)
    ensures |l| >= 1 && GobbleVarNamesList(l[1..]).None? ==> r.Fail?
  {
    if |l| < 1 then Fail
    else
      match GobbleVarNamesList(l[1..])
      case None => Fail
      case Some(names) =>
        var idx :- Resolve(ids, l[0]);
        Ok((idx, names))
  }

  /** `[attach-enode]`: id and a generation number, nothing more. */
  function ParseEnodeLine(ids: map<TermId, TermIdx>, l: seq<string>): (r: Res<TermIdx>)
    ensures r.Ok? ==> |l| == 2 && Resolve(ids, l[0]) == Ok(r.value) && ParseUsize(l[1]).Some?
  {
    if |l| < 1 then Fail
    else
      var idx :- Resolve(ids, l[0]);
      if |l| < 2 || ParseUsize(l[1]).None? then Fail
      else if |l| > 2 then Fail
      else Ok(idx)
  }

  /** The kind-dependent part of an `[eq-expl]` line (the tokens before
      `;`), as an explanation whose target is still the source term. */
  function ExplanationInfo(ids: map<TermId, TermIdx>, from: TermIdx, kind: string, info: seq<string>): (r: Res<EqualityExpl>)
    ensures r.Ok? ==> !r.value.Root? && FromTo(r.value) == (from, from)
    ensures r.Ok? && r.value.Literal? ==> r.value.eq in ids.Values
    ensures kind == "lit" ==>
      (r.Ok? <==> |info| == 1 && Resolve(ids, info[0]).Ok?)
      && (r.Ok? ==> r.value == Literal(from, Resolve(ids, info[0]).value, from))
    ensures kind == "cg" ==>
      (r.Ok? <==> GobbleIdPairs(ids, info).Ok?)
      && (r.Ok? ==> r.value == Congruence(from, GobbleIdPairs(ids, info).value, from))
    ensures kind == "th" ==> (r.Ok? <==> |info| == 1) && (r.Ok? ==> r.value == Theory(from, info[0], from))
    ensures kind == "ax" ==> (r.Ok? <==> info == []) && (r.Ok? ==> r.value == Axiom(from, from))
    ensures kind != "lit" && kind != "cg" && kind != "th" && kind != "ax" ==> r == Ok(Unknown(kind, from, info, from))
  {
    if kind == "lit" then
      if info == [] then Fail
      else
        var eq :- Resolve(ids, info[0]);
        if |info| > 1 then Fail else Ok(Literal(from, eq, from))
    else if kind == "cg" then
      var argEqs :- GobbleIdPairs(ids, info);
      Ok(Congruence(from, argEqs, from))
    else if kind == "th" then
      if |info| != 1 then Fail else Ok(Theory(from, info[0], from))
    else if kind == "ax" then
      if info != [] then Fail else Ok(Axiom(from, from))
    else Ok(Unknown(kind, from, info, from))
  }

  /** The explanation of an `[eq-expl]` line after its source term and kind:
      `root` takes nothing more; every other kind takes its information up
      to `;`, then exactly one target term. */
  function ParseExplanation(ids: map<TermId, TermIdx>, from: TermIdx, kind: string, l: seq<string>): (r: Res<EqualityExpl>)
    ensures r.Ok? ==> FromTo(r.value).0 == from
    ensures r.Ok? && r.value.Literal? ==> r.value.eq in ids.Values
    ensures r.Ok? && kind == "root" <==> r == Ok(Root(from)) && l == []
    ensures r.Ok? && kind != "root" ==>
      (";" in l && |TakeUntil(l, ";").1| == 1 && Resolve(ids, TakeUntil(l, ";").1[0]) == Ok(FromTo(r.value).1))
  {
    if kind == "root" then
      if l == [] then Ok(Root(from)) else Fail
    else
      var (info, after) := TakeUntil(l, ";");
      var e :- ExplanationInfo(ids, from, kind, info);
      if after == [] then Fail
      else
        var to :- Resolve(ids, after[0]);
        if |after| > 1 then Fail else Ok(e.(to := to))
  }

  /** `[eq-expl]`: the source term, the kind, then the explanation. */
  function ParseEqExplLine(ids: map<TermId, TermIdx>, l: seq<string>): (r: Res<(TermIdx, EqualityExpl)>)
    ensures r.Ok? ==> (|l| >= 2 && Resolve(ids, l[0]) == Ok(r.value.0)
                       && ParseExplanation(ids, r.value.0, l[1], l[2..]) == Ok(r.value.1))
    ensures r.Ok? && r.value.1.Literal? ==> r.value.1.eq in ids.Values
  {
    if |l| < 1 then Fail
    else
      var idx :- Resolve(ids, l[0]);
      if |l| < 2 then Fail
      else
        var e :- ParseExplanation(ids, idx, l[1], l[2..]);
        Ok((idx, e))
  }

  lemma {:induction false} TakeUntilAppend(l: seq<string>, end: string, x: string)
    requires end in l
    ensures TakeUntil(l + [x], end) == (TakeUntil(l, end).0, TakeUntil(l, end).1 + [x])
    decreases |l|
  {
    if l[0] != end {
      assert (l + [x])[1..] == l[1..] + [x];
      TakeUntilAppend(l[1..], end, x);
    } else {
      assert (l + [x])[1..] == l[1..] + [x];
    }
  }

  /** An explanation line with one token too many is rejected, whatever the
      kind: the check for unexpected trailing data. */
  lemma ExplanationRejectsTrailing(ids: map<TermId, TermIdx>, from: TermIdx, kind: string, l: seq<string>, x: string)
    requires ParseExplanation(ids, from, kind, l).Ok?
    ensures ParseExplanation(ids, from, kind, l + [x]) == Fail
  {
    if kind != "root" {
      TakeUntilAppend(l, ";", x);
    }
  }

  /** The optional resulting term and generation of an `[instance]` line,
      after its fingerprint. */
  function ParseInstanceTail(ids: map<TermId, TermIdx>, l: seq<string>): (r: Res<(Option<TermIdx>, Option<nat>)>)
    ensures r.Ok? && r.value.0.Some? ==> l != [] && Resolve(ids, l[0]) == Ok(r.value.0.value)
    ensures r.Ok? && r.value.1.Some? ==> exists k | 0 <= k < |l| - 1 :: l[k] == ";" && ParseUsize(l[k + 1]) == r.value.1
    ensures l == [] ==> r == Ok((None, None))
    ensures var next := if l == [] then Fail else Resolve(ids, l[0]);
      var w := if next.Ok? then l[1..] else l;
      (r.Panic? <==> next.Panic?)
      && (!next.Panic? ==> (r.Ok? <==> w == [] || (|w| >= 2 && w[0] == ";" && ParseUsize(w[1]).Some?)))
      && (r.Ok? ==> r.value == (if next.Ok? then Some(next.value) else None, if w == [] then None else ParseUsize(w[1])))
  {
    var next := if l == [] then Fail else Resolve(ids, l[0]);
    if next.Panic? then Panic
    else
      var rest := if next.Ok? then l[1..] else l;
      var term := if next.Ok? then Some(next.value) else None;
      if rest == [] then Ok((term, None))
      else if |rest| >= 2 && rest[0] == ";" then
        match ParseUsize(rest[1])
        case None => Fail
        case Some(g) =>
          assert l[|l| - |rest|] == ";" && l[|l| - |rest| + 1] == rest[1];
          Ok((term, Some(g)))
      else Fail
  }

  // ---------------------------------------------------------------------
  // Dependencies
  // ---------------------------------------------------------------------

  /** What `add_dependency` and the blame loop read of the arenas: the
      producer of a term is an instantiation, the term a literal explanation
      names exists, and every instantiation has its line number. */
  predicate Indexed(terms: seq<Term>, insts: seq<Instantiation>) {
    (forall i | 0 <= i < |terms| ::
       (terms[i].respInst.Some? ==> terms[i].respInst.value < |insts|)
       && forall e | e in terms[i].equalityExpls :: e.Literal? ==> e.eq < |terms|)
    && forall k | 0 <= k < |insts| :: insts[k].lineNo.Some?
  }

  /** `add_dependency`: a term produced by an instantiation yields that
      instantiation and a partial dependency starting at its line. */
  function AddDependency(terms: seq<Term>, insts: seq<Instantiation>, t: TermIdx, depType: DepType): (r: Option<(InstIdx, Dependency)>)
    requires t < |terms| && Indexed(terms, insts)
    ensures r.Some? <==> terms[t].respInst.Some?
    ensures r.Some? ==> r.value.0 == terms[t].respInst.value && r.value.0 < |insts|
    ensures r.Some? ==> var producer := insts[r.value.0];
      r.value.1 == Dependency(producer.lineNo.value, None, Some(t), depType, producer.quant, producer.quantDiscovered)
  {
    match terms[t].respInst
    case None => None
    case Some(i) =>
      var producer := insts[i];
      Some((i, Dependency(producer.lineNo.value, None, Some(t), depType, producer.quant, producer.quantDiscovered)))
  }

  function OptLinks(o: Option<(InstIdx, Dependency)>): seq<(InstIdx, Dependency)> {
    if o.Some? then [o.value] else []
  }

  /** The equality dependencies a blamed pair `(f s)` contributes: one per
      literal explanation of `f` that equates `f` with `s` and whose
      equality was produced by an instantiation. */
  function LiteralLinks(terms: seq<Term>, insts: seq<Instantiation>, eqs: seq<EqualityExpl>, f: TermIdx, s: TermIdx): (r: seq<(InstIdx, Dependency)>)
    requires Indexed(terms, insts)
    requires forall e | e in eqs :: e.Literal? ==> e.eq < |terms|
    ensures |r| <= |eqs|
    decreases |eqs|
  {
    if eqs == [] then []
    else OptLinks(LiteralLink(terms, insts, eqs[0], f, s)) + LiteralLinks(terms, insts, eqs[1..], f, s)
  }

  /** The equality dependency one explanation of `f` contributes, if any. */
  function LiteralLink(terms: seq<Term>, insts: seq<Instantiation>, e: EqualityExpl, f: TermIdx, s: TermIdx): Option<(InstIdx, Dependency)>
    requires Indexed(terms, insts)
    requires e.Literal? ==> e.eq < |terms|
  {
    if e.Literal? && FromTo(e) == (f, s) then AddDependency(terms, insts, e.eq, EqualityDep) else None
  }

  /** The explanations from `j` on contribute what explanation `j` does,
      then what the rest do. */
  lemma LiteralLinksStep(terms: seq<Term>, insts: seq<Instantiation>, eqs: seq<EqualityExpl>, j: nat, f: TermIdx, s: TermIdx)
    requires Indexed(terms, insts) && j < |eqs|
    requires forall e | e in eqs :: e.Literal? ==> e.eq < |terms|
    ensures LiteralLinks(terms, insts, eqs[j..], f, s)
         == OptLinks(LiteralLink(terms, insts, eqs[j], f, s)) + LiteralLinks(terms, insts, eqs[j + 1..], f, s)
  {
    assert eqs[j..][0] == eqs[j] && eqs[j..][1..] == eqs[j + 1..];
  }

  /** What a prefix of the blame loop has produced: its outcome so far, the
      (instantiation, dependency) pairs pushed, the blamed items and the
      terms whose equality explanations were consulted. */
  datatype Blamed = Blamed(outcome: Res<()>, links: seq<(InstIdx, Dependency)>, blamed: seq<BlamedTermItem>, eqExpls: seq<TermIdx>)

  /** `b` followed by what comes after it. */
  function Then(b: Blamed, rest: Blamed): Blamed {
    Blamed(rest.outcome, b.links + rest.links, b.blamed + rest.blamed, b.eqExpls + rest.eqExpls)
  }

  /** One iteration of the blame loop on the non-empty `words`: the tokens it
      consumes and what it produces.  A word opening with `(` starts a pair
      (only in `[new-match]`, `pairs`); any other word is a single term. */
  function BlameStep(ids: map<TermId, TermIdx>, terms: seq<Term>, insts: seq<Instantiation>, words: seq<string>, pairs: bool): (r: Res<(nat, Blamed)>)
    requires words != [] && IdsIn(ids, |terms|) && Indexed(terms, insts)
    ensures r.Ok? ==> 1 <= r.value.0 <= |words| && r.value.1.outcome == Ok(()) && |r.value.1.blamed| == 1
  {
    var word := words[0];
    if pairs && StartsWith(word, '(') then
      if |words| < 2 || !EndsWith(words[1], ')') then Fail
      else
        var f :- Resolve(ids, word[1..]);
        var s :- Resolve(ids, words[1][..|words[1]| - 1]);
        if f != s then
          Ok((2, Blamed(Ok(()), LiteralLinks(terms, insts, terms[f].equalityExpls, f, s), [Pair(f, s)], [f])))
        else
          Ok((2, Blamed(Ok(()), [], [Pair(f, s)], [])))
    else
      var t :- Resolve(ids, word);
      Ok((1, Blamed(Ok(()), OptLinks(AddDependency(terms, insts, t, TermDep)), [Single(t)], [])))
  }

  /** The whole blame loop: iterations run until the words are exhausted or
      one of them rejects the line; what earlier iterations pushed stays. */
  function Blame(ids: map<TermId, TermIdx>, terms: seq<Term>, insts: seq<Instantiation>, words: seq<string>, pairs: bool): (r: Blamed)
    requires IdsIn(ids, |terms|) && Indexed(terms, insts)
    decreases |words|
  {
    if words == [] then Blamed(Ok(()), [], [], [])
    else
      var step := BlameStep(ids, terms, insts, words, pairs);
      if step.IsFailure() then Blamed(step.Void(), [], [], [])
      else Then(step.value.1, Blame(ids, terms, insts, words[step.value.0..], pairs))
  }

  /** The blame loop after a prefix `acc` of it: an iteration that
      succeeds extends the prefix, one that fails ends the loop with the
      prefix's results. */
  lemma BlameAfter(ids: map<TermId, TermIdx>, terms: seq<Term>, insts: seq<Instantiation>, rest: seq<string>, pairs: bool, acc: Blamed)
    requires rest != [] && IdsIn(ids, |terms|) && Indexed(terms, insts)
    ensures var step := BlameStep(ids, terms, insts, rest, pairs);
      if step.Ok? then
        Then(acc, Blame(ids, terms, insts, rest, pairs)) == Then(Then(acc, step.value.1), Blame(ids, terms, insts, rest[step.value.0..], pairs))
      else
        Then(acc, Blame(ids, terms, insts, rest, pairs)) == Blamed(step.Void(), acc.links, acc.blamed, acc.eqExpls)
  {
    var step := BlameStep(ids, terms, insts, rest, pairs);
    if step.Ok? {
      var (used, piece) := step.value;
      var tail := Blame(ids, terms, insts, rest[used..], pairs);
      assert Blame(ids, terms, insts, rest, pairs) == Then(piece, tail);
      ThenAssoc(acc, piece, tail);
    } else {
      assert Blame(ids, terms, insts, rest, pairs) == Blamed(step.Void(), [], [], []);
      ThenEmpty(acc, step.Void());
    }
  }

  lemma ThenAssoc(a: Blamed, b: Blamed, c: Blamed)
    ensures Then(a, Then(b, c)) == Then(Then(a, b), c)
  {
    assert a.links + (b.links + c.links) == a.links + b.links + c.links;
    assert a.blamed + (b.blamed + c.blamed) == a.blamed + b.blamed + c.blamed;
    assert a.eqExpls + (b.eqExpls + c.eqExpls) == a.eqExpls + b.eqExpls + c.eqExpls;
  }

  lemma ThenEmpty(a: Blamed, r: Res<()>)
    ensures Then(a, Blamed(r, [], [], [])) == Blamed(r, a.links, a.blamed, a.eqExpls)
  {
    assert a.links + [] == a.links && a.blamed + [] == a.blamed && a.eqExpls + [] == a.eqExpls;
  }

  lemma NothingThen(b: Blamed)
    ensures Then(Blamed(Ok(()), [], [], []), b) == b
  {
    assert [] + b.links == b.links && [] + b.blamed == b.blamed && [] + b.eqExpls == b.eqExpls;
  }

  /** A successful blame loop blames one item per iteration; one that fails
      has still blamed only whole iterations. */
  lemma {:induction false} BlameShape(ids: map<TermId, TermIdx>, terms: seq<Term>, insts: seq<Instantiation>, words: seq<string>, pairs: bool)
    requires IdsIn(ids, |terms|) && Indexed(terms, insts)
    ensures var b := Blame(ids, terms, insts, words, pairs);
      |b.blamed| <= |words| && (!pairs && b.outcome.Ok? ==> |b.blamed| == |words|)
    decreases |words|
  {
    if words != [] {
      var step := BlameStep(ids, terms, insts, words, pairs);
      if !step.IsFailure() {
        BlameShape(ids, terms, insts, words[step.value.0..], pairs);
      }
    }
  }

  /** A pushed link is a dependency of an earlier instantiation: it is
      still open (no `to`), starts at the producer's line, and names the
      term it blames. */
  predicate OpenLink(insts: seq<Instantiation>, link: (InstIdx, Dependency)) {
    var (i, d) := link;
    i < |insts| && insts[i].lineNo.Some? && d.from == insts[i].lineNo.value && d.to.None? && d.blamed.Some?
    && d.quant == insts[i].quant && d.quantDiscovered == insts[i].quantDiscovered
    && (d.depType == TermDep || d.depType == EqualityDep)
  }

  predicate OpenLinks(insts: seq<Instantiation>, links: seq<(InstIdx, Dependency)>) {
    forall k | 0 <= k < |links| :: OpenLink(insts, links[k])
  }

  lemma OpenLinksAppend(insts: seq<Instantiation>, a: seq<(InstIdx, Dependency)>, b: seq<(InstIdx, Dependency)>)
    requires OpenLinks(insts, a) && OpenLinks(insts, b)
    ensures OpenLinks(insts, a + b)
  {
    forall k | 0 <= k < |a + b| ensures OpenLink(insts, (a + b)[k]) {
      if k >= |a| {
        assert (a + b)[k] == b[k - |a|];
      }
    }
  }

  /** Every link the blame loop pushes is open. */
  lemma {:induction false} BlameLinks(ids: map<TermId, TermIdx>, terms: seq<Term>, insts: seq<Instantiation>, words: seq<string>, pairs: bool)
    requires IdsIn(ids, |terms|) && Indexed(terms, insts)
    ensures OpenLinks(insts, Blame(ids, terms, insts, words, pairs).links)
    decreases |words|
  {
    if words != [] {
      var step := BlameStep(ids, terms, insts, words, pairs);
      if !step.IsFailure() {
        var (used, piece) := step.value;
        BlameLinks(ids, terms, insts, words[used..], pairs);
        var word := words[0];
        if pairs && StartsWith(word, '(') {
          var f := Resolve(ids, word[1..]).value;
          var s := Resolve(ids, words[1][..|words[1]| - 1]).value;
          if f != s {
            LiteralLinksShape(terms, insts, terms[f].equalityExpls, f, s);
          }
        }
        assert OpenLinks(insts, piece.links);
        OpenLinksAppend(insts, piece.links, Blame(ids, terms, insts, words[used..], pairs).links);
      }
    }
  }

  /** The links of one blamed pair are open equality dependencies. */
  lemma {:induction false} LiteralLinksShape(terms: seq<Term>, insts: seq<Instantiation>, eqs: seq<EqualityExpl>, f: TermIdx, s: TermIdx)
    requires Indexed(terms, insts)
    requires forall e | e in eqs :: e.Literal? ==> e.eq < |terms|
    ensures OpenLinks(insts, LiteralLinks(terms, insts, eqs, f, s))
    decreases |eqs|
  {
    if eqs != [] {
      LiteralLinksShape(terms, insts, eqs[1..], f, s);
      var e := eqs[0];
      var head := OptLinks(LiteralLink(terms, insts, e, f, s));
      assert OpenLinks(insts, head);
      OpenLinksAppend(insts, head, LiteralLinks(terms, insts, eqs[1..], f, s));
    }
  }

  /** The dependencies of a list of links. */
  function Deps(links: seq<(InstIdx, Dependency)>): (r: seq<Dependency>)
    ensures |r| == |links| && forall k | 0 <= k < |links| :: r[k] == links[k].1
  {
    seq(|links|, k requires 0 <= k < |links| => links[k].1)
  }

  lemma DepsAppend(a: seq<(InstIdx, Dependency)>, b: seq<(InstIdx, Dependency)>)
    ensures Deps(a + b) == Deps(a) + Deps(b)
  {
    var l, r := Deps(a + b), Deps(a) + Deps(b);
    forall k | 0 <= k < |l| ensures l[k] == r[k] {
      if k < |a| {
        assert (a + b)[k] == a[k];
      } else {
        assert (a + b)[k] == b[k - |a|];
      }
    }
  }

  /** A bucket holding `start` and the dependencies of `links` grows by
      those of `more`. */
  lemma BucketGrows(m: map<nat, seq<Dependency>>, key: nat, start: seq<Dependency>,
                    links: seq<(InstIdx, Dependency)>, more: seq<(InstIdx, Dependency)>)
    ensures m[key := start + Deps(links)][key := start + Deps(links) + Deps(more)] == m[key := start + Deps(links + more)]
  {
    DepsAppend(links, more);
    assert start + Deps(links) + Deps(more) == start + (Deps(links) + Deps(more));
  }

  /** The instantiations of a list of links. */
  function Insts(links: seq<(InstIdx, Dependency)>): (r: seq<InstIdx>)
    ensures |r| == |links| && forall k | 0 <= k < |links| :: r[k] == links[k].0
  {
    seq(|links|, k requires 0 <= k < |links| => links[k].0)
  }

  /** `add_blank_dependency_if_needed`: the placeholder for an instantiation
      that depends on no other. */
  function BlankDependency(quant: QuantIdx, quantDiscovered: bool, matchLine: nat): (d: Dependency)
    ensures d.from == matchLine && d.to.None? && d.blamed.None? && d.depType == NoCause
  {
    Dependency(matchLine, None, None, NoCause, quant, quantDiscovered)
  }

  /** The bucket a `[new-match]` or `[inst-discovered]` line leaves under its
      match line: the dependencies pushed, then the placeholder if the loop
      completed without pushing any. */
  function MatchBucket(b: Blamed, quant: QuantIdx, quantDiscovered: bool, matchLine: nat): seq<Dependency> {
    Deps(b.links) + (if b.outcome.Ok? && b.links == [] then [BlankDependency(quant, quantDiscovered, matchLine)] else [])
  }

  /** After a successful blame loop, the bucket is never empty, and it
      holds the placeholder (and only it) exactly when no earlier
      instantiation was blamed. */
  lemma MatchBucketNonEmpty(ids: map<TermId, TermIdx>, terms: seq<Term>, insts: seq<Instantiation>, words: seq<string>, pairs: bool,
                            quant: QuantIdx, quantDiscovered: bool, matchLine: nat)
    requires IdsIn(ids, |terms|) && Indexed(terms, insts)
    requires Blame(ids, terms, insts, words, pairs).outcome.Ok?
    ensures var bucket := MatchBucket(Blame(ids, terms, insts, words, pairs), quant, quantDiscovered, matchLine);
      |bucket| >= 1
      && ((exists d | d in bucket :: d.depType == NoCause) <==> Blame(ids, terms, insts, words, pairs).links == [])
      && (Blame(ids, terms, insts, words, pairs).links == [] ==> bucket == [BlankDependency(quant, quantDiscovered, matchLine)])
  {
    var b := Blame(ids, terms, insts, words, pairs);
    BlameLinks(ids, terms, insts, words, pairs);
    var bucket := MatchBucket(b, quant, quantDiscovered, matchLine);
    if b.links != [] {
      assert bucket == Deps(b.links);
      forall d | d in bucket ensures d.depType != NoCause {
        var k :| 0 <= k < |bucket| && bucket[k] == d;
      }
    } else {
      assert bucket[0].depType == NoCause;
    }
  }
}

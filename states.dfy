/** The state of the Z3 log parser as a value, and what each handler of
    the `Z3LogParser` interface does to it.  Every handler is a function
    from the state before a line to the handler's result and the state
    after it (`Outcome`); the class `Parser.Z3Parser` performs the same
    updates in place.  `Valid` is the invariant that keeps every index the
    handlers follow in range, and every handler preserves it. */
module States {
  import opened Items
  import opened Tokens
  import opened Lines

  datatype ParserState = ParserState(
    versionInfo: Option<SolverVersion>,
    termMap: map<TermId, TermIdx>,
    discoveredMap: map<DiscoveredId, QuantIdx>,
    terms: seq<Term>,
    quantifiers: seq<Quantifier>,
    matches: map<Fingerprint, Instantiation>,
    instantiations: seq<Instantiation>,
    instStack: seq<InstIdx>,
    tempDependencies: map<nat, seq<Dependency>>,
    dependencies: seq<Dependency>)

  /** A handler's result (`Some(())`, `None` or a panic) and the state it leaves. */
  datatype Outcome = Outcome(result: Res<()>, state: ParserState)

  /** `Z3Parser::default`: everything empty. */
  function Default(): (s: ParserState)
    ensures s.versionInfo.None? && s.termMap == map[] && s.discoveredMap == map[]
    ensures s.terms == [] && s.quantifiers == [] && s.matches == map[] && s.instantiations == []
    ensures s.instStack == [] && s.tempDependencies == map[] && s.dependencies == []
  {
    ParserState(None, map[], map[], [], [], map[], [], [], map[], [])
  }

  // ---------------------------------------------------------------------
  // The invariant
  // ---------------------------------------------------------------------

  /** Dependencies waiting in a bucket: not yet closed, from a real line. */
  predicate OpenDeps(ds: seq<Dependency>) {
    forall d | d in ds :: d.to.None? && d.from >= 1
  }

  /** Dependencies of finished instantiations: closed, between real lines. */
  predicate ClosedDeps(ds: seq<Dependency>) {
    forall d | d in ds :: d.to.Some? && d.to.value >= 1 && d.from >= 1
  }

  /** A promoted instantiation has its line, its quantifier and its bucket. */
  predicate InstValid(i: Instantiation, nq: nat, buckets: set<nat>) {
    i.lineNo.Some? && i.lineNo.value >= 1 && i.quant < nq && i.matchLineNo in buckets
  }

  /** A pending match has not been promoted yet and has its quantifier and bucket. */
  predicate MatchValid(m: Instantiation, nq: nat, buckets: set<nat>) {
    m.lineNo.None? && m.resultingTerm.None? && m.quant < nq && m.matchLineNo in buckets
  }

  predicate DiscoveredValid(s: ParserState) {
    forall d | d in s.discoveredMap :: s.discoveredMap[d] < |s.quantifiers|
  }

  predicate QuantTermsValid(s: ParserState) {
    forall i | 0 <= i < |s.terms| :: s.terms[i].kind.Quant? ==> s.terms[i].kind.qidx < |s.quantifiers|
  }

  predicate InstsValid(s: ParserState) {
    forall k | 0 <= k < |s.instantiations| :: InstValid(s.instantiations[k], |s.quantifiers|, s.tempDependencies.Keys)
  }

  predicate MatchesValid(s: ParserState) {
    forall fp | fp in s.matches :: MatchValid(s.matches[fp], |s.quantifiers|, s.tempDependencies.Keys)
  }

  predicate StackValid(s: ParserState) {
    forall k | 0 <= k < |s.instStack| :: s.instStack[k] < |s.instantiations|
  }

  predicate BucketsValid(s: ParserState) {
    forall line | line in s.tempDependencies :: OpenDeps(s.tempDependencies[line])
  }

  /** No explanation is listed twice. */
  predicate Distinct(es: seq<EqualityExpl>) {
    forall j, k | 0 <= j < k < |es| :: es[j] != es[k]
  }

  /** `eq_expl` keeps each term's explanations free of repeats. */
  predicate ExplsDistinct(s: ParserState) {
    forall i | 0 <= i < |s.terms| :: Distinct(s.terms[i].equalityExpls)
  }

  predicate Valid(s: ParserState) {
    IdsIn(s.termMap, |s.terms|)
    && DiscoveredValid(s)
    && Indexed(s.terms, s.instantiations)
    && QuantTermsValid(s)
    && InstsValid(s)
    && MatchesValid(s)
    && StackValid(s)
    && BucketsValid(s)
    && ClosedDeps(s.dependencies)
    && ExplsDistinct(s)
  }

  lemma DefaultValid()
    ensures Valid(Default())
  {
  }

  // ---------------------------------------------------------------------
  // new_term and discovered_quant
  // ---------------------------------------------------------------------

  function Repeat(x: TermIdx, n: nat): (r: seq<TermIdx>)
    ensures |r| == n && forall k | 0 <= k < n :: r[k] == x
  {
    seq(n, _ => x)
  }

  /** The child loop of `new_term`: each occurrence of a child records the
      new term `idx` as one of its dependents. */
  function AddDependent(terms: seq<Term>, children: seq<TermIdx>, idx: TermIdx): (r: seq<Term>)
    requires forall c | c in children :: c < |terms|
    ensures |r| == |terms|
    ensures forall j | 0 <= j < |terms| ::
      r[j] == terms[j].(depTermIds := terms[j].depTermIds + Repeat(idx, multiset(children)[j]))
    decreases |children|
  {
    if children == [] then terms
    else
      var c := children[0];
      assert c in children && forall x | x in children[1..] :: x in children;
      var r := AddDependent(terms[c := terms[c].(depTermIds := terms[c].depTermIds + [idx])], children[1..], idx);
      assert children == [c] + children[1..];
      assert forall j | 0 <= j < |terms| :: multiset(children)[j] == (if j == c then 1 else 0) + multiset(children[1..])[j];
      RepeatAppend(terms[c].depTermIds, idx, multiset(children[1..])[c]);
      r
  }

  lemma RepeatAppend(a: seq<TermIdx>, x: TermIdx, n: nat)
    ensures a + [x] + Repeat(x, n) == a + Repeat(x, n + 1)
  {
    assert [x] + Repeat(x, n) == Repeat(x, n + 1);
  }

  /** `new_term`: the term is appended, its children learn of it, and its id
      now resolves to it. */
  function NewTerm(s: ParserState, id: TermId, t: Term): (r: (ParserState, TermIdx))
    requires forall c | c in t.childIds :: c < |s.terms|
    ensures r.1 == |s.terms| && |r.0.terms| == |s.terms| + 1 && r.0.terms[r.1] == t
    ensures r.0.termMap == s.termMap[id := r.1]
  {
    var idx := |s.terms|;
    (s.(terms := AddDependent(s.terms, t.childIds, idx) + [t], termMap := s.termMap[id := idx]), idx)
  }

  /** The quantifier `discovered_quant` creates for a key it has not seen. */
  function DiscoveredQuantifier(discovery: string): Quantifier {
    Quantifier(Other(discovery), 0, None, [], 0, None)
  }

  /** `discovered_quant`: the quantifier cached under `id`, created (and
      cached) on first use. */
  function DiscoveredQuant(s: ParserState, id: DiscoveredId, discovery: string): (r: (QuantIdx, ParserState))
  {
    if id in s.discoveredMap then (s.discoveredMap[id], s)
    else
      var q := |s.quantifiers|;
      (q, s.(quantifiers := s.quantifiers + [DiscoveredQuantifier(discovery)], discoveredMap := s.discoveredMap[id := q]))
  }

  /** Get-or-insert: on a fresh key exactly one quantifier of kind
      `Other(discovery)` with no variables and no cost is appended; on a
      cached key nothing changes; and asking twice gives the same index. */
  lemma DiscoveredQuantGetOrInsert(s: ParserState, id: DiscoveredId, discovery: string, again: string)
    requires DiscoveredValid(s)
    ensures var (q, s1) := DiscoveredQuant(s, id, discovery);
      q < |s1.quantifiers| && s1.discoveredMap[id] == q && DiscoveredValid(s1)
      && (id in s.discoveredMap ==> s1 == s)
      && (id !in s.discoveredMap ==>
            q == |s.quantifiers| && s1.quantifiers == s.quantifiers + [Quantifier(Other(discovery), 0, None, [], 0, None)])
      && DiscoveredQuant(s1, id, again) == (q, s1)
  {
  }

  lemma DiscoveredQuantValid(s: ParserState, id: DiscoveredId, discovery: string)
    requires Valid(s)
    ensures Valid(DiscoveredQuant(s, id, discovery).1)
  {
    var (q, s1) := DiscoveredQuant(s, id, discovery);
    if id !in s.discoveredMap {
      assert forall k | 0 <= k < |s.instantiations| :: InstValid(s1.instantiations[k], |s1.quantifiers|, s1.tempDependencies.Keys) by {
        forall k | 0 <= k < |s.instantiations| ensures InstValid(s1.instantiations[k], |s1.quantifiers|, s1.tempDependencies.Keys) {
          assert InstValid(s.instantiations[k], |s.quantifiers|, s.tempDependencies.Keys);
        }
      }
      assert MatchesValid(s1) by {
        forall fp | fp in s1.matches ensures MatchValid(s1.matches[fp], |s1.quantifiers|, s1.tempDependencies.Keys) {
          assert MatchValid(s.matches[fp], |s.quantifiers|, s.tempDependencies.Keys);
        }
      }
    }
  }

  // ---------------------------------------------------------------------
  // Term and quantifier definitions
  // ---------------------------------------------------------------------

  /** `version_info`. */
  function VersionInfo(s: ParserState, l: seq<string>): (o: Outcome)
  {
    var v := ParseVersionLine(l);
    if v.IsFailure() then Outcome(v.Void(), s)
    else Outcome(Ok(()), s.(versionInfo := Some(v.value)))
  }

  /** `mk_quant`: a quantifier term and its quantifier, which point at each other. */
  function MkQuant(s: ParserState, l: seq<string>): (o: Outcome)
    requires Valid(s)
  {
    var q := ParseQuantLine(s.termMap, l);
    if q.IsFailure() then Outcome(q.Void(), s)
    else
      ResolveAllIn(s.termMap, l[3..], |s.terms|);
      var qidx := |s.quantifiers|;
      var (s1, tidx) := NewTerm(s, q.value.id, Term(q.value.id, Quant(qidx), None, q.value.children, [], None, []));
      Outcome(Ok(()), s1.(quantifiers := s1.quantifiers + [Quantifier(q.value.kind, q.value.numVars, Some(tidx), [], 0, None)]))
  }

  /** `mk_var`: a childless variable term. */
  function MkVar(s: ParserState, l: seq<string>): (o: Outcome)
  {
    var v := ParseVarLine(l);
    if v.IsFailure() then Outcome(v.Void(), s)
    else
      var (id, kind) := v.value;
      Outcome(Ok(()), NewTerm(s, id, Term(id, kind, None, [], [], None, [])).0)
  }

  /** `mk_proof_app`: an application or proof step over existing terms. */
  function MkProofApp(s: ParserState, l: seq<string>, isProof: bool): (o: Outcome)
    requires Valid(s)
  {
    var a := ParseAppLine(s.termMap, l, isProof);
    if a.IsFailure() then Outcome(a.Void(), s)
    else
      ResolveAllIn(s.termMap, l[2..], |s.terms|);
      Outcome(Ok(()), NewTerm(s, a.value.id, Term(a.value.id, a.value.kind, None, a.value.children, [], None, [])).0)
  }

  /** A term defined by a line is appended at the next index, its id now
      resolves to it, it has no meaning, producer or explanations yet, and
      the terms before it change only in their dependents. */
  lemma NewTermDefines(s: ParserState, id: TermId, t: Term)
    requires forall c | c in t.childIds :: c < |s.terms|
    ensures var (s1, idx) := NewTerm(s, id, t);
      s1.termMap[id] == idx && s1.terms[idx] == t
      && (forall j | 0 <= j < |s.terms| :: s1.terms[j].(depTermIds := s.terms[j].depTermIds) == s.terms[j])
      && (forall j | 0 <= j < |s.terms| :: j !in t.childIds ==> s1.terms[j] == s.terms[j])
      && (forall j | j in t.childIds :: s1.terms[j].depTermIds[|s1.terms[j].depTermIds| - 1] == idx)
  {
    var (s1, idx) := NewTerm(s, id, t);
    forall j | 0 <= j < |s.terms| && j !in t.childIds ensures s1.terms[j] == s.terms[j] {
      assert multiset(t.childIds)[j] == 0;
      assert s.terms[j].depTermIds + Repeat(idx, 0) == s.terms[j].depTermIds;
    }
    forall j | j in t.childIds ensures s1.terms[j].depTermIds[|s1.terms[j].depTermIds| - 1] == idx {
      assert multiset(t.childIds)[j] > 0;
    }
  }

  /** A quantifier line defines the quantifier term and the quantifier with
      each other's index. */
  lemma MkQuantLinks(s: ParserState, l: seq<string>)
    requires Valid(s) && MkQuant(s, l).result.Ok?
    ensures var s1 := MkQuant(s, l).state;
      |s1.terms| == |s.terms| + 1 && |s1.quantifiers| == |s.quantifiers| + 1
      && s1.terms[|s.terms|].kind == Quant(|s.quantifiers|)
      && s1.quantifiers[|s.quantifiers|].term == Some(|s.terms|)
      && s1.quantifiers[|s.quantifiers|].instances == [] && s1.quantifiers[|s.quantifiers|].cost == 0
      && s1.termMap[ParseTermId(l[0]).value] == |s.terms|
  {
  }

  // ---------------------------------------------------------------------
  // Attaching information to existing terms
  // ---------------------------------------------------------------------

  /** `attach_meaning`: a term's meaning is set once; a repeated meaning must agree. */
  function AttachMeaning(s: ParserState, l: seq<string>): (o: Outcome)
    requires Valid(s)
  {
    var m := ParseMeaningLine(s.termMap, l);
    if m.IsFailure() then Outcome(m.Void(), s)
    else
      var (idx, meaning) := m.value;
      ResolveIn(s.termMap, l[0], |s.terms|);
      match s.terms[idx].meaning
      case Some(previous) => Outcome(if previous == meaning then Ok(()) else Panic, s)
      case None => Outcome(Ok(()), s.(terms := s.terms[idx := s.terms[idx].(meaning := Some(meaning))]))
  }

  /** `attach_var_names`: a quantifier's variable names are set once, through its term. */
  function AttachVarNames(s: ParserState, l: seq<string>): (o: Outcome)
    requires Valid(s)
  {
    var v := ParseVarNamesLine(s.termMap, l);
    if v.IsFailure() then Outcome(v.Void(), s)
    else
      var (tidx, names) := v.value;
      ResolveIn(s.termMap, l[0], |s.terms|);
      match s.terms[tidx].kind
      case Quant(q) =>
        if s.quantifiers[q].vars.Some? then Outcome(Panic, s)
        else Outcome(Ok(()), s.(quantifiers := s.quantifiers[q := s.quantifiers[q].(vars := Some(names))]))
      case _ => Outcome(Panic, s)
  }

  /** `attach_enode`: the instantiation on top of the stack, if any, produced the term. */
  function AttachEnode(s: ParserState, l: seq<string>): (o: Outcome)
    requires Valid(s)
  {
    var e := ParseEnodeLine(s.termMap, l);
    if e.IsFailure() then Outcome(e.Void(), s)
    else if s.instStack == [] then Outcome(Ok(()), s)
    else
      var idx := e.value;
      ResolveIn(s.termMap, l[0], |s.terms|);
      Outcome(Ok(()), Produce(s, idx, s.instStack[|s.instStack| - 1]))
  }

  /** The term `idx` is recorded as produced by the instantiation `top`,
      which yields it. */
  function Produce(s: ParserState, idx: TermIdx, top: InstIdx): ParserState
    requires idx < |s.terms| && top < |s.instantiations|
  {
    var inst := s.instantiations[top];
    s.(terms := s.terms[idx := s.terms[idx].(respInst := Some(top))],
       instantiations := s.instantiations[top := inst.(yieldsTerms := inst.yieldsTerms + [idx])])
  }

  /** With an instantiation open, the term's producer becomes the innermost
      one and the term is appended to what that instantiation yields; with
      none open the line is accepted and changes nothing. */
  lemma AttachEnodeEffect(s: ParserState, l: seq<string>)
    requires Valid(s) && ParseEnodeLine(s.termMap, l).Ok?
    ensures var o := AttachEnode(s, l);
      var idx := ParseEnodeLine(s.termMap, l).value;
      o.result == Ok(())
      && (s.instStack == [] ==> o.state == s)
      && (s.instStack != [] ==>
            var top := s.instStack[|s.instStack| - 1];
            idx < |o.state.terms| && top < |o.state.instantiations|
            && o.state.terms[idx] == s.terms[idx].(respInst := Some(top))
            && o.state.instantiations[top] == s.instantiations[top].(yieldsTerms := s.instantiations[top].yieldsTerms + [idx])
            && |o.state.terms| == |s.terms| && |o.state.instantiations| == |s.instantiations|
            && (forall j | 0 <= j < |s.terms| && j != idx :: o.state.terms[j] == s.terms[j])
            && (forall j | 0 <= j < |s.instantiations| && j != top :: o.state.instantiations[j] == s.instantiations[j])
            && o.state == s.(terms := o.state.terms, instantiations := o.state.instantiations))
  {
    ResolveIn(s.termMap, l[0], |s.terms|);
  }

  /** A meaning is set once: the first is stored on its term and nothing
      else changes; a repeat that agrees changes nothing; one that disagrees
      panics and leaves the state as it was. */
  lemma AttachMeaningEffect(s: ParserState, l: seq<string>)
    requires Valid(s) && ParseMeaningLine(s.termMap, l).Ok?
    ensures var o := AttachMeaning(s, l);
      var idx := ParseMeaningLine(s.termMap, l).value.0;
      var meaning := ParseMeaningLine(s.termMap, l).value.1;
      idx < |s.terms|
      && (s.terms[idx].meaning.None? ==>
            o.result == Ok(()) && |o.state.terms| == |s.terms|
            && o.state.terms[idx] == s.terms[idx].(meaning := Some(meaning))
            && (forall j | 0 <= j < |s.terms| && j != idx :: o.state.terms[j] == s.terms[j])
            && o.state == s.(terms := o.state.terms))
      && (s.terms[idx].meaning == Some(meaning) ==> o == Outcome(Ok(()), s))
      && (s.terms[idx].meaning.Some? && s.terms[idx].meaning != Some(meaning) ==> o == Outcome(Panic, s))
  {
    ResolveIn(s.termMap, l[0], |s.terms|);
  }

  /** Attaching a meaning line a second time changes nothing. */
  lemma AttachMeaningIdempotent(s: ParserState, l: seq<string>)
    requires Valid(s) && AttachMeaning(s, l).result.Ok?
    ensures Valid(AttachMeaning(s, l).state)
    ensures AttachMeaning(AttachMeaning(s, l).state, l) == Outcome(Ok(()), AttachMeaning(s, l).state)
  {
    AttachMeaningValid(s, l);
    AttachMeaningEffect(s, l);
    AttachMeaningEffect(AttachMeaning(s, l).state, l);
  }

  /** Variable names go to the quantifier of their term, once: a term that
      is not a quantifier, or a quantifier that already has names, panics
      and leaves the state as it was. */
  lemma AttachVarNamesEffect(s: ParserState, l: seq<string>)
    requires Valid(s) && ParseVarNamesLine(s.termMap, l).Ok?
    ensures var o := AttachVarNames(s, l);
      var tidx := ParseVarNamesLine(s.termMap, l).value.0;
      var names := ParseVarNamesLine(s.termMap, l).value.1;
      tidx < |s.terms|
      && (!s.terms[tidx].kind.Quant? ==> o == Outcome(Panic, s))
      && (s.terms[tidx].kind.Quant? ==>
            var q := s.terms[tidx].kind.qidx;
            q < |s.quantifiers|
            && (s.quantifiers[q].vars.Some? ==> o == Outcome(Panic, s))
            && (s.quantifiers[q].vars.None? ==>
                  o.result == Ok(()) && |o.state.quantifiers| == |s.quantifiers|
                  && o.state.quantifiers[q] == s.quantifiers[q].(vars := Some(names))
                  && (forall j | 0 <= j < |s.quantifiers| && j != q :: o.state.quantifiers[j] == s.quantifiers[j])
                  && o.state == s.(quantifiers := o.state.quantifiers)))
  {
    ResolveIn(s.termMap, l[0], |s.terms|);
  }

  /** Once names are attached to a quantifier, any further names line for
      the same term panics. */
  lemma AttachVarNamesOnce(s: ParserState, l: seq<string>, l2: seq<string>)
    requires Valid(s) && ParseVarNamesLine(s.termMap, l).Ok? && AttachVarNames(s, l).result.Ok?
    requires ParseVarNamesLine(s.termMap, l2).Ok?
    requires ParseVarNamesLine(s.termMap, l2).value.0 == ParseVarNamesLine(s.termMap, l).value.0
    ensures Valid(AttachVarNames(s, l).state)
    ensures AttachVarNames(AttachVarNames(s, l).state, l2) == Outcome(Panic, AttachVarNames(s, l).state)
  {
    AttachVarNamesValid(s, l);
    AttachVarNamesEffect(s, l);
    AttachVarNamesEffect(AttachVarNames(s, l).state, l2);
  }

  /** `eq_expl`: an equality explanation is recorded once per term. */
  function EqExpl(s: ParserState, l: seq<string>): (o: Outcome)
    requires Valid(s)
  {
    var e := ParseEqExplLine(s.termMap, l);
    if e.IsFailure() then Outcome(e.Void(), s)
    else
      var (idx, expl) := e.value;
      ResolveIn(s.termMap, l[0], |s.terms|);
      if expl in s.terms[idx].equalityExpls then Outcome(Ok(()), s)
      else Outcome(Ok(()), s.(terms := s.terms[idx := s.terms[idx].(equalityExpls := s.terms[idx].equalityExpls + [expl])]))
  }

  /** Replaying an explanation line changes nothing: explanations are
      deduplicated. */
  lemma EqExplIdempotent(s: ParserState, l: seq<string>)
    requires Valid(s) && EqExpl(s, l).result.Ok?
    requires Valid(EqExpl(s, l).state)
    ensures EqExpl(EqExpl(s, l).state, l) == EqExpl(s, l)
  {
    ResolveIn(s.termMap, l[0], |s.terms|);
  }

  /** The explanation recorded is the line's, and it is recorded at most once. */
  lemma EqExplRecords(s: ParserState, l: seq<string>)
    requires Valid(s) && EqExpl(s, l).result.Ok?
    ensures var (idx, expl) := ParseEqExplLine(s.termMap, l).value;
      var s1 := EqExpl(s, l).state;
      idx < |s1.terms| && expl in s1.terms[idx].equalityExpls
      && (expl in s.terms[idx].equalityExpls ==> s1 == s)
      && (expl !in s.terms[idx].equalityExpls ==>
            s1.terms[idx] == s.terms[idx].(equalityExpls := s.terms[idx].equalityExpls + [expl])
            && |s1.terms| == |s.terms|
            && (forall j | 0 <= j < |s.terms| && j != idx :: s1.terms[j] == s.terms[j])
            && s1 == s.(terms := s1.terms))
  {
    ResolveIn(s.termMap, l[0], |s.terms|);
  }

  // ---------------------------------------------------------------------
  // Matches and instantiations
  // ---------------------------------------------------------------------

  /** The pending record a match line stores under its fingerprint. */
  function PendingMatch(fp: Fingerprint, quant: QuantIdx, discovered: bool, pattern: Option<TermIdx>,
                        bound: seq<TermIdx>, b: Blamed, matchLine: nat): (m: Instantiation)
    ensures m.lineNo.None? && m.resultingTerm.None? && m.matchLineNo == matchLine && m.cost == 1
  {
    Instantiation(matchLine, None, fp, None, None, 1, quant, discovered, pattern, [], bound,
                  b.blamed, b.eqExpls, Insts(b.links))
  }

  /** The tokens of a match line before its blamed terms. */
  datatype MatchHead = MatchHead(fingerprint: Fingerprint, quant: QuantIdx, pattern: TermIdx, bound: seq<TermIdx>, rest: seq<string>)

  /** Fingerprint, quantifier term, pattern and bound terms up to `;`.  The
      quantifier is the one the term `l[1]` declares; the pattern is `l[2]`;
      the bound terms are the ids before the first `;` and the rest follows it. */
  function ParseMatchHead(s: ParserState, l: seq<string>): (r: Res<MatchHead>)
    requires Valid(s)
    ensures r.Ok? ==> r.value.quant < |s.quantifiers| && r.value.pattern < |s.terms|
    ensures r.Ok? ==>
      |l| >= 3 && ParseFingerprint(l[0]) == Some(r.value.fingerprint)
      && Resolve(s.termMap, l[1]).Ok? && Resolve(s.termMap, l[1]).value < |s.terms|
      && s.terms[Resolve(s.termMap, l[1]).value].kind.Quant?
      && r.value.quant == s.terms[Resolve(s.termMap, l[1]).value].kind.qidx
      && Resolve(s.termMap, l[2]) == Ok(r.value.pattern)
      && ResolveAll(s.termMap, TakeUntil(l[3..], ";").0) == Ok(r.value.bound)
      && r.value.rest == TakeUntil(l[3..], ";").1
  {
    if l == [] || ParseFingerprint(l[0]).None? then Fail
    else if |l| < 2 then Fail
    else
      var idx :- Resolve(s.termMap, l[1]);
      ResolveIn(s.termMap, l[1], |s.terms|);
      if !s.terms[idx].kind.Quant? then Panic
      else if |l| < 3 then Fail
      else
        var pattern :- Resolve(s.termMap, l[2]);
        ResolveIn(s.termMap, l[2], |s.terms|);
        var (ids, rest) := TakeUntil(l[3..], ";");
        var bound :- ResolveAll(s.termMap, ids);
        Ok(MatchHead(ParseFingerprint(l[0]).value, s.terms[idx].kind.qidx, pattern, bound, rest))
  }

  /** The end of a match line: the bucket of the match line is set to what
      the blame loop pushed (or the placeholder), and if the loop completed
      the pending record is stored under the fingerprint. */
  function CommitMatch(s: ParserState, fp: Fingerprint, quant: QuantIdx, discovered: bool, pattern: Option<TermIdx>,
                       bound: seq<TermIdx>, b: Blamed, key: nat): (o: Outcome)
    ensures o.result == b.outcome
  {
    var s1 := s.(tempDependencies := s.tempDependencies[key := MatchBucket(b, quant, discovered, key)]);
    if b.outcome.IsFailure() then Outcome(b.outcome, s1)
    else Outcome(b.outcome, s1.(matches := s1.matches[fp := PendingMatch(fp, quant, discovered, pattern, bound, b, key)]))
  }

  /** `new_match`: opens the bucket of the match line, fills it while
      blaming terms, and on success stores the pending match. */
  function NewMatch(s: ParserState, l: seq<string>, lineNo: nat): (o: Outcome)
    requires Valid(s)
  {
    var h := ParseMatchHead(s, l);
    MatchFrom(s, h, if h.Ok? then Blame(s.termMap, s.terms, s.instantiations, h.value.rest, true) else NoBlame, lineNo)
  }

  /** A blame loop that has not run. */
  const NoBlame := Blamed(Ok(()), [], [], [])

  /** `new_match` once its head has been decoded and its blame loop has run. */
  function MatchFrom(s: ParserState, h: Res<MatchHead>, b: Blamed, lineNo: nat): (o: Outcome)
  {
    if h.IsFailure() then Outcome(h.Void(), s)
    else CommitMatch(s, h.value.fingerprint, h.value.quant, false, Some(h.value.pattern), h.value.bound, b, lineNo + 1)
  }

  /** `inst_discovered`: like a match, for an instantiation the solver found
      by theory solving or model-based instantiation.  The bucket of the
      match line is opened as soon as the fingerprint has been read, and the
      synthetic quantifier is looked up (or created) before the rest of the
      line is checked. */
  function InstDiscovered(s: ParserState, l: seq<string>, lineNo: nat): (o: Outcome)
    requires Valid(s)
  {
    if |l| < 2 || ParseFingerprint(l[1]).None? then Outcome(Fail, s)
    else
      var fp := ParseFingerprint(l[1]).value;
      var key := lineNo + 1;
      var s0 := s.(tempDependencies := s.tempDependencies[key := []]);
      ValidNewBucket(s, key);
      DiscoveredMatch(s0, fp, l[0], l[2..], key)
  }

  /** The rest of an `[inst-discovered]` line, by discovery method. */
  function DiscoveredMatch(s: ParserState, fp: Fingerprint, how: string, rest: seq<string>, key: nat): Outcome
    requires Valid(s)
  {
    if how == "theory-solving" then
      if rest == [] || ParseTermId(rest[0]).None? then Outcome(Fail, s)
      else TheorySolvingMatch(s, fp, ParseTermId(rest[0]).value, rest[1..], key)
    else if how == "MBQI" then MbqiMatch(s, fp, rest, key)
    else Outcome(Fail, s)
  }

  /** A theory-solving line after its term id: the quantifier cached under
      the id, then the rest of the line. */
  function TheorySolvingMatch(s: ParserState, fp: Fingerprint, tsId: TermId, rest: seq<string>, key: nat): Outcome
    requires Valid(s)
  {
    var (q, s1) := DiscoveredQuant(s, TheorySolving(tsId), "theory-solving");
    DiscoveredQuantValid(s, TheorySolving(tsId), "theory-solving");
    CommitDiscovered(s1, fp, q, TheorySolvingTail(s1, rest), key)
  }

  /** An MBQI line after its fingerprint: the single MBQI quantifier, then
      the bound terms. */
  function MbqiMatch(s: ParserState, fp: Fingerprint, rest: seq<string>, key: nat): Outcome
    requires Valid(s)
  {
    var (q, s1) := DiscoveredQuant(s, MBQI, "MBQI");
    DiscoveredQuantValid(s, MBQI, "MBQI");
    CommitDiscovered(s1, fp, q, MbqiTail(s1, rest), key)
  }

  /** What the rest of an `[inst-discovered]` line contributes: bound terms
      and the outcome of the blame loop. */
  datatype DiscoveredTail = DiscoveredTail(bound: seq<TermIdx>, blame: Blamed)

  /** Theory solving: an optional `;`, then blamed terms. */
  function TheorySolvingTail(s: ParserState, rest: seq<string>): Res<DiscoveredTail>
    requires Valid(s)
  {
    if rest != [] && rest[0] != ";" then Fail
    else
      var words := if rest == [] then [] else rest[1..];
      Ok(DiscoveredTail([], Blame(s.termMap, s.terms, s.instantiations, words, false)))
  }

  /** Model-based instantiation: every remaining token is a bound term. */
  function MbqiTail(s: ParserState, rest: seq<string>): Res<DiscoveredTail>
    requires Valid(s)
  {
    var bound :- ResolveAll(s.termMap, rest);
    Ok(DiscoveredTail(bound, NoBlame))
  }

  /** The end of an `[inst-discovered]` line once its quantifier is known. */
  function CommitDiscovered(s: ParserState, fp: Fingerprint, quant: QuantIdx, t: Res<DiscoveredTail>, key: nat): (o: Outcome)
  {
    if t.IsFailure() then Outcome(t.Void(), s)
    else CommitMatch(s, fp, quant, true, None, t.value.bound, t.value.blame, key)
  }

  /** `instance`: promotes the pending match of the fingerprint to the next
      instantiation, opens it on the stack and counts it for its quantifier. */
  function Instance(s: ParserState, l: seq<string>, lineNo: nat): (o: Outcome)
    requires Valid(s)
  {
    if l == [] || ParseFingerprint(l[0]).None? then Outcome(Fail, s)
    else if ParseFingerprint(l[0]).value !in s.matches then Outcome(Panic, s)
    else
      var m := s.matches[ParseFingerprint(l[0]).value];
      assert MatchValid(m, |s.quantifiers|, s.tempDependencies.Keys);
      var tail := ParseInstanceTail(s.termMap, l[1..]);
      if tail.IsFailure() then Outcome(tail.Void(), s)
      else
        Outcome(Ok(()), Promote(s, m, tail.value.0, tail.value.1, lineNo))
  }

  /** The state after the pending match `m` becomes the next instantiation,
      with the resulting term and generation the line gives, if any. */
  function Promote(s: ParserState, m: Instantiation, term: Option<TermIdx>, gen: Option<nat>, lineNo: nat): ParserState
    requires m.quant < |s.quantifiers|
  {
    var inst := m.(lineNo := Some(lineNo + 1),
                   resultingTerm := if term.Some? then term else m.resultingTerm,
                   z3Gen := if gen.Some? then gen else m.z3Gen);
    var iidx := |s.instantiations|;
    var quant := s.quantifiers[m.quant];
    s.(instantiations := s.instantiations + [inst],
       instStack := s.instStack + [iidx],
       quantifiers := s.quantifiers[m.quant := quant.(instances := quant.instances + [iidx], cost := quant.cost + 1)])
  }

  /** The promoted instantiation is the pending match with its line number
      set and the resulting term and generation the line gives (a
      generation the line leaves out keeps the match's); it is pushed on the
      stack, listed once more under its quantifier, whose cost grows by one,
      and the pending match stays available. */
  lemma InstanceEffect(s: ParserState, l: seq<string>, lineNo: nat)
    requires Valid(s) && Instance(s, l, lineNo).result.Ok?
    ensures var s1 := Instance(s, l, lineNo).state;
      var m := s.matches[ParseFingerprint(l[0]).value];
      var iidx := |s.instantiations|;
      |s1.instantiations| == iidx + 1
      && var tail := ParseInstanceTail(s.termMap, l[1..]).value;
      s1.instantiations[iidx] == m.(lineNo := Some(lineNo + 1), resultingTerm := tail.0,
                                    z3Gen := if tail.1.Some? then tail.1 else m.z3Gen)
      && s1.instStack == s.instStack + [iidx]
      && m.quant < |s.quantifiers| && |s1.quantifiers| == |s.quantifiers|
      && s1.quantifiers[m.quant].instances == s.quantifiers[m.quant].instances + [iidx]
      && s1.quantifiers[m.quant].cost == s.quantifiers[m.quant].cost + 1
      && s1.quantifiers[m.quant] == s.quantifiers[m.quant].(instances := s1.quantifiers[m.quant].instances,
                                                            cost := s1.quantifiers[m.quant].cost)
      && (forall q | 0 <= q < |s.quantifiers| && q != m.quant :: s1.quantifiers[q] == s.quantifiers[q])
      && s1.instantiations[..iidx] == s.instantiations
      && s1 == s.(instantiations := s1.instantiations, instStack := s1.instStack, quantifiers := s1.quantifiers)
  {
    assert MatchValid(s.matches[ParseFingerprint(l[0]).value], |s.quantifiers|, s.tempDependencies.Keys);
  }

  /** An instance line whose fingerprint has no pending match panics. */
  lemma InstanceUnknownFingerprint(s: ParserState, l: seq<string>, lineNo: nat)
    requires Valid(s) && l != [] && ParseFingerprint(l[0]).Some? && ParseFingerprint(l[0]).value !in s.matches
    ensures Instance(s, l, lineNo).result == Panic
  {
  }

  /** The dependencies of a bucket, closed at the instantiation's line and
      attributed to its quantifier. */
  function Close(deps: seq<Dependency>, to: Option<nat>, quant: QuantIdx): (r: seq<Dependency>)
    ensures |r| == |deps|
    ensures forall k | 0 <= k < |deps| :: r[k] == deps[k].(to := to, quant := quant)
  {
    seq(|deps|, k requires 0 <= k < |deps| => deps[k].(to := to, quant := quant))
  }

  /** `end_of_instance`: closes the innermost instantiation and moves its
      bucket's dependencies into the permanent list. */
  function EndOfInstance(s: ParserState): (r: ParserState)
    requires Valid(s) && s.instStack != []
  {
    var iidx := s.instStack[|s.instStack| - 1];
    var inst := s.instantiations[iidx];
    assert InstValid(inst, |s.quantifiers|, s.tempDependencies.Keys);
    s.(instStack := s.instStack[..|s.instStack| - 1],
       tempDependencies := s.tempDependencies[inst.matchLineNo := []],
       dependencies := s.dependencies + Close(s.tempDependencies[inst.matchLineNo], inst.lineNo, inst.quant))
  }

  /** Closing an instantiation appends exactly its bucket's dependencies,
      each now ending at its line and attributed to its quantifier (the
      discovered flag and everything else kept), and empties the bucket. */
  lemma EndOfInstanceEffect(s: ParserState)
    requires Valid(s) && s.instStack != []
    ensures var inst := s.instantiations[s.instStack[|s.instStack| - 1]];
      var s1 := EndOfInstance(s);
      inst.matchLineNo in s.tempDependencies
      && var bucket := s.tempDependencies[inst.matchLineNo];
      s1.dependencies[..|s.dependencies|] == s.dependencies
      && |s1.dependencies| == |s.dependencies| + |bucket|
      && (forall k | 0 <= k < |bucket| ::
            var d := s1.dependencies[|s.dependencies| + k];
            d.to == inst.lineNo && d.quant == inst.quant
            && d.(to := None, quant := bucket[k].quant) == bucket[k])
      && s1.tempDependencies[inst.matchLineNo] == []
      && s1.tempDependencies.Keys == s.tempDependencies.Keys
      && (forall key | key in s.tempDependencies && key != inst.matchLineNo ::
            s1.tempDependencies[key] == s.tempDependencies[key])
      && s1.instStack == s.instStack[..|s.instStack| - 1]
      && s1 == s.(instStack := s1.instStack, tempDependencies := s1.tempDependencies, dependencies := s1.dependencies)
  {
    var inst := s.instantiations[s.instStack[|s.instStack| - 1]];
    assert InstValid(inst, |s.quantifiers|, s.tempDependencies.Keys);
    var bucket := s.tempDependencies[inst.matchLineNo];
    assert OpenDeps(bucket);
    forall k | 0 <= k < |bucket| ensures bucket[k].to == None {
      assert bucket[k] in bucket;
    }
  }

  // ---------------------------------------------------------------------
  // Buckets of match lines
  // ---------------------------------------------------------------------

  /** A successful match line leaves a non-empty bucket under its match line:
      the dependencies on earlier instantiations it blamed, or the
      placeholder when there are none. */
  lemma NewMatchBucket(s: ParserState, l: seq<string>, lineNo: nat)
    requires Valid(s) && NewMatch(s, l, lineNo).result.Ok?
    ensures var s1 := NewMatch(s, l, lineNo).state;
      lineNo + 1 in s1.tempDependencies && |s1.tempDependencies[lineNo + 1]| >= 1
      && ParseFingerprint(l[0]).value in s1.matches
      && s1.matches[ParseFingerprint(l[0]).value].matchLineNo == lineNo + 1
      && !s1.matches[ParseFingerprint(l[0]).value].quantDiscovered
  {
    var h := ParseMatchHead(s, l);
    MatchBucketNonEmpty(s.termMap, s.terms, s.instantiations, h.value.rest, true, h.value.quant, false, lineNo + 1);
  }

  /** The same for a discovered instantiation, whose pending record is
      marked as discovered and has no pattern. */
  lemma InstDiscoveredBucket(s: ParserState, l: seq<string>, lineNo: nat)
    requires Valid(s) && InstDiscovered(s, l, lineNo).result.Ok?
    ensures var s1 := InstDiscovered(s, l, lineNo).state;
      lineNo + 1 in s1.tempDependencies && |s1.tempDependencies[lineNo + 1]| >= 1
      && ParseFingerprint(l[1]).value in s1.matches
      && s1.matches[ParseFingerprint(l[1]).value].matchLineNo == lineNo + 1
      && s1.matches[ParseFingerprint(l[1]).value].quantDiscovered
      && s1.matches[ParseFingerprint(l[1]).value].pattern.None?
  {
    var key := lineNo + 1;
    var fp := ParseFingerprint(l[1]).value;
    var s0 := s.(tempDependencies := s.tempDependencies[key := []]);
    ValidNewBucket(s, key);
    var rest := l[2..];
    if l[0] == "theory-solving" {
      var id := TheorySolving(ParseTermId(rest[0]).value);
      var (q, s1) := DiscoveredQuant(s0, id, "theory-solving");
      DiscoveredQuantValid(s0, id, "theory-solving");
      CommitDiscoveredBucket(s1, fp, q, TheorySolvingTail(s1, rest[1..]), key);
    } else {
      var (q, s1) := DiscoveredQuant(s0, MBQI, "MBQI");
      DiscoveredQuantValid(s0, MBQI, "MBQI");
      CommitDiscoveredBucket(s1, fp, q, MbqiTail(s1, rest), key);
    }
  }

  /** A discovered match that is accepted leaves a non-empty bucket and a
      pending match without pattern under its fingerprint. */
  lemma CommitDiscoveredBucket(s: ParserState, fp: Fingerprint, quant: QuantIdx, t: Res<DiscoveredTail>, key: nat)
    requires CommitDiscovered(s, fp, quant, t, key).result.Ok?
    ensures var s1 := CommitDiscovered(s, fp, quant, t, key).state;
      key in s1.tempDependencies && |s1.tempDependencies[key]| >= 1
      && fp in s1.matches && s1.matches[fp].matchLineNo == key
      && s1.matches[fp].quantDiscovered && s1.matches[fp].pattern.None?
  {
  }

  // ---------------------------------------------------------------------
  // Preservation of the invariant
  // ---------------------------------------------------------------------

  /** Carries validity across an equation between states; stated on its
      own so that callers need not unfold the invariant on both sides. */
  lemma ValidSame(s: ParserState, t: ParserState)
    requires Valid(s) && s == t
    ensures Valid(t)
  {
  }

  /** Opening an empty bucket keeps the state valid. */
  lemma ValidNewBucket(s: ParserState, key: nat)
    requires Valid(s)
    ensures Valid(s.(tempDependencies := s.tempDependencies[key := []]))
  {
    var s1 := s.(tempDependencies := s.tempDependencies[key := []]);
    forall k | 0 <= k < |s.instantiations| ensures InstValid(s1.instantiations[k], |s1.quantifiers|, s1.tempDependencies.Keys) {
      assert InstValid(s.instantiations[k], |s.quantifiers|, s.tempDependencies.Keys);
    }
    forall fp | fp in s1.matches ensures MatchValid(s1.matches[fp], |s1.quantifiers|, s1.tempDependencies.Keys) {
      assert MatchValid(s.matches[fp], |s.quantifiers|, s.tempDependencies.Keys);
    }
  }

  /** Replacing the buckets by a superset of keys with open dependencies keeps the state valid. */
  lemma ValidBuckets(s: ParserState, temp: map<nat, seq<Dependency>>)
    requires Valid(s) && s.tempDependencies.Keys <= temp.Keys
    requires forall line | line in temp :: OpenDeps(temp[line])
    ensures Valid(s.(tempDependencies := temp))
  {
    var s1 := s.(tempDependencies := temp);
    forall k | 0 <= k < |s.instantiations| ensures InstValid(s1.instantiations[k], |s1.quantifiers|, s1.tempDependencies.Keys) {
      assert InstValid(s.instantiations[k], |s.quantifiers|, s.tempDependencies.Keys);
    }
    forall fp | fp in s1.matches ensures MatchValid(s1.matches[fp], |s1.quantifiers|, s1.tempDependencies.Keys) {
      assert MatchValid(s.matches[fp], |s.quantifiers|, s.tempDependencies.Keys);
    }
  }

  /** The bucket a blame loop fills holds open dependencies only. */
  lemma MatchBucketOpen(s: ParserState, words: seq<string>, pairs: bool, quant: QuantIdx, discovered: bool, matchLine: nat)
    requires Valid(s) && matchLine >= 1
    ensures OpenDeps(MatchBucket(Blame(s.termMap, s.terms, s.instantiations, words, pairs), quant, discovered, matchLine))
  {
    var b := Blame(s.termMap, s.terms, s.instantiations, words, pairs);
    BlameLinks(s.termMap, s.terms, s.instantiations, words, pairs);
    var bucket := MatchBucket(b, quant, discovered, matchLine);
    forall d | d in bucket ensures d.to.None? && d.from >= 1 {
      var k :| 0 <= k < |bucket| && bucket[k] == d;
      if k < |b.links| {
        var i := b.links[k].0;
        assert InstValid(s.instantiations[i], |s.quantifiers|, s.tempDependencies.Keys);
      }
    }
  }

  /** Adding a pending match keeps the state valid. */
  lemma ValidWithMatch(s: ParserState, fp: Fingerprint, m: Instantiation)
    requires Valid(s) && MatchValid(m, |s.quantifiers|, s.tempDependencies.Keys)
    ensures Valid(s.(matches := s.matches[fp := m]))
  {
  }

  lemma VersionInfoValid(s: ParserState, l: seq<string>)
    requires Valid(s)
    ensures Valid(VersionInfo(s, l).state)
  {
  }

  /** Appending a term whose indices are in range (counting `nq` quantifiers)
      keeps every part of the invariant that does not count quantifiers. */
  lemma NewTermValid(s: ParserState, id: TermId, t: Term, nq: nat)
    requires Valid(s) && nq >= |s.quantifiers|
    requires forall c | c in t.childIds :: c < |s.terms|
    requires t.respInst.None? && t.equalityExpls == [] && (t.kind.Quant? ==> t.kind.qidx < nq)
    ensures var s1 := NewTerm(s, id, t).0;
      IdsIn(s1.termMap, |s1.terms|) && Indexed(s1.terms, s1.instantiations) && ExplsDistinct(s1)
      && (forall i | 0 <= i < |s1.terms| :: s1.terms[i].kind.Quant? ==> s1.terms[i].kind.qidx < nq)
      && s1.(terms := s.terms, termMap := s.termMap) == s
  {
    var (s1, idx) := NewTerm(s, id, t);
    NewTermDefines(s, id, t);
    forall i | 0 <= i < |s1.terms| ensures s1.terms[i].kind.Quant? ==> s1.terms[i].kind.qidx < nq {
      if i < |s.terms| {
        assert s1.terms[i].kind == s.terms[i].kind;
      }
    }
    forall i | 0 <= i < |s1.terms|
      ensures (s1.terms[i].respInst.Some? ==> s1.terms[i].respInst.value < |s1.instantiations|)
              && (forall e | e in s1.terms[i].equalityExpls :: e.Literal? ==> e.eq < |s1.terms|)
              && Distinct(s1.terms[i].equalityExpls)
    {
      if i < |s.terms| {
        assert s1.terms[i].respInst == s.terms[i].respInst && s1.terms[i].equalityExpls == s.terms[i].equalityExpls;
      }
    }
  }

  lemma MkQuantValid(s: ParserState, l: seq<string>)
    requires Valid(s)
    ensures Valid(MkQuant(s, l).state)
  {
    var q := ParseQuantLine(s.termMap, l);
    if !q.IsFailure() {
      ResolveAllIn(s.termMap, l[3..], |s.terms|);
      var qidx := |s.quantifiers|;
      var t := Term(q.value.id, Quant(qidx), None, q.value.children, [], None, []);
      NewTermValid(s, q.value.id, t, qidx + 1);
      var s2 := MkQuant(s, l).state;
      forall k | 0 <= k < |s.instantiations| ensures InstValid(s2.instantiations[k], |s2.quantifiers|, s2.tempDependencies.Keys) {
        assert InstValid(s.instantiations[k], |s.quantifiers|, s.tempDependencies.Keys);
      }
      forall fp | fp in s2.matches ensures MatchValid(s2.matches[fp], |s2.quantifiers|, s2.tempDependencies.Keys) {
        assert MatchValid(s.matches[fp], |s.quantifiers|, s.tempDependencies.Keys);
      }
    }
  }

  lemma MkVarValid(s: ParserState, l: seq<string>)
    requires Valid(s)
    ensures Valid(MkVar(s, l).state)
  {
    var v := ParseVarLine(l);
    if !v.IsFailure() {
      var (id, kind) := v.value;
      NewTermValid(s, id, Term(id, kind, None, [], [], None, []), |s.quantifiers|);
    }
  }

  lemma MkProofAppValid(s: ParserState, l: seq<string>, isProof: bool)
    requires Valid(s)
    ensures Valid(MkProofApp(s, l, isProof).state)
  {
    var a := ParseAppLine(s.termMap, l, isProof);
    if !a.IsFailure() {
      ResolveAllIn(s.termMap, l[2..], |s.terms|);
      NewTermValid(s, a.value.id, Term(a.value.id, a.value.kind, None, a.value.children, [], None, []), |s.quantifiers|);
    }
  }

  lemma AttachMeaningValid(s: ParserState, l: seq<string>)
    requires Valid(s)
    ensures Valid(AttachMeaning(s, l).state)
  {
    var m := ParseMeaningLine(s.termMap, l);
    if !m.IsFailure() {
      ResolveIn(s.termMap, l[0], |s.terms|);
      var (idx, meaning) := m.value;
      if s.terms[idx].meaning.None? {
        var t := s.terms[idx].(meaning := Some(meaning));
        assert AttachMeaning(s, l).state == s.(terms := s.terms[idx := t]);
        ValidTermUpdate(s, idx, t);
      }
    }
  }

  lemma AttachVarNamesValid(s: ParserState, l: seq<string>)
    requires Valid(s)
    ensures Valid(AttachVarNames(s, l).state)
  {
    var v := ParseVarNamesLine(s.termMap, l);
    if !v.IsFailure() {
      ResolveIn(s.termMap, l[0], |s.terms|);
      var s1 := AttachVarNames(s, l).state;
      forall k | 0 <= k < |s.instantiations| ensures InstValid(s1.instantiations[k], |s1.quantifiers|, s1.tempDependencies.Keys) {
        assert InstValid(s.instantiations[k], |s.quantifiers|, s.tempDependencies.Keys);
      }
      forall fp | fp in s1.matches ensures MatchValid(s1.matches[fp], |s1.quantifiers|, s1.tempDependencies.Keys) {
        assert MatchValid(s.matches[fp], |s.quantifiers|, s.tempDependencies.Keys);
      }
    }
  }

  lemma AttachEnodeValid(s: ParserState, l: seq<string>)
    requires Valid(s)
    ensures Valid(AttachEnode(s, l).state)
  {
    var e := ParseEnodeLine(s.termMap, l);
    if !e.IsFailure() && s.instStack != [] {
      ResolveIn(s.termMap, l[0], |s.terms|);
      var s1 := AttachEnode(s, l).state;
      var top := s.instStack[|s.instStack| - 1];
      assert top < |s.instantiations|;
      forall k | 0 <= k < |s.instantiations| ensures InstValid(s1.instantiations[k], |s1.quantifiers|, s1.tempDependencies.Keys) {
        assert InstValid(s.instantiations[k], |s.quantifiers|, s.tempDependencies.Keys);
      }
      assert forall i | 0 <= i < |s.terms| :: s1.terms[i].(respInst := s.terms[i].respInst) == s.terms[i];
    }
  }

  lemma EqExplValid(s: ParserState, l: seq<string>)
    requires Valid(s)
    ensures Valid(EqExpl(s, l).state)
  {
    var e := ParseEqExplLine(s.termMap, l);
    if !e.IsFailure() {
      ResolveIn(s.termMap, l[0], |s.terms|);
      var (idx, expl) := e.value;
      if expl !in s.terms[idx].equalityExpls {
        var t := s.terms[idx].(equalityExpls := s.terms[idx].equalityExpls + [expl]);
        assert EqExpl(s, l).state == s.(terms := s.terms[idx := t]);
        DistinctAppend(s.terms[idx].equalityExpls, expl);
        ValidTermUpdate(s, idx, t);
      }
    }
  }

  /** Appending an explanation that is not yet listed keeps the list free of repeats. */
  lemma DistinctAppend(es: seq<EqualityExpl>, e: EqualityExpl)
    requires Distinct(es) && e !in es
    ensures Distinct(es + [e])
  {
    forall j, k | 0 <= j < k < |es| + 1 ensures (es + [e])[j] != (es + [e])[k] {
      if k == |es| {
        assert es[j] in es;
      }
    }
  }

  /** Replacing a term by one of the same kind whose links stay in range
      keeps the state valid. */
  lemma ValidTermUpdate(s: ParserState, idx: nat, t: Term)
    requires Valid(s) && idx < |s.terms| && t.kind == s.terms[idx].kind
    requires t.respInst.Some? ==> t.respInst.value < |s.instantiations|
    requires forall e | e in t.equalityExpls :: e.Literal? ==> e.eq < |s.terms|
    requires Distinct(t.equalityExpls)
    ensures Valid(s.(terms := s.terms[idx := t]))
  {
    var s1 := s.(terms := s.terms[idx := t]);
    assert forall i | 0 <= i < |s.terms| && i != idx :: s1.terms[i] == s.terms[i];
  }

  lemma CommitMatchValid(s: ParserState, fp: Fingerprint, quant: QuantIdx, discovered: bool, pattern: Option<TermIdx>,
                         bound: seq<TermIdx>, b: Blamed, key: nat)
    requires Valid(s) && quant < |s.quantifiers|
    requires OpenDeps(MatchBucket(b, quant, discovered, key))
    ensures Valid(CommitMatch(s, fp, quant, discovered, pattern, bound, b, key).state)
  {
    var temp := s.tempDependencies[key := MatchBucket(b, quant, discovered, key)];
    ValidBuckets(s, temp);
    if !b.outcome.IsFailure() {
      ValidWithMatch(s.(tempDependencies := temp), fp, PendingMatch(fp, quant, discovered, pattern, bound, b, key));
    }
  }

  lemma NewMatchValid(s: ParserState, l: seq<string>, lineNo: nat)
    requires Valid(s)
    ensures Valid(NewMatch(s, l, lineNo).state)
  {
    var h := ParseMatchHead(s, l);
    if h.Ok? {
      MatchBucketOpen(s, h.value.rest, true, h.value.quant, false, lineNo + 1);
    }
    MatchFromValid(s, h, if h.Ok? then Blame(s.termMap, s.terms, s.instantiations, h.value.rest, true) else NoBlame, lineNo);
  }

  lemma NewMatchValidAt(s: ParserState, l: seq<string>, lineNo: nat, t: ParserState)
    requires Valid(s) && t == NewMatch(s, l, lineNo).state
    ensures Valid(t)
  {
    NewMatchValid(s, l, lineNo);
  }

  lemma MatchFromValid(s: ParserState, h: Res<MatchHead>, b: Blamed, lineNo: nat)
    requires Valid(s)
    requires h.Ok? ==> h.value.quant < |s.quantifiers| && OpenDeps(MatchBucket(b, h.value.quant, false, lineNo + 1))
    ensures Valid(MatchFrom(s, h, b, lineNo).state)
  {
    if !h.IsFailure() {
      CommitMatchValid(s, h.value.fingerprint, h.value.quant, false, Some(h.value.pattern), h.value.bound, b, lineNo + 1);
    }
  }

  /** What a bucket held before `CommitMatch` does not matter: it is
      overwritten. */
  lemma CommitOverwrites(s: ParserState, fp: Fingerprint, quant: QuantIdx, discovered: bool, pattern: Option<TermIdx>,
                         bound: seq<TermIdx>, b: Blamed, key: nat, x: seq<Dependency>)
    ensures CommitMatch(s.(tempDependencies := s.tempDependencies[key := x]), fp, quant, discovered, pattern, bound, b, key)
         == CommitMatch(s, fp, quant, discovered, pattern, bound, b, key)
  {
    assert s.tempDependencies[key := x][key := MatchBucket(b, quant, discovered, key)]
        == s.tempDependencies[key := MatchBucket(b, quant, discovered, key)];
  }

  /** `new_match` on a line whose head does not decode changes nothing. */
  lemma NewMatchRejects(s: ParserState, l: seq<string>, lineNo: nat)
    requires Valid(s) && ParseMatchHead(s, l).IsFailure()
    ensures NewMatch(s, l, lineNo) == Outcome(ParseMatchHead(s, l).Void(), s)
  {
  }

  /** A match line whose second id names a term that is not a quantifier
      panics before any state change. */
  lemma MatchHeadNonQuantPanics(s: ParserState, l: seq<string>, lineNo: nat)
    requires Valid(s) && |l| >= 2 && ParseFingerprint(l[0]).Some? && Resolve(s.termMap, l[1]).Ok?
    requires Resolve(s.termMap, l[1]).value < |s.terms| && !s.terms[Resolve(s.termMap, l[1]).value].kind.Quant?
    ensures ParseMatchHead(s, l) == Panic
    ensures NewMatch(s, l, lineNo) == Outcome(Panic, s)
  {
  }

  /** `new_match` on a line whose head decodes commits what its blame
      loop produced. */
  lemma NewMatchCommits(s: ParserState, l: seq<string>, lineNo: nat, h: Res<MatchHead>, b: Blamed)
    requires Valid(s) && h == ParseMatchHead(s, l) && h.Ok?
    requires b == Blame(s.termMap, s.terms, s.instantiations, h.value.rest, true)
    ensures NewMatch(s, l, lineNo)
         == CommitMatch(s, h.value.fingerprint, h.value.quant, false, Some(h.value.pattern), h.value.bound, b, lineNo + 1)
  {
  }

  lemma InstDiscoveredValid(s: ParserState, l: seq<string>, lineNo: nat)
    requires Valid(s)
    ensures Valid(InstDiscovered(s, l, lineNo).state)
  {
    if |l| >= 2 && ParseFingerprint(l[1]).Some? {
      var fp := ParseFingerprint(l[1]).value;
      var key := lineNo + 1;
      var s0 := s.(tempDependencies := s.tempDependencies[key := []]);
      ValidNewBucket(s, key);
      DiscoveredMatchValid(s0, fp, l[0], l[2..], key);
      assert InstDiscovered(s, l, lineNo) == DiscoveredMatch(s0, fp, l[0], l[2..], key);
      ValidSame(DiscoveredMatch(s0, fp, l[0], l[2..], key).state, InstDiscovered(s, l, lineNo).state);
    }
  }

  lemma DiscoveredMatchValid(s: ParserState, fp: Fingerprint, how: string, rest: seq<string>, key: nat)
    requires Valid(s) && key >= 1
    ensures Valid(DiscoveredMatch(s, fp, how, rest, key).state)
  {
    if how == "theory-solving" && rest != [] && ParseTermId(rest[0]).Some? {
      TheorySolvingMatchValid(s, fp, ParseTermId(rest[0]).value, rest[1..], key);
    } else if how == "MBQI" {
      MbqiMatchValid(s, fp, rest, key);
    }
  }

  lemma TheorySolvingMatchValid(s: ParserState, fp: Fingerprint, tsId: TermId, rest: seq<string>, key: nat)
    requires Valid(s) && key >= 1
    ensures Valid(TheorySolvingMatch(s, fp, tsId, rest, key).state)
  {
    var (q, s1) := DiscoveredQuant(s, TheorySolving(tsId), "theory-solving");
    DiscoveredQuantValid(s, TheorySolving(tsId), "theory-solving");
    DiscoveredQuantGetOrInsert(s, TheorySolving(tsId), "theory-solving", "theory-solving");
    var t := TheorySolvingTail(s1, rest);
    if t.Ok? {
      MatchBucketOpen(s1, if rest == [] then [] else rest[1..], false, q, true, key);
    }
    CommitDiscoveredValid(s1, fp, q, t, key);
  }

  lemma MbqiMatchValid(s: ParserState, fp: Fingerprint, rest: seq<string>, key: nat)
    requires Valid(s) && key >= 1
    ensures Valid(MbqiMatch(s, fp, rest, key).state)
  {
    var (q, s1) := DiscoveredQuant(s, MBQI, "MBQI");
    DiscoveredQuantValid(s, MBQI, "MBQI");
    DiscoveredQuantGetOrInsert(s, MBQI, "MBQI", "MBQI");
    var t := MbqiTail(s1, rest);
    if t.Ok? {
      assert MatchBucket(t.value.blame, q, true, key) == [BlankDependency(q, true, key)];
    }
    CommitDiscoveredValid(s1, fp, q, t, key);
  }

  lemma CommitDiscoveredValid(s: ParserState, fp: Fingerprint, quant: QuantIdx, t: Res<DiscoveredTail>, key: nat)
    requires Valid(s) && quant < |s.quantifiers|
    requires t.Ok? ==> OpenDeps(MatchBucket(t.value.blame, quant, true, key))
    ensures Valid(CommitDiscovered(s, fp, quant, t, key).state)
  {
    if t.Ok? {
      CommitMatchValid(s, fp, quant, true, None, t.value.bound, t.value.blame, key);
    }
  }

  lemma InstanceValid(s: ParserState, l: seq<string>, lineNo: nat)
    requires Valid(s)
    ensures Valid(Instance(s, l, lineNo).state)
  {
    var o := Instance(s, l, lineNo);
    if o.result.Ok? {
      var m := s.matches[ParseFingerprint(l[0]).value];
      assert MatchValid(m, |s.quantifiers|, s.tempDependencies.Keys);
      var s1 := o.state;
      forall k | 0 <= k < |s1.instantiations| ensures InstValid(s1.instantiations[k], |s1.quantifiers|, s1.tempDependencies.Keys) {
        if k < |s.instantiations| {
          assert InstValid(s.instantiations[k], |s.quantifiers|, s.tempDependencies.Keys);
        }
      }
      forall fp | fp in s1.matches ensures MatchValid(s1.matches[fp], |s1.quantifiers|, s1.tempDependencies.Keys) {
        assert MatchValid(s.matches[fp], |s.quantifiers|, s.tempDependencies.Keys);
      }
      forall i | 0 <= i < |s1.terms| ensures s1.terms[i].kind.Quant? ==> s1.terms[i].kind.qidx < |s1.quantifiers| {
      }
    }
  }

  lemma EndOfInstanceValid(s: ParserState)
    requires Valid(s) && s.instStack != []
    ensures Valid(EndOfInstance(s))
  {
    var iidx := s.instStack[|s.instStack| - 1];
    var inst := s.instantiations[iidx];
    assert InstValid(inst, |s.quantifiers|, s.tempDependencies.Keys);
    var bucket := s.tempDependencies[inst.matchLineNo];
    assert OpenDeps(bucket);
    var closed := Close(bucket, inst.lineNo, inst.quant);
    forall d | d in closed ensures d.to.Some? && d.to.value >= 1 && d.from >= 1 {
      var k :| 0 <= k < |closed| && closed[k] == d;
      assert bucket[k] in bucket;
    }
    ValidBuckets(s, s.tempDependencies[inst.matchLineNo := []]);
    var s1 := EndOfInstance(s);
    assert forall d | d in s1.dependencies :: d in s.dependencies || d in closed;
  }
}

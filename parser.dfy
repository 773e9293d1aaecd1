/** `Z3Parser`: the parser object whose handlers update its arenas, tables,
    stack and dependency lists in place.  Each method performs the updates
    of the source statement by statement (its loops included) and is proved
    to leave exactly the state, and return exactly the result, that the
    corresponding handler of `States` describes; validity of the state is
    kept by every handler. */
module Parser {
  import opened Items
  import opened Tokens
  import opened Lines
  import opened States
  import opened IdxMaps

  class Z3Parser {
    var versionInfo: Option<SolverVersion>
    const idxMap: IdxMap
    var terms: seq<Term>
    var quantifiers: seq<Quantifier>
    var matches: map<Fingerprint, Instantiation>
    var instantiations: seq<Instantiation>
    var instStack: seq<InstIdx>
    var tempDependencies: map<nat, seq<Dependency>>
    var dependencies: seq<Dependency>

    /** The parser's state as a value. */
    function Snapshot(): ParserState
      reads this, idxMap
    {
      ParserState(versionInfo, idxMap.termMap, idxMap.discoveredMap, terms, quantifiers, matches,
                  instantiations, instStack, tempDependencies, dependencies)
    }

    predicate Valid()
      reads this, idxMap
    {
      States.Valid(Snapshot())
    }

    /** `Z3Parser::default`. */
    constructor ()
      ensures Snapshot() == States.Default() && Valid()
    {
      versionInfo := None;
      idxMap := new IdxMap();
      terms := [];
      quantifiers := [];
      matches := map[];
      instantiations := [];
      instStack := [];
      tempDependencies := map[];
      dependencies := [];
      new;
      DefaultValid();
    }

    // -------------------------------------------------------------------
    // new_term and discovered_quant
    // -------------------------------------------------------------------

    /** The child loop of `new_term`: every occurrence of a child records
        `idx` among its dependents. */
    method AddDependents(children: seq<TermIdx>, idx: TermIdx)
      requires forall c | c in children :: c < |terms|
      modifies this`terms
      ensures terms == AddDependent(old(terms), children, idx)
    {
      ghost var start := terms;
      var i := 0;
      while i < |children|
        invariant 0 <= i <= |children| && |terms| == |start|
        invariant forall c | c in children :: c < |terms|
        invariant forall c | c in children[i..] :: c in children
        invariant AddDependent(terms, children[i..], idx) == AddDependent(start, children, idx)
      {
        var c := children[i];
        assert c in children;
        assert children[i..] == [c] + children[i + 1..];
        terms := terms[c := terms[c].(depTermIds := terms[c].depTermIds + [idx])];
        i := i + 1;
      }
      assert children[i..] == [];
    }

    /** `new_term`: the children learn of the new index, then the term is
        appended and its id registered. */
    method NewTerm(id: TermId, t: Term) returns (idx: TermIdx)
      requires forall c | c in t.childIds :: c < |terms|
      modifies this`terms, idxMap
      ensures (Snapshot(), idx) == States.NewTerm(old(Snapshot()), id, t)
    {
      idx := |terms|;
      AddDependents(t.childIds, idx);
      terms := terms + [t];
      idxMap.RegisterTerm(id, idx);
    }

    /** `discovered_quant`: the quantifier cached under `id`; on first use a
        fresh quantifier of kind `Other(discovery)` is pushed and cached. */
    method DiscoveredQuant(id: DiscoveredId, discovery: string) returns (q: QuantIdx)
      modifies this`quantifiers, idxMap
      ensures (q, Snapshot()) == States.DiscoveredQuant(old(Snapshot()), id, discovery)
    {
      var inserted;
      q, inserted := idxMap.DiscoveredQuant(id, |quantifiers|);
      if inserted {
        quantifiers := quantifiers + [DiscoveredQuantifier(discovery)];
      }
    }

    // -------------------------------------------------------------------
    // Definitions of terms and quantifiers
    // -------------------------------------------------------------------

    method VersionInfo(l: seq<string>) returns (r: Res<()>)
      requires Valid()
      modifies this`versionInfo
      ensures r == States.VersionInfo(old(Snapshot()), l).result
      ensures Snapshot() == States.VersionInfo(old(Snapshot()), l).state && Valid()
    {
      var v := ParseVersionLine(l);
      if v.IsFailure() {
        return v.Void();
      }
      versionInfo := Some(v.value);
      r := Ok(());
      VersionInfoValid(old(Snapshot()), l);
    }

    method MkQuant(l: seq<string>) returns (r: Res<()>)
      requires Valid()
      modifies this`terms, this`quantifiers, idxMap
      ensures r == States.MkQuant(old(Snapshot()), l).result
      ensures Snapshot() == States.MkQuant(old(Snapshot()), l).state && Valid()
    {
      var q := ParseQuantLine(idxMap.termMap, l);
      if q.IsFailure() {
        return q.Void();
      }
      ResolveAllIn(idxMap.termMap, l[3..], |terms|);
      var qidx := |quantifiers|;
      var tidx := NewTerm(q.value.id, Term(q.value.id, Quant(qidx), None, q.value.children, [], None, []));
      quantifiers := quantifiers + [Quantifier(q.value.kind, q.value.numVars, Some(tidx), [], 0, None)];
      r := Ok(());
      MkQuantValid(old(Snapshot()), l);
    }

    method MkVar(l: seq<string>) returns (r: Res<()>)
      requires Valid()
      modifies this`terms, idxMap
      ensures r == States.MkVar(old(Snapshot()), l).result
      ensures Snapshot() == States.MkVar(old(Snapshot()), l).state && Valid()
    {
      var v := ParseVarLine(l);
      if v.IsFailure() {
        return v.Void();
      }
      var (id, kind) := v.value;
      var _ := NewTerm(id, Term(id, kind, None, [], [], None, []));
      r := Ok(());
      MkVarValid(old(Snapshot()), l);
    }

    method MkProofApp(l: seq<string>, isProof: bool) returns (r: Res<()>)
      requires Valid()
      modifies this`terms, idxMap
      ensures r == States.MkProofApp(old(Snapshot()), l, isProof).result
      ensures Snapshot() == States.MkProofApp(old(Snapshot()), l, isProof).state && Valid()
    {
      var a := ParseAppLine(idxMap.termMap, l, isProof);
      if a.IsFailure() {
        return a.Void();
      }
      ResolveAllIn(idxMap.termMap, l[2..], |terms|);
      var _ := NewTerm(a.value.id, Term(a.value.id, a.value.kind, None, a.value.children, [], None, []));
      r := Ok(());
      MkProofAppValid(old(Snapshot()), l, isProof);
    }

    // -------------------------------------------------------------------
    // Information attached to existing terms
    // -------------------------------------------------------------------

    method AttachMeaning(l: seq<string>) returns (r: Res<()>)
      requires Valid()
      modifies this`terms
      ensures r == States.AttachMeaning(old(Snapshot()), l).result
      ensures Snapshot() == States.AttachMeaning(old(Snapshot()), l).state && Valid()
    {
      var m := ParseMeaningLine(idxMap.termMap, l);
      if m.IsFailure() {
        return m.Void();
      }
      var (idx, meaning) := m.value;
      ResolveIn(idxMap.termMap, l[0], |terms|);
      match terms[idx].meaning
      case Some(previous) =>
        r := if previous == meaning then Ok(()) else Panic;
      case None =>
        terms := terms[idx := terms[idx].(meaning := Some(meaning))];
        r := Ok(());
      AttachMeaningValid(old(Snapshot()), l);
    }

    method AttachVarNames(l: seq<string>) returns (r: Res<()>)
      requires Valid()
      modifies this`quantifiers
      ensures r == States.AttachVarNames(old(Snapshot()), l).result
      ensures Snapshot() == States.AttachVarNames(old(Snapshot()), l).state && Valid()
    {
      var v := ParseVarNamesLine(idxMap.termMap, l);
      if v.IsFailure() {
        return v.Void();
      }
      var (tidx, names) := v.value;
      ResolveIn(idxMap.termMap, l[0], |terms|);
      match terms[tidx].kind
      case Quant(q) =>
        if quantifiers[q].vars.Some? {
          r := Panic;
        } else {
          quantifiers := quantifiers[q := quantifiers[q].(vars := Some(names))];
          r := Ok(());
        }
      case _ =>
        r := Panic;
      AttachVarNamesValid(old(Snapshot()), l);
    }

    method AttachEnode(l: seq<string>) returns (r: Res<()>)
      requires Valid()
      modifies this`terms, this`instantiations
      ensures r == States.AttachEnode(old(Snapshot()), l).result
      ensures Snapshot() == States.AttachEnode(old(Snapshot()), l).state && Valid()
    {
      ghost var s := Snapshot();
      var e := ParseEnodeLine(idxMap.termMap, l);
      if e.IsFailure() {
        return e.Void();
      }
      var idx := e.value;
      ResolveIn(idxMap.termMap, l[0], |terms|);
      AttachEnodeValid(s, l);
      if instStack != [] {
        var top := instStack[|instStack| - 1];
        assert top < |instantiations| by {
          assert StackValid(s);
        }
        assert States.AttachEnode(s, l) == Outcome(Ok(()), Produce(s, idx, top));
        SetProducer(idx, top);
        ValidSame(Produce(s, idx, top), Snapshot());
      } else {
        assert States.AttachEnode(s, l) == Outcome(Ok(()), s);
      }
      r := Ok(());
    }

    /** Records the term `idx` as produced by the instantiation `top`. */
    method SetProducer(idx: TermIdx, top: InstIdx)
      requires idx < |terms| && top < |instantiations|
      modifies this`terms, this`instantiations
      ensures Snapshot() == Produce(old(Snapshot()), idx, top)
    {
      terms := terms[idx := terms[idx].(respInst := Some(top))];
      instantiations := instantiations[top := instantiations[top].(yieldsTerms := instantiations[top].yieldsTerms + [idx])];
    }

    method EqExpl(l: seq<string>) returns (r: Res<()>)
      requires Valid()
      modifies this`terms
      ensures r == States.EqExpl(old(Snapshot()), l).result
      ensures Snapshot() == States.EqExpl(old(Snapshot()), l).state && Valid()
    {
      ghost var s := Snapshot();
      var e := ParseEqExplLine(idxMap.termMap, l);
      if e.IsFailure() {
        return e.Void();
      }
      var (idx, expl) := e.value;
      ResolveIn(idxMap.termMap, l[0], |terms|);
      EqExplValid(s, l);
      if expl !in terms[idx].equalityExpls {
        var term := terms[idx].(equalityExpls := terms[idx].equalityExpls + [expl]);
        assert States.EqExpl(s, l) == Outcome(Ok(()), s.(terms := terms[idx := term]));
        terms := terms[idx := term];
      }
      r := Ok(());
    }

    // -------------------------------------------------------------------
    // Dependencies of a match
    // -------------------------------------------------------------------

    /** `add_blank_dependency_if_needed`: pushes the placeholder into the
        (already opened) bucket of the match line. */
    method AddBlankDependencyIfNeeded(quant: QuantIdx, quantDiscovered: bool, matchLine: nat)
      requires matchLine in tempDependencies
      modifies this`tempDependencies
      ensures tempDependencies == old(tempDependencies)[matchLine := old(tempDependencies)[matchLine] + [BlankDependency(quant, quantDiscovered, matchLine)]]
    {
      tempDependencies := tempDependencies[matchLine := tempDependencies[matchLine] + [BlankDependency(quant, quantDiscovered, matchLine)]];
    }

    /** Pushes `d` at the end of the bucket `key`. */
    method PushDependency(key: nat, d: Dependency)
      requires key in tempDependencies
      modifies this`tempDependencies
      ensures tempDependencies == old(tempDependencies)[key := old(tempDependencies)[key] + [d]]
    {
      tempDependencies := tempDependencies[key := tempDependencies[key] + [d]];
    }

    /** The inner loop over the explanations of `f`: every literal
        explanation equating `f` with `s` whose equality some instantiation
        produced adds an equality dependency to the bucket `key`. */
    method PushLiteralLinks(f: TermIdx, s: TermIdx, key: nat) returns (pushed: seq<(InstIdx, Dependency)>)
      requires f < |terms| && Indexed(terms, instantiations) && key in tempDependencies
      modifies this`tempDependencies
      ensures pushed == LiteralLinks(terms, instantiations, terms[f].equalityExpls, f, s)
      ensures tempDependencies == old(tempDependencies)[key := old(tempDependencies)[key] + Deps(pushed)]
    {
      var ts, insts := terms, instantiations;
      var eqs := ts[f].equalityExpls;
      assert forall e | e in eqs :: e.Literal? ==> e.eq < |ts|;
      ghost var start := tempDependencies[key];
      pushed := [];
      assert start + Deps(pushed) == start;
      var j := 0;
      while j < |eqs|
        invariant 0 <= j <= |eqs|
        invariant pushed + LiteralLinks(ts, insts, eqs[j..], f, s) == LiteralLinks(ts, insts, eqs, f, s)
        invariant tempDependencies == old(tempDependencies)[key := start + Deps(pushed)]
      {
        var found := LiteralLink(ts, insts, eqs[j], f, s);
        LiteralLinksStep(ts, insts, eqs, j, f, s);
        Assoc(pushed, OptLinks(found), LiteralLinks(ts, insts, eqs[j + 1..], f, s));
        if found.Some? {
          PushDependency(key, found.value.1);
          assert Deps([found.value]) == [found.value.1];
          BucketGrows(old(tempDependencies), key, start, pushed, [found.value]);
          pushed := pushed + [found.value];
        } else {
          assert pushed + OptLinks(found) == pushed;
        }
        j := j + 1;
      }
    }

    /** One iteration of the blame loop on the non-empty `rest`: what it
        pushes goes to the end of the bucket `key`, and a rejected word
        pushes nothing. */
    method BlameIteration(rest: seq<string>, pairs: bool, key: nat) returns (step: Res<(nat, Blamed)>)
      requires rest != [] && IdsIn(idxMap.termMap, |terms|) && Indexed(terms, instantiations)
      requires key in tempDependencies
      modifies this`tempDependencies
      ensures step == BlameStep(idxMap.termMap, terms, instantiations, rest, pairs)
      ensures step.IsFailure() ==> tempDependencies == old(tempDependencies)
      ensures step.Ok? ==> tempDependencies == old(tempDependencies)[key := old(tempDependencies)[key] + Deps(step.value.1.links)]
    {
      var ids, ts, insts := idxMap.termMap, terms, instantiations;
      var word := rest[0];
      if pairs && StartsWith(word, '(') {
        if |rest| < 2 || !EndsWith(rest[1], ')') {
          return Fail;
        }
        var f := Resolve(ids, word[1..]);
        if f.IsFailure() {
          return f.PropagateFailure();
        }
        var sd := Resolve(ids, rest[1][..|rest[1]| - 1]);
        if sd.IsFailure() {
          return sd.PropagateFailure();
        }
        ResolveIn(ids, word[1..], |ts|);
        step := BlamePair(f.value, sd.value, key);
      } else {
        var t := Resolve(ids, word);
        if t.IsFailure() {
          return t.PropagateFailure();
        }
        ResolveIn(ids, word, |ts|);
        var found := AddDependency(ts, insts, t.value, TermDep);
        if found.Some? {
          PushDependency(key, found.value.1);
          assert Deps([found.value]) == [found.value.1];
        } else {
          assert Deps([]) == [] && tempDependencies[key] + [] == tempDependencies[key];
          assert tempDependencies == tempDependencies[key := tempDependencies[key] + []];
        }
        step := Ok((1, Blamed(Ok(()), OptLinks(found), [Single(t.value)], [])));
      }
    }

    /** The blamed pair `(f s)`: the literal explanations of `f` equating it
        with `s` when the two differ. */
    method BlamePair(f: TermIdx, s: TermIdx, key: nat) returns (step: Res<(nat, Blamed)>)
      requires f < |terms| && Indexed(terms, instantiations) && key in tempDependencies
      modifies this`tempDependencies
      ensures step.Ok? && step.value.0 == 2
      ensures step.value.1 == if f != s then Blamed(Ok(()), LiteralLinks(terms, instantiations, terms[f].equalityExpls, f, s), [Pair(f, s)], [f])
                              else Blamed(Ok(()), [], [Pair(f, s)], [])
      ensures tempDependencies == old(tempDependencies)[key := old(tempDependencies)[key] + Deps(step.value.1.links)]
    {
      if f != s {
        var pushed := PushLiteralLinks(f, s, key);
        step := Ok((2, Blamed(Ok(()), pushed, [Pair(f, s)], [f])));
      } else {
        assert Deps([]) == [] && tempDependencies[key] + [] == tempDependencies[key];
        assert tempDependencies == tempDependencies[key := tempDependencies[key] + []];
        step := Ok((2, Blamed(Ok(()), [], [Pair(f, s)], [])));
      }
    }

    /** The blame loop of `new_match` (`pairs`) and `inst_discovered`:
        resolves each blamed word, pushing a dependency into the bucket
        `key` for every blamed term an instantiation produced, until the
        words run out or one rejects the line. */
    method BlameLoop(words: seq<string>, pairs: bool, key: nat) returns (b: Blamed)
      requires IdsIn(idxMap.termMap, |terms|) && Indexed(terms, instantiations) && key in tempDependencies
      modifies this`tempDependencies
      ensures b == Blame(idxMap.termMap, terms, instantiations, words, pairs)
      ensures tempDependencies == old(tempDependencies)[key := old(tempDependencies)[key] + Deps(b.links)]
    {
      ghost var start := tempDependencies[key];
      ghost var ids, ts, insts := idxMap.termMap, terms, instantiations;
      var rest := words;
      var links: seq<(InstIdx, Dependency)> := [];
      var blamed: seq<BlamedTermItem> := [];
      var eqExpls: seq<TermIdx> := [];
      assert start + Deps(links) == start;
      assert tempDependencies == tempDependencies[key := start];
      NothingThen(Blame(ids, ts, insts, words, pairs));
      while rest != []
        invariant Then(Blamed(Ok(()), links, blamed, eqExpls), Blame(ids, ts, insts, rest, pairs)) == Blame(ids, ts, insts, words, pairs)
        invariant tempDependencies == old(tempDependencies)[key := start + Deps(links)]
        decreases |rest|
      {
        var step := BlameIteration(rest, pairs, key);
        BlameAfter(ids, ts, insts, rest, pairs, Blamed(Ok(()), links, blamed, eqExpls));
        if step.IsFailure() {
          return Blamed(step.Void(), links, blamed, eqExpls);
        }
        var (used, piece) := step.value;
        BucketGrows(old(tempDependencies), key, start, links, piece.links);
        links, blamed, eqExpls := links + piece.links, blamed + piece.blamed, eqExpls + piece.eqExpls;
        rest := rest[used..];
      }
      b := Blamed(Ok(()), links, blamed, eqExpls);
    }

    /** The end of `new_match` and `inst_discovered` once the blame loop has
        filled the bucket `key`: the placeholder if nothing was blamed, then
        the pending match. */
    method CommitMatch(fp: Fingerprint, quant: QuantIdx, discovered: bool, pattern: Option<TermIdx>,
                       bound: seq<TermIdx>, b: Blamed, key: nat) returns (r: Res<()>)
      requires key in tempDependencies && tempDependencies[key] == Deps(b.links)
      modifies this`tempDependencies, this`matches
      ensures r == b.outcome
      ensures Snapshot() == States.CommitMatch(old(Snapshot()), fp, quant, discovered, pattern, bound, b, key).state
    {
      if b.outcome.IsFailure() {
        assert MatchBucket(b, quant, discovered, key) == Deps(b.links);
        assert tempDependencies == tempDependencies[key := Deps(b.links)];
        return b.outcome;
      }
      assert b.outcome.value == ();
      if b.links == [] {
        AddBlankDependencyIfNeeded(quant, discovered, key);
        assert tempDependencies == old(tempDependencies)[key := MatchBucket(b, quant, discovered, key)];
      } else {
        assert MatchBucket(b, quant, discovered, key) == Deps(b.links);
        assert tempDependencies == tempDependencies[key := Deps(b.links)];
      }
      matches := matches[fp := PendingMatch(fp, quant, discovered, pattern, bound, b, key)];
      r := Ok(());
    }

    // -------------------------------------------------------------------
    // Matches and instantiations
    // -------------------------------------------------------------------

    /** `new_match`. */
    method NewMatch(l: seq<string>, lineNo: nat) returns (r: Res<()>)
      requires Valid()
      modifies this`tempDependencies, this`matches
      ensures r == States.NewMatch(old(Snapshot()), l, lineNo).result
      ensures Snapshot() == States.NewMatch(old(Snapshot()), l, lineNo).state && Valid()
    {
      ghost var s := Snapshot();
      var h := ParseMatchHead(Snapshot(), l);
      if h.IsFailure() {
        NewMatchRejects(s, l, lineNo);
        return h.Void();
      }
      var key := lineNo + 1;
      tempDependencies := tempDependencies[key := []];
      ghost var started := Snapshot();
      var b := BlameLoop(h.value.rest, true, key);
      ghost var filled := Snapshot();
      r := CommitMatch(h.value.fingerprint, h.value.quant, false, Some(h.value.pattern), h.value.bound, b, key);
      NewMatchCommits(s, l, lineNo, h, b);
      CommitOverwrites(started, h.value.fingerprint, h.value.quant, false, Some(h.value.pattern), h.value.bound, b, key, [] + Deps(b.links));
      CommitOverwrites(s, h.value.fingerprint, h.value.quant, false, Some(h.value.pattern), h.value.bound, b, key, []);
      NewMatchValidAt(s, l, lineNo, Snapshot());
    }

    /** `inst_discovered`. */
    method InstDiscovered(l: seq<string>, lineNo: nat) returns (r: Res<()>)
      requires Valid()
      modifies this`tempDependencies, this`matches, this`quantifiers, idxMap
      ensures r == States.InstDiscovered(old(Snapshot()), l, lineNo).result
      ensures Snapshot() == States.InstDiscovered(old(Snapshot()), l, lineNo).state && Valid()
    {
      ghost var s := Snapshot();
      InstDiscoveredValid(s, l, lineNo);
      if |l| < 2 || ParseFingerprint(l[1]).None? {
        return Fail;
      }
      var fp := ParseFingerprint(l[1]).value;
      var key := lineNo + 1;
      tempDependencies := tempDependencies[key := []];
      ghost var s0 := Snapshot();
      ValidNewBucket(s, key);
      assert States.InstDiscovered(s, l, lineNo) == DiscoveredMatch(s0, fp, l[0], l[2..], key);
      if l[0] == "theory-solving" {
        if |l| < 3 || ParseTermId(l[2]).None? {
          return Fail;
        }
        assert l[2..][0] == l[2] && l[2..][1..] == l[3..];
        r := TheorySolvingMatch(fp, ParseTermId(l[2]).value, l[3..], key);
      } else if l[0] == "MBQI" {
        r := MbqiMatch(fp, l[2..], key);
      } else {
        return Fail;
      }
      ValidSame(States.InstDiscovered(s, l, lineNo).state, Snapshot());
    }

    /** A theory-solving line after its term id. */
    method TheorySolvingMatch(fp: Fingerprint, tsId: TermId, rest: seq<string>, key: nat) returns (r: Res<()>)
      requires Valid() && key in tempDependencies && tempDependencies[key] == []
      modifies this`tempDependencies, this`matches, this`quantifiers, idxMap
      ensures r == States.TheorySolvingMatch(old(Snapshot()), fp, tsId, rest, key).result
      ensures Snapshot() == States.TheorySolvingMatch(old(Snapshot()), fp, tsId, rest, key).state
    {
      ghost var s := Snapshot();
      var q := DiscoveredQuant(TheorySolving(tsId), "theory-solving");
      DiscoveredQuantValid(s, TheorySolving(tsId), "theory-solving");
      ghost var s1 := Snapshot();
      ghost var t := TheorySolvingTail(s1, rest);
      assert States.TheorySolvingMatch(s, fp, tsId, rest, key) == CommitDiscovered(s1, fp, q, t, key);
      if rest != [] && rest[0] != ";" {
        return Fail;
      }
      var b := BlameLoop(if rest == [] then [] else rest[1..], false, key);
      assert Deps(b.links) == [] + Deps(b.links);
      r := CommitMatch(fp, q, true, None, [], b, key);
      CommitOverwrites(s1, fp, q, true, None, [], b, key, [] + Deps(b.links));
    }

    /** An MBQI line after its fingerprint. */
    method MbqiMatch(fp: Fingerprint, rest: seq<string>, key: nat) returns (r: Res<()>)
      requires Valid() && key in tempDependencies && tempDependencies[key] == []
      modifies this`tempDependencies, this`matches, this`quantifiers, idxMap
      ensures r == States.MbqiMatch(old(Snapshot()), fp, rest, key).result
      ensures Snapshot() == States.MbqiMatch(old(Snapshot()), fp, rest, key).state
    {
      ghost var s := Snapshot();
      var q := DiscoveredQuant(MBQI, "MBQI");
      DiscoveredQuantValid(s, MBQI, "MBQI");
      ghost var s1 := Snapshot();
      var bound := ResolveAll(idxMap.termMap, rest);
      assert States.MbqiMatch(s, fp, rest, key) == CommitDiscovered(s1, fp, q, MbqiTail(s1, rest), key);
      if bound.IsFailure() {
        return bound.Void();
      }
      assert Deps(NoBlame.links) == [];
      r := CommitMatch(fp, q, true, None, bound.value, NoBlame, key);
    }

    /** `instance`. */
    method Instance(l: seq<string>, lineNo: nat) returns (r: Res<()>)
      requires Valid()
      modifies this`instantiations, this`instStack, this`quantifiers
      ensures r == States.Instance(old(Snapshot()), l, lineNo).result
      ensures Snapshot() == States.Instance(old(Snapshot()), l, lineNo).state && Valid()
    {
      ghost var s := Snapshot();
      if l == [] || ParseFingerprint(l[0]).None? {
        return Fail;
      }
      var fp := ParseFingerprint(l[0]).value;
      if fp !in matches {
        return Panic;
      }
      var m := matches[fp];
      assert MatchValid(m, |quantifiers|, tempDependencies.Keys);
      var tail := ParseInstanceTail(idxMap.termMap, l[1..]);
      if tail.IsFailure() {
        return tail.Void();
      }
      var (term, gen) := tail.value;
      assert States.Instance(s, l, lineNo) == Outcome(Ok(()), Promote(s, m, term, gen, lineNo));
      InstanceValid(s, l, lineNo);
      PromoteMatch(m, term, gen, lineNo);
      r := Ok(());
    }

    /** The pending match `m` becomes the next instantiation, is opened on
        the stack and counted for its quantifier. */
    method PromoteMatch(m: Instantiation, term: Option<TermIdx>, gen: Option<nat>, lineNo: nat)
      requires m.quant < |quantifiers|
      modifies this`instantiations, this`instStack, this`quantifiers
      ensures Snapshot() == Promote(old(Snapshot()), m, term, gen, lineNo)
    {
      var inst := m.(lineNo := Some(lineNo + 1),
                     resultingTerm := if term.Some? then term else m.resultingTerm,
                     z3Gen := if gen.Some? then gen else m.z3Gen);
      var iidx := |instantiations|;
      var qidx := m.quant;
      var quant := quantifiers[qidx].(instances := quantifiers[qidx].instances + [iidx], cost := quantifiers[qidx].cost + 1);
      instantiations := instantiations + [inst];
      instStack := instStack + [iidx];
      quantifiers := quantifiers[qidx := quant];
    }

    /** `end_of_instance`: pops the innermost instantiation, closes every
        dependency of its bucket in place and moves them to the permanent
        list. */
    method EndOfInstance()
      requires Valid() && instStack != []
      modifies this`instStack, this`tempDependencies, this`dependencies
      ensures Snapshot() == States.EndOfInstance(old(Snapshot())) && Valid()
    {
      EndOfInstanceValid(old(Snapshot()));
      var iidx := instStack[|instStack| - 1];
      instStack := instStack[..|instStack| - 1];
      var inst := instantiations[iidx];
      assert InstValid(inst, |quantifiers|, tempDependencies.Keys);
      var deps := tempDependencies[inst.matchLineNo];
      ghost var open := deps;
      var i := 0;
      while i < |deps|
        invariant 0 <= i <= |deps| && |deps| == |open|
        invariant forall k | 0 <= k < i :: deps[k] == open[k].(to := inst.lineNo, quant := inst.quant)
        invariant forall k | i <= k < |deps| :: deps[k] == open[k]
      {
        deps := deps[i := deps[i].(to := inst.lineNo, quant := inst.quant)];
        i := i + 1;
      }
      assert deps == Close(open, inst.lineNo, inst.quant);
      dependencies := dependencies + deps;
      tempDependencies := tempDependencies[inst.matchLineNo := []];
    }
  }
}

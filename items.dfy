/** The entity model of the Z3 trace-log parser: terms, quantifiers,
    instantiations, equality explanations and dependencies, indexed by small
    arena indices.  The `items` module of the parser is not part of this
    model; the datatypes below carry exactly the fields the parser reads and
    writes, and the small token parsers it calls (`TermIdCow::parse`,
    `Fingerprint::parse`, `QuantKind::parse`, `TermKind::parse_var`, ...)
    are given simple stand-in definitions. */
module Items {

  datatype Option<+T> = None | Some(value: T)

  /** The outcome of one parsing step: a value, a rejected line (the source
      returns `None`), or a panic of the source (`unwrap`, `assert!`). */
  datatype Res<+T> = Ok(value: T) | Fail | Panic {
    predicate IsFailure() { !Ok? }
    function PropagateFailure<U>(): Res<U>
      requires !Ok?
    {
      if Fail? then Fail else Panic
    }
    function Extract(): T
      requires Ok?
    {
      value
    }
    /** The same outcome with the value dropped: a handler's `Option<()>`. */
    function Void(): (r: Res<()>)
      ensures r.Ok? == Ok? && r.Fail? == Fail? && r.Panic? == Panic?
    {
      match this
      case Ok(_) => Ok(())
      case Fail => Fail
      case Panic => Panic
    }
  }

  type TermIdx = nat
  type QuantIdx = nat
  type InstIdx = nat
  type Fingerprint = nat

  /** 2^64: one more than the largest `usize` (and `u64`) value. */
  const USIZE_LIMIT: nat := 0x1_0000_0000_0000_0000

  /** A solver-local textual term id `namespace#number`. */
  datatype TermId = TermId(namespace: string, number: nat)

  /** The key under which a quantifier the solver synthesised is cached. */
  datatype DiscoveredId = TheorySolving(tsId: TermId) | MBQI

  datatype QuantKind = Named(name: string) | Other(discovery: string)

  datatype TermKind =
    | Quant(qidx: QuantIdx)
    | Var(varIdx: nat)
    | ProofOrApp(isProof: bool, name: string)

  datatype Meaning = Meaning(theory: string, value: string)

  datatype VarNames =
    | TypeOnly(types: seq<string>)
    | NameAndType(pairs: seq<(string, string)>)

  datatype EqualityExpl =
    | Root(id: TermIdx)
    | Literal(from: TermIdx, eq: TermIdx, to: TermIdx)
    | Congruence(from: TermIdx, argEqs: seq<(TermIdx, TermIdx)>, to: TermIdx)
    | Theory(from: TermIdx, theory: string, to: TermIdx)
    | Axiom(from: TermIdx, to: TermIdx)
    | Unknown(kind: string, from: TermIdx, args: seq<string>, to: TermIdx)

  datatype BlamedTermItem = Single(term: TermIdx) | Pair(left: TermIdx, right: TermIdx)

  /** `DepType::Term`, `DepType::Equality` and `DepType::None`. */
  datatype DepType = TermDep | EqualityDep | NoCause

  datatype Term = Term(
    id: TermId,
    kind: TermKind,
    meaning: Option<Meaning>,
    childIds: seq<TermIdx>,
    depTermIds: seq<TermIdx>,
    respInst: Option<InstIdx>,
    equalityExpls: seq<EqualityExpl>)

  /** `cost` is a floating-point popularity count in the source; every
      update adds exactly 1.0 to it, so it is an integer counter here. */
  datatype Quantifier = Quantifier(
    kind: QuantKind,
    numVars: nat,
    term: Option<TermIdx>,
    instances: seq<InstIdx>,
    cost: nat,
    vars: Option<VarNames>)

  datatype Instantiation = Instantiation(
    matchLineNo: nat,
    lineNo: Option<nat>,
    fingerprint: Fingerprint,
    resultingTerm: Option<TermIdx>,
    z3Gen: Option<nat>,
    cost: nat,
    quant: QuantIdx,
    quantDiscovered: bool,
    pattern: Option<TermIdx>,
    yieldsTerms: seq<TermIdx>,
    boundTerms: seq<TermIdx>,
    blamedTerms: seq<BlamedTermItem>,
    equalityExpls: seq<TermIdx>,
    depInstantiations: seq<InstIdx>)

  datatype Dependency = Dependency(
    from: nat,
    to: Option<nat>,
    blamed: Option<TermIdx>,
    depType: DepType,
    quant: QuantIdx,
    quantDiscovered: bool)

  datatype Version = Version(major: nat, minor: nat, patch: nat)

  datatype SolverVersion = SolverVersion(solver: string, version: Version)

  // ---------------------------------------------------------------------
  // Character and number helpers
  // ---------------------------------------------------------------------

  predicate StartsWith(s: string, c: char) {
    |s| > 0 && s[0] == c
  }

  predicate EndsWith(s: string, c: char) {
    |s| > 0 && s[|s| - 1] == c
  }

  /** The position of the first `c` in `s`, if any. */
  function IndexOf(s: string, c: char): (r: Option<nat>)
    ensures r.Some? ==> r.value < |s| && s[r.value] == c && c !in s[..r.value]
    ensures r.None? ==> c !in s
    decreases |s|
  {
    if s == [] then None
    else if s[0] == c then Some(0)
    else
      match IndexOf(s[1..], c)
      case None => None
      case Some(k) =>
        assert s[..k + 1] == [s[0]] + s[1..][..k];
        Some(k + 1)
  }

  /** The value of a digit in radix 36 notation; 36 for anything else. */
  function DigitValue(c: char): nat {
    if '0' <= c <= '9' then c as nat - '0' as nat
    else if 'a' <= c <= 'z' then c as nat - 'a' as nat + 10
    else if 'A' <= c <= 'Z' then c as nat - 'A' as nat + 10
    else 36
  }

  predicate AllDigits(s: string, radix: nat) {
    forall i | 0 <= i < |s| :: DigitValue(s[i]) < radix
  }

  function DigitsValue(s: string, radix: nat): nat
    decreases |s|
  {
    if s == [] then 0 else DigitsValue(s[..|s| - 1], radix) * radix + DigitValue(s[|s| - 1])
  }

  /** Rust's `from_str_radix` for an unsigned type whose values lie below
      `limit`: an optional `+`, then at least one digit; overflow fails. */
  function ParseUnsigned(s: string, radix: nat, limit: nat): (r: Option<nat>)
    ensures r.Some? ==> r.value < limit
  {
    var digits := if StartsWith(s, '+') then s[1..] else s;
    if digits != [] && AllDigits(digits, radix) && DigitsValue(digits, radix) < limit
    then Some(DigitsValue(digits, radix))
    else None
  }

  /** `str::parse::<usize>()`. */
  function ParseUsize(s: string): (r: Option<nat>)
    ensures r.Some? ==> r.value < USIZE_LIMIT
  {
    ParseUnsigned(s, 10, USIZE_LIMIT)
  }

  /** Stand-in for `Fingerprint::parse`: `0x` followed by a 64-bit hex number. */
  function ParseFingerprint(s: string): Option<Fingerprint> {
    if |s| >= 2 && s[..2] == "0x" then ParseUnsigned(s[2..], 16, USIZE_LIMIT) else None
  }

  /** Stand-in for `TermIdCow::parse`: `namespace#number`, split at the first `#`. */
  function ParseTermId(s: string): (r: Option<TermId>)
    ensures r.Some? ==> '#' in s
  {
    match IndexOf(s, '#')
    case None => None
    case Some(k) =>
      match ParseUsize(s[k + 1..])
      case None => None
      case Some(n) => Some(TermId(s[..k], n))
  }

  /** Stand-in for `QuantKind::parse`, which never fails. */
  function ParseQuantKind(s: string): QuantKind {
    Named(s)
  }

  /** Stand-in for `TermKind::parse_var`: the variable's index. */
  function ParseVar(s: string): Option<TermKind> {
    match ParseUsize(s)
    case None => None
    case Some(n) => Some(Var(n))
  }

  /** Stand-in for `TermKind::parse_proof_app`, which never fails. */
  function ParseProofApp(isProof: bool, name: string): TermKind {
    ProofOrApp(isProof, name)
  }

  /** `TermKind::quant_idx`. */
  function QuantIdxOf(k: TermKind): (r: Option<QuantIdx>)
    ensures r.Some? <==> k.Quant?
  {
    if k.Quant? then Some(k.qidx) else None
  }

  /** `EqualityExpl::from_to`: the two terms an explanation equates. */
  function FromTo(e: EqualityExpl): (TermIdx, TermIdx) {
    match e
    case Root(id) => (id, id)
    case Literal(f, _, t) => (f, t)
    case Congruence(f, _, t) => (f, t)
    case Theory(f, _, t) => (f, t)
    case Axiom(f, t) => (f, t)
    case Unknown(_, f, _, t) => (f, t)
  }

  /** The pieces of `s` between occurrences of `c`. */
  function SplitOn(s: string, c: char): (r: seq<string>)
    ensures |r| >= 1
    decreases |s|
  {
    match IndexOf(s, c)
    case None => [s]
    case Some(k) => [s[..k]] + SplitOn(s[k + 1..], c)
  }

  /** A semantic-version numeric identifier: `0` or digits without a leading zero. */
  function ParseSemverNumber(s: string): Option<nat> {
    if s != [] && AllDigits(s, 10) && (s[0] != '0' || |s| == 1) && DigitsValue(s, 10) < USIZE_LIMIT
    then Some(DigitsValue(s, 10))
    else None
  }

  /** Stand-in for `semver::Version::parse`: `MAJOR.MINOR.PATCH` only. */
  function ParseVersion(s: string): Option<Version> {
    var parts := SplitOn(s, '.');
    if |parts| != 3 then None
    else
      match (ParseSemverNumber(parts[0]), ParseSemverNumber(parts[1]), ParseSemverNumber(parts[2]))
      case (Some(a), Some(b), Some(c)) => Some(Version(a, b, c))
      case _ => None
  }

  /** The decimal digits of `n`. */
  function ShowNat(n: nat): (s: string)
    ensures s != [] && AllDigits(s, 10) && s[0] != '+'
    decreases n
  {
    if n < 10 then [('0' as nat + n) as char]
    else ShowNat(n / 10) + [('0' as nat + n % 10) as char]
  }

  /** Reading back the decimal digits of `n` gives `n`. */
  lemma {:induction false} ShowNatValue(n: nat)
    ensures DigitsValue(ShowNat(n), 10) == n
    decreases n
  {
    if n >= 10 {
      ShowNatValue(n / 10);
      var s := ShowNat(n);
      assert s[..|s| - 1] == ShowNat(n / 10);
    }
  }

  /** `usize` parsing inverts decimal printing on every `usize`. */
  lemma ParseUsizeShowNat(n: nat)
    requires n < USIZE_LIMIT
    ensures ParseUsize(ShowNat(n)) == Some(n)
  {
    ShowNatValue(n);
  }

  /** `ParseTermId` reads back `namespace#number` for a namespace without `#`. */
  lemma ParseTermIdShow(ns: string, n: nat)
    requires '#' !in ns && n < USIZE_LIMIT
    ensures ParseTermId(ns + "#" + ShowNat(n)) == Some(TermId(ns, n))
  {
    var s := ns + "#" + ShowNat(n);
    IndexOfFirst(ns, '#', ShowNat(n));
    assert s[|ns| + 1..] == ShowNat(n);
    assert s[..|ns|] == ns;
    ParseUsizeShowNat(n);
  }

  lemma {:induction false} IndexOfFirst(x: string, c: char, y: string)
    requires c !in x
    ensures IndexOf(x + [c] + y, c) == Some(|x|)
    decreases |x|
  {
    if x != [] {
      var s := x + [c] + y;
      assert s[1..] == x[1..] + [c] + y;
      IndexOfFirst(x[1..], c, y);
    }
  }
}

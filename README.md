# Axiom Profiler core in Dafny

This project models the core of the Axiom Profiler. The profiler reads the trace log that the Z3 SMT solver writes
and builds the graph of quantifier instantiations from it.

## Modules

- **`Items`**: the log's entities as datatypes, indexed by small arena indices:
  - terms, quantifiers, instantiations, equality explanations and dependencies;
  - the three-way result `Res` of a handler: `Ok`, `Fail` (the Rust `None`) or `Panic` (an `unwrap`/`assert!` of the
    source).
- **`Tokens`**: the token helpers of the parser (`iter_until_eq`, `expect_completed`, `gobble_tuples`,
  `gobble_var_names_list`).
- **`Lines`**: the read-only front half of each handler:
  - parsing a line's tokens and resolving term ids (`parse_existing_id`, `gobble_children`, `gobble_id_pairs`);
  - `add_dependency`;
  - the blame loop of `[new-match]` / `[inst-discovered]` as a recursive function `Blame`.
- **`States`**: the whole parser state as the value `ParserState`, and each handler of `Z3LogParser` as a function from
  a state and a line to `Outcome(result, state)`. Also here:
  - `Valid`: the invariant that keeps every index the handlers follow in range, every pending bucket open and every
    finished dependency closed, and no term's equality explanations repeated;
  - the lemmas that each handler keeps `Valid` and does what the source promises.
- **`IdxMaps`**: the class `IdxMap` (the id → index maps).
- **`Parser`**: the class `Z3Parser`.
  - Its arenas are `seq` fields and its hash maps are `map` fields, updated in place by one method per handler.
  - Each method's loops (the blame loop, the literal-explanation loop, the child loop of `new_term`, the closing loop
    of `end_of_instance`) carry invariants.
  - Each method is proved equal to the `States` function of its handler, and to keep `Valid`.
- **`Results`**: `get_instantiation_graph` as a method with its `for` loop.
  - The node list is the de-duplicated sequence of line numbers that drawn dependencies mention.
  - Each edge is an index pair pointing at the nodes of a drawn dependency's two lines.
- **`SvgResult`**:
  - `find_coprime` (the first prime from 13 on that does not divide the number of quantifiers);
  - the colour map `idx ↦ (idx * coprime + shift) % total`, proved to be a permutation of the quantifier indices;
  - the `safe_to_render` decision with `EDGE_LIMIT` 500 and `DEFAULT_NODE_COUNT` 125;
  - `UserPermission`.
- **`GraphStates`**: `GraphState::default` and the reducer `reduce`.

## Notes on the code

- **Blank dependencies are drawn.** A blank dependency (`DepType::None`) starts at its match line. Match lines are
  `line_no + 1 >= 1`, so the `from > 0` guard of `get_instantiation_graph` (results.rs:26) never fails for a
  dependency the parser produced, and that function never looks at `dep_type`. Blank dependencies therefore do
  become a node and an edge (`Results.ClosedAllLinked`).
- **`quant_discovered`.** The flag on a real dependency is the *producer's* flag, copied by `add_dependency`.
  `end_of_instance` rewrites only `to` and `quant`.

## Model

| member | source | states |
|---|---|---|
| IdxMaps.Lookup | smt-log-parser/src/parsers/z3/z3parser.rs:46-48 | `get_term` finds an index iff the id was registered, and the one registered |
| IdxMaps.RegisterThenLookup | smt-log-parser/src/parsers/z3/z3parser.rs:40-48 | after registering, the id resolves to the new index even on a clash; other ids keep theirs; registering twice is registering once |
| IdxMaps.IdxMap.constructor | smt-log-parser/src/parsers/z3/z3parser.rs:34-38 | the default maps are empty |
| IdxMaps.IdxMap.RegisterTerm | smt-log-parser/src/parsers/z3/z3parser.rs:40-45 | the term map gains (or overwrites) the id; the discovered map is unchanged |
| IdxMaps.IdxMap.GetTerm | smt-log-parser/src/parsers/z3/z3parser.rs:46-48 | the lookup of the current term map |
| IdxMaps.IdxMap.DiscoveredQuant | smt-log-parser/src/parsers/z3/z3parser.rs:49-51 | get-or-insert: inserts the default exactly when the id is absent, else returns the stored index and changes nothing |
| States.Default | smt-log-parser/src/parsers/z3/z3parser.rs:599-621 | the default parser has no version, empty id maps, and no terms, quantifiers, pending matches, instantiations, open instantiations, buckets or dependencies |
| States.DefaultValid | smt-log-parser/src/parsers/z3/z3parser.rs:599-621 | the default parser satisfies the invariant |
| Parser.Z3Parser.constructor | smt-log-parser/src/parsers/z3/z3parser.rs:599-621 | the new parser's fields are the default state and satisfy the invariant |
| States.AddDependent | smt-log-parser/src/parsers/z3/z3parser.rs:60-62 | every term's dependents list gains the new index once per occurrence among the children, and nothing else changes |
| Parser.Z3Parser.AddDependents | smt-log-parser/src/parsers/z3/z3parser.rs:60-62 | the child loop leaves exactly `AddDependent` of the old terms |
| States.NewTerm | smt-log-parser/src/parsers/z3/z3parser.rs:58-66 | the new index is the next free one, the term is stored there and the id is registered to it |
| States.NewTermDefines | smt-log-parser/src/parsers/z3/z3parser.rs:58-66 | the id resolves to the new term; old terms change only in their dependents list, non-children not at all; each child's last dependent is the new term |
| Parser.Z3Parser.NewTerm | smt-log-parser/src/parsers/z3/z3parser.rs:58-66 | the method's new state and index are those of `States.NewTerm` |
| States.DiscoveredQuantGetOrInsert | smt-log-parser/src/parsers/z3/z3parser.rs:68-79 | an unseen discovery id gets a fresh `Other(method)` quantifier with no variables, term or instances; a seen one changes nothing; a second call returns the same index |
| States.DiscoveredQuantValid | smt-log-parser/src/parsers/z3/z3parser.rs:68-79 | `discovered_quant` keeps the invariant |
| Parser.Z3Parser.DiscoveredQuant | smt-log-parser/src/parsers/z3/z3parser.rs:68-79 | the method's index and state are those of `States.DiscoveredQuant` |
| Lines.Resolve | smt-log-parser/src/parsers/z3/z3parser.rs:82-84 | `parse_existing_id` succeeds iff the id parses and is registered; a parsed but unregistered id is a panic (the `unwrap`) |
| Lines.ResolveIn | smt-log-parser/src/parsers/z3/z3parser.rs:82-84 | a resolved index is within the term arena |
| Lines.ResolveRegistered | smt-log-parser/src/parsers/z3/z3parser.rs:82-84 | an id printed as `ns#n` resolves to the index last registered for it |
| Lines.ResolveAll | smt-log-parser/src/parsers/z3/z3parser.rs:86-88 | `gobble_children` succeeds iff every id resolves, and then yields them in order |
| Lines.ResolveAllFirstFailure | smt-log-parser/src/parsers/z3/z3parser.rs:86-88 | a failed `gobble_children` fails as its first unresolvable id does (the collect stops there) |
| Lines.ResolveAllIn | smt-log-parser/src/parsers/z3/z3parser.rs:86-88 | every gobbled child index is within the term arena |
| Tokens.GobbleVarNamesList | smt-log-parser/src/parsers/z3/z3parser.rs:90-112 | a parsed list is non-empty and has one name or type per tuple |
| Tokens.VarNamesRoundTrip | smt-log-parser/src/parsers/z3/z3parser.rs:90-112 | printing a variable list in any one tuple form and parsing it back gives the list |
| Tokens.VarNamesMixedFormsRejected | smt-log-parser/src/parsers/z3/z3parser.rs:90-112 | a list that switches tuple form is rejected |
| Tokens.TypesOfStopsAtNone | smt-log-parser/src/parsers/z3/z3parser.rs:96-101 | one malformed tuple rejects a type-only list |
| Tokens.NamesOfStopsAtNone | smt-log-parser/src/parsers/z3/z3parser.rs:108-110 | one malformed tuple rejects a name-and-type list |
| Tokens.Gobble | smt-log-parser/src/parsers/z3/z3parser.rs:123-153 | one gobble consumes between one token and the rest, and never changes a form already settled |
| Tokens.Tuples | smt-log-parser/src/parsers/z3/z3parser.rs:121-157 | the tuple iterator yields at most one item per token |
| Tokens.GobbleTuples | smt-log-parser/src/parsers/z3/z3parser.rs:121-157 | the loop over the gobble closure and its `spaces` cell yields exactly `Tuples` |
| Tokens.GobbleRendered | smt-log-parser/src/parsers/z3/z3parser.rs:123-153 | one gobble reads a printed tuple of any of the three forms back and settles that form |
| Tokens.GobbleOtherForm | smt-log-parser/src/parsers/z3/z3parser.rs:127-150 | with `FORMS_EQUAL`, a tuple in a form other than the settled one yields `None` |
| Tokens.TuplesRendered | smt-log-parser/src/parsers/z3/z3parser.rs:121-157 | printed tuples of one form are read back one by one, whatever follows them |
| Tokens.GobbleTuplesRoundTrip | smt-log-parser/src/parsers/z3/z3parser.rs:113-157 | printing tuples in one form and gobbling them gives them back |
| Tokens.MixedFormsRejected | smt-log-parser/src/parsers/z3/z3parser.rs:118-157 | with `FORMS_EQUAL`, the first tuple of a different form yields `None` after the good ones |
| Lines.Collect | smt-log-parser/src/parsers/z3/z3parser.rs:160-165 | `collect` into an `Option<Vec<_>>` succeeds exactly when every item is present, keeping their values in order; otherwise the first missing item decides how it fails |
| Lines.ResolvePairs | smt-log-parser/src/parsers/z3/z3parser.rs:160-165 | succeeds exactly when every tuple was read and both its ids are registered; then pair k holds the indices of tuple k's ids, in order |
| Lines.ResolvePair | smt-log-parser/src/parsers/z3/z3parser.rs:160-165 | one tuple: succeeds exactly when it was read and both ids are registered, yielding their indices |
| Lines.GobbleIdPairs | smt-log-parser/src/parsers/z3/z3parser.rs:159-166 | `gobble_id_pairs` succeeds exactly when every tuple `gobble_tuples::<true>` reads is well formed and names registered ids; then pair k holds the indices of tuple k |
| Lines.GobbleIdPairsMixedFormsRejected | smt-log-parser/src/parsers/z3/z3parser.rs:113-166 | argument pairs that switch tuple form part-way never parse, whatever follows |
| Tokens.TakeUntil | smt-log-parser/src/parsers/z3/z3parser.rs:167-172 | `iter_until_eq` splits at the first terminator, which it consumes; without one it takes everything |
| Tokens.UntilThenCompleted | smt-log-parser/src/parsers/z3/z3parser.rs:167-176 | the prefix is completed iff the terminator comes first, and then what remains is everything after it |
| Lines.ParseVersionLine | smt-log-parser/src/parsers/z3/z3parser.rs:180-185 | an accepted version line has exactly two tokens, a solver name and a semantic version; it never panics |
| States.VersionInfoValid | smt-log-parser/src/parsers/z3/z3parser.rs:180-192 | `version_info` keeps the invariant |
| Parser.Z3Parser.VersionInfo | smt-log-parser/src/parsers/z3/z3parser.rs:180-192 | the handler's result and new state are those of `States.VersionInfo` |
| Lines.ParseQuantLine | smt-log-parser/src/parsers/z3/z3parser.rs:194-199 | the id, name, variable count and resolved children come from the line's tokens; a line without children panics (the `assert!`) |
| States.MkQuantLinks | smt-log-parser/src/parsers/z3/z3parser.rs:194-222 | `mk_quant` adds one term and one quantifier pointing at each other, with no instances and no cost, and registers the id |
| States.MkQuantValid | smt-log-parser/src/parsers/z3/z3parser.rs:194-222 | `mk_quant` keeps the invariant |
| Parser.Z3Parser.MkQuant | smt-log-parser/src/parsers/z3/z3parser.rs:194-222 | the handler's result and new state are those of `States.MkQuant` |
| Lines.ParseVarLine | smt-log-parser/src/parsers/z3/z3parser.rs:224-228 | an accepted variable line has exactly two tokens, an id and a variable kind; it never panics |
| States.MkVarValid | smt-log-parser/src/parsers/z3/z3parser.rs:224-240 | `mk_var` keeps the invariant |
| Parser.Z3Parser.MkVar | smt-log-parser/src/parsers/z3/z3parser.rs:224-240 | the handler's result and new state are those of `States.MkVar` |
| Lines.ParseAppLine | smt-log-parser/src/parsers/z3/z3parser.rs:242-246 | the id, kind and resolved children come from the line's tokens |
| States.MkProofAppValid | smt-log-parser/src/parsers/z3/z3parser.rs:242-258 | `mk_proof_app` keeps the invariant |
| Parser.Z3Parser.MkProofApp | smt-log-parser/src/parsers/z3/z3parser.rs:242-258 | the handler's result and new state are those of `States.MkProofApp` |
| Lines.ParseMeaningLine | smt-log-parser/src/parsers/z3/z3parser.rs:260-268 | the meaning is the theory token and the remaining tokens joined by spaces |
| States.AttachMeaningEffect | smt-log-parser/src/parsers/z3/z3parser.rs:260-275 | a first meaning is stored on its term and nothing else changes; an equal repeat changes nothing; a different one panics and changes nothing |
| States.AttachMeaningIdempotent | smt-log-parser/src/parsers/z3/z3parser.rs:260-275 | the same meaning line twice has the effect of once |
| States.AttachMeaningValid | smt-log-parser/src/parsers/z3/z3parser.rs:260-275 | `attach_meaning` keeps the invariant |
| Parser.Z3Parser.AttachMeaning | smt-log-parser/src/parsers/z3/z3parser.rs:260-275 | the handler's result and new state are those of `States.AttachMeaning` |
| Lines.ParseVarNamesLine | smt-log-parser/src/parsers/z3/z3parser.rs:277-280 | the term and the variable list come from the line; a malformed list rejects the line |
| States.AttachVarNamesEffect | smt-log-parser/src/parsers/z3/z3parser.rs:277-285 | names go to the quantifier of their term and nothing else changes; a term that is not a quantifier, or a quantifier that already has names, panics and changes nothing |
| States.AttachVarNamesOnce | smt-log-parser/src/parsers/z3/z3parser.rs:277-285 | after names are attached, a further names line for the same term panics |
| States.AttachVarNamesValid | smt-log-parser/src/parsers/z3/z3parser.rs:277-285 | `attach_var_names` keeps the invariant |
| Parser.Z3Parser.AttachVarNames | smt-log-parser/src/parsers/z3/z3parser.rs:277-285 | the handler's result and new state are those of `States.AttachVarNames` |
| Lines.ParseEnodeLine | smt-log-parser/src/parsers/z3/z3parser.rs:287-292 | an accepted enode line has exactly two tokens, a registered id and a number |
| States.AttachEnodeEffect | smt-log-parser/src/parsers/z3/z3parser.rs:287-299 | with an empty stack nothing changes; otherwise the term's producer is the top instantiation, which gains the term as its last yielded term; the term's other fields, every other term and instantiation, and every other field of the state are unchanged |
| States.AttachEnodeValid | smt-log-parser/src/parsers/z3/z3parser.rs:287-299 | `attach_enode` keeps the invariant |
| Parser.Z3Parser.SetProducer | smt-log-parser/src/parsers/z3/z3parser.rs:294-297 | the two in-place updates are those of `States.Produce` |
| Parser.Z3Parser.AttachEnode | smt-log-parser/src/parsers/z3/z3parser.rs:287-299 | the handler's result and new state are those of `States.AttachEnode` |
| Lines.ExplanationInfo | smt-log-parser/src/parsers/z3/z3parser.rs:306-342 | a non-root explanation starts at the term itself; `lit` succeeds iff there is exactly one registered id (the equality), `cg` iff `gobble_id_pairs` succeeds (its pairs), `th` iff there is exactly one token (the theory), `ax` iff there is none, and any other kind is kept as unknown with its tokens |
| Lines.ParseExplanation | smt-log-parser/src/parsers/z3/z3parser.rs:304-343 | `root` is accepted only without further tokens; any other kind is followed by `;` and exactly one registered target id |
| Lines.ExplanationRejectsTrailing | smt-log-parser/src/parsers/z3/z3parser.rs:344-345 | a token after a complete explanation rejects the line |
| Lines.ParseEqExplLine | smt-log-parser/src/parsers/z3/z3parser.rs:301-345 | the term and explanation come from the line, and a literal names a registered equality |
| States.EqExplRecords | smt-log-parser/src/parsers/z3/z3parser.rs:346-350 | after `eq_expl` the explanation is recorded on the term: appended if new, state unchanged if already there; when appended, only that term's explanation list changes |
| States.EqExplIdempotent | smt-log-parser/src/parsers/z3/z3parser.rs:346-350 | the same `eq_expl` line twice has the effect of once |
| States.DistinctAppend | smt-log-parser/src/parsers/z3/z3parser.rs:346-350 | appending an explanation not yet listed keeps the list free of repeats |
| States.EqExplValid | smt-log-parser/src/parsers/z3/z3parser.rs:301-352 | `eq_expl` keeps the invariant |
| Parser.Z3Parser.EqExpl | smt-log-parser/src/parsers/z3/z3parser.rs:301-352 | the handler's result and new state are those of `States.EqExpl` |
| Lines.AddDependency | smt-log-parser/src/parsers/z3/z3parser.rs:647-670 | a dependency exists iff the term has a producing instantiation, and then it is open, starts at the producer's line, blames the term and carries the producer's quantifier and discovered flag |
| Lines.LiteralLinks | smt-log-parser/src/parsers/z3/z3parser.rs:375-393 | at most one dependency per recorded explanation |
| Lines.LiteralLinksShape | smt-log-parser/src/parsers/z3/z3parser.rs:375-393 | every dependency the literal explanations yield is open and taken from its producer |
| Lines.BlameStep | smt-log-parser/src/parsers/z3/z3parser.rs:368-407 | one iteration consumes one word or a `(#A #B)` pair and blames exactly one item |
| Lines.BlameShape | smt-log-parser/src/parsers/z3/z3parser.rs:368-408 | the loop blames at most one item per word, exactly one per word for `[inst-discovered]` when it succeeds |
| Lines.BlameLinks | smt-log-parser/src/parsers/z3/z3parser.rs:368-408 | every dependency the blame loop pushes is open and taken from its producer |
| Lines.BlameAfter | smt-log-parser/src/parsers/z3/z3parser.rs:368-408 | a failing iteration ends the loop keeping what earlier iterations pushed; a successful one extends it |
| Lines.BlankDependency | smt-log-parser/src/parsers/z3/z3parser.rs:625-640 | the blank dependency starts at the match line, is open, blames nothing and has no cause |
| Lines.MatchBucketNonEmpty | smt-log-parser/src/parsers/z3/z3parser.rs:463-469 | after a match the bucket is non-empty, holds a blank dependency iff nothing was blamed, and is then just that one |
| States.MatchBucketOpen | smt-log-parser/src/parsers/z3/z3parser.rs:625-640 | every dependency a match leaves in its bucket is open and starts at a real line |
| Parser.Z3Parser.AddBlankDependencyIfNeeded | smt-log-parser/src/parsers/z3/z3parser.rs:625-640 | the bucket of the match line gains the blank dependency at its end |
| Parser.Z3Parser.PushDependency | smt-log-parser/src/parsers/z3/z3parser.rs:385-386 | the bucket gains the dependency at its end |
| Parser.Z3Parser.PushLiteralLinks | smt-log-parser/src/parsers/z3/z3parser.rs:375-393 | the loop over the term's explanations pushes exactly `LiteralLinks`, in order |
| Parser.Z3Parser.BlamePair | smt-log-parser/src/parsers/z3/z3parser.rs:369-396 | a pair of equal terms blames the pair only; different terms also push their literal links and record an equality explanation |
| Parser.Z3Parser.BlameIteration | smt-log-parser/src/parsers/z3/z3parser.rs:368-407 | one iteration is `BlameStep`, and its pushed dependencies are appended to the bucket |
| Parser.Z3Parser.BlameLoop | smt-log-parser/src/parsers/z3/z3parser.rs:365-408 | the loop computes `Blame`, and the bucket grows by exactly its dependencies |
| States.ParseMatchHead | smt-log-parser/src/parsers/z3/z3parser.rs:354-361 | a parsed head holds the fingerprint of `l[0]`, the quantifier declared by the quantifier term `l[1]`, the pattern `l[2]`, the bound terms resolved from the ids before the first `;`, and the words after it; both indices are in range |
| States.MatchHeadNonQuantPanics | smt-log-parser/src/parsers/z3/z3parser.rs:355-357 | a registered `l[1]` that is not a quantifier term panics (`quant_idx().unwrap()`) and `new_match` changes nothing |
| States.PendingMatch | smt-log-parser/src/parsers/z3/z3parser.rs:470-485 | a pending match has no line, no result, cost one, and remembers its match line |
| States.CommitMatch | smt-log-parser/src/parsers/z3/z3parser.rs:463-487 | a match is committed with the blame loop's outcome |
| Parser.Z3Parser.CommitMatch | smt-log-parser/src/parsers/z3/z3parser.rs:463-487 | the method's result and new state are those of `States.CommitMatch` |
| States.CommitMatchValid | smt-log-parser/src/parsers/z3/z3parser.rs:463-487 | committing an open bucket and a match of an existing quantifier keeps the invariant |
| States.CommitOverwrites | smt-log-parser/src/parsers/z3/z3parser.rs:363-363 | whatever was in the bucket before the match line is replaced |
| States.NewMatchRejects | smt-log-parser/src/parsers/z3/z3parser.rs:354-361 | a bad head rejects the line before anything changes |
| States.NewMatchCommits | smt-log-parser/src/parsers/z3/z3parser.rs:354-488 | a good head runs the blame loop on the words after `;` and commits a non-discovered match with its pattern |
| States.NewMatchBucket | smt-log-parser/src/parsers/z3/z3parser.rs:363-486 | an accepted `[new-match]` leaves a non-empty bucket at `line_no + 1` and a pending, non-discovered match there |
| States.NewMatchValid | smt-log-parser/src/parsers/z3/z3parser.rs:354-488 | `new_match` keeps the invariant |
| Parser.Z3Parser.NewMatch | smt-log-parser/src/parsers/z3/z3parser.rs:354-488 | the handler's result and new state are those of `States.NewMatch` |
| States.CommitDiscoveredBucket | smt-log-parser/src/parsers/z3/z3parser.rs:526-550 | a committed discovered match has a non-empty bucket, is marked discovered and has no pattern |
| States.InstDiscoveredBucket | smt-log-parser/src/parsers/z3/z3parser.rs:490-552 | an accepted `[inst-discovered]` leaves a non-empty bucket at `line_no + 1` and a discovered match without pattern |
| States.TheorySolvingMatchValid | smt-log-parser/src/parsers/z3/z3parser.rs:496-517 | the theory-solving branch keeps the invariant |
| States.MbqiMatchValid | smt-log-parser/src/parsers/z3/z3parser.rs:518-523 | the MBQI branch keeps the invariant |
| States.DiscoveredMatchValid | smt-log-parser/src/parsers/z3/z3parser.rs:495-525 | either discovery branch keeps the invariant |
| States.CommitDiscoveredValid | smt-log-parser/src/parsers/z3/z3parser.rs:526-550 | committing a discovered match keeps the invariant |
| States.InstDiscoveredValid | smt-log-parser/src/parsers/z3/z3parser.rs:490-552 | `inst_discovered` keeps the invariant |
| Parser.Z3Parser.TheorySolvingMatch | smt-log-parser/src/parsers/z3/z3parser.rs:496-517 | the method's result and new state are those of `States.TheorySolvingMatch` |
| Parser.Z3Parser.MbqiMatch | smt-log-parser/src/parsers/z3/z3parser.rs:518-523 | the method's result and new state are those of `States.MbqiMatch` |
| Parser.Z3Parser.InstDiscovered | smt-log-parser/src/parsers/z3/z3parser.rs:490-552 | the handler's result and new state are those of `States.InstDiscovered` |
| Lines.ParseInstanceTail | smt-log-parser/src/parsers/z3/z3parser.rs:565-577 | panics iff the first token is an unregistered id; otherwise, after skipping a first token that resolves, succeeds iff nothing is left or `;` and a number follow, yielding the resolved term (if any) and that number (if any) |
| States.InstanceEffect | smt-log-parser/src/parsers/z3/z3parser.rs:554-585 | the pending match becomes the next instantiation with line `line_no + 1`, the line's resulting term, and the line's generation (else the match's), is pushed on the stack and on its quantifier's instances, and adds one to the cost; other quantifiers, earlier instantiations and every other field of the state are unchanged |
| States.InstanceUnknownFingerprint | smt-log-parser/src/parsers/z3/z3parser.rs:557-561 | an instance of a fingerprint that was never matched panics (the `expect`) |
| States.InstanceValid | smt-log-parser/src/parsers/z3/z3parser.rs:554-585 | `instance` keeps the invariant |
| Parser.Z3Parser.PromoteMatch | smt-log-parser/src/parsers/z3/z3parser.rs:578-583 | the three in-place updates are those of `States.Promote` |
| Parser.Z3Parser.Instance | smt-log-parser/src/parsers/z3/z3parser.rs:554-585 | the handler's result and new state are those of `States.Instance` |
| States.Close | smt-log-parser/src/parsers/z3/z3parser.rs:591-594 | every dependency of the bucket gets the instantiation's line and quantifier and keeps every other field |
| States.EndOfInstanceEffect | smt-log-parser/src/parsers/z3/z3parser.rs:587-596 | the top instantiation is popped and its bucket is closed, moved to the end of the dependencies and left empty; earlier dependencies, the other buckets and every other field of the state are unchanged |
| States.EndOfInstanceValid | smt-log-parser/src/parsers/z3/z3parser.rs:587-596 | `end_of_instance` keeps the invariant, so finished dependencies are always closed |
| Parser.Z3Parser.EndOfInstance | smt-log-parser/src/parsers/z3/z3parser.rs:587-596 | the handler's new state is that of `States.EndOfInstance` |
| Results.AddLine | smt-log-parser/src/parsers/z3/results.rs:21-25 | a fresh line becomes a new node at the end, a known one is skipped, and the line ↔ node maps stay inverse |
| Results.DrawLink | smt-log-parser/src/parsers/z3/results.rs:20-35 | a drawn dependency adds its two lines as nodes and one edge between them |
| Results.DrawDependency | smt-log-parser/src/parsers/z3/results.rs:19-37 | one loop iteration adds the lines of a drawn dependency and, when `from > 0`, its edge; a discovered or open one adds nothing |
| Results.InstantiationGraph | smt-log-parser/src/parsers/z3/results.rs:10-40 | the nodes are the drawn lines in order of first appearance; edge k joins the nodes of the k-th drawn dependency with `from > 0`; the returned map sends each node to its line |
| Results.DedupOne | smt-log-parser/src/parsers/z3/results.rs:15-25 | `fresh_line_nr` adds a line exactly when it is not a node yet |
| Results.DedupDistinct | smt-log-parser/src/parsers/z3/results.rs:15-31 | no line becomes two nodes |
| Results.DedupElements | smt-log-parser/src/parsers/z3/results.rs:15-31 | de-duplication keeps every line and invents none |
| Results.GraphNodes | smt-log-parser/src/parsers/z3/results.rs:18-38 | the nodes are distinct, and a line is a node iff some drawn dependency ends there or starts there with `from > 0` |
| Results.UndrawnNoNode | smt-log-parser/src/parsers/z3/results.rs:12-20 | a discovered or open dependency contributes no node |
| Results.UndrawnNoEdge | smt-log-parser/src/parsers/z3/results.rs:12-20 | a discovered or open dependency contributes no edge |
| Results.ClosedAllLinked | smt-log-parser/src/parsers/z3/results.rs:26-26 | for closed dependencies, which the parser's invariant guarantees, the `from > 0` guard never fails |
| SvgResult.DefaultPermission | axiom-profiler-GUI/src/results/svg_result.rs:45-49 | the default is no permission |
| SvgResult.PermissionFrom | axiom-profiler-GUI/src/results/svg_result.rs:51-55 | the permission is the given flag |
| SvgResult.RenderGraph | axiom-profiler-GUI/src/results/svg_result.rs:145-222 | the graph is rendered iff it is safe to render or permission was given, else permission is asked for |
| SvgResult.AskOnlyWhenLarge | axiom-profiler-GUI/src/results/svg_result.rs:150-151 | permission is asked for iff there are more than 500 edges and more than 125 nodes, neither count fell, and no permission was given; with permission it always renders |
| SvgResult.FirstFivePrimes | axiom-profiler-GUI/src/results/svg_result.rs:393-395 | the five primes skipped are 2, 3, 5, 7 and 11, so the search starts at 13 |
| SvgResult.MinDivisorPrime | axiom-profiler-GUI/src/results/svg_result.rs:400-401 | the least divisor above one of a number is prime |
| SvgResult.PrimeAbove | axiom-profiler-GUI/src/results/svg_result.rs:400-401 | above every number there is a prime, so the search ends |
| SvgResult.SearchCoprime | axiom-profiler-GUI/src/results/svg_result.rs:393-402 | the search returns the first prime from its start on that does not divide the number |
| SvgResult.FindCoprime | axiom-profiler-GUI/src/results/svg_result.rs:385-406 | 1 for no quantifiers; otherwise the least prime from 13 on that does not divide the count |
| SvgResult.ColourMapFrom | axiom-profiler-GUI/src/results/svg_result.rs:364-372 | shift 0, a non-zero coprime, and a prime not dividing the count when there are quantifiers |
| SvgResult.HuePosition | axiom-profiler-GUI/src/results/svg_result.rs:374-377 | the permuted index of a quantifier is below the count |
| SvgResult.FirstQuantHueZero | axiom-profiler-GUI/src/results/svg_result.rs:368-370 | quantifier 0 always has hue position 0 |
| SvgResult.CoprimeGcd | axiom-profiler-GUI/src/results/svg_result.rs:398-401 | a prime that does not divide the count is coprime to it |
| SvgResult.HuePositionInjective | axiom-profiler-GUI/src/results/svg_result.rs:377-377 | with a coprime multiplier, distinct quantifiers get distinct hue positions |
| SvgResult.ColourMapPermutes | axiom-profiler-GUI/src/results/svg_result.rs:364-383 | the colour map built for a count gives every quantifier its own hue position |
| GraphStates.Default | axiom-profiler-GUI/src/graph_state.rs:19-28 | nothing parsed, no picture, no nodes, and both the line limit and the input at `i32::MAX` |
| GraphStates.Reduce | axiom-profiler-GUI/src/graph_state.rs:31-58 | a parse result replaces the three parse fields, each other action its own field, and every other field is kept |
| GraphStates.ReduceIdempotentCommutes | axiom-profiler-GUI/src/graph_state.rs:34-57 | each action is idempotent, actions of different kinds commute, and of two actions of one kind the later wins |
| GraphStates.ReduceAllLastWins | axiom-profiler-GUI/src/graph_state.rs:34-57 | after any run of actions the line limit and the input are those the last action of their kind set |

## Left out

- The GUI is not part of this model: the yew components, graphviz rendering, filters, the web worker and logging. Only
  the decision of `safe_to_render` and the permission flag are modelled.
- `main.rs` file reading and the driver that dispatches log lines to the handlers are not part of this model. Line
  numbers are given to the handlers as parameters.
- The `println!` of `version_info` is left out: it is output only.
- The `items` module is not part of this model. `TermIdCow::parse`, `Fingerprint::parse`, `QuantKind::parse`,
  `TermKind::parse_var`, `TermKind::parse_proof_app`, `semver::Version::parse` and `usize` parsing have simple
  stand-in definitions in `Items`. Their exact grammars are not modelled. `TermKind::quant_idx` (`Items.QuantIdxOf`)
  and `EqualityExpl::from_to` (`Items.FromTo`) are stand-ins too: they are written from how the parser uses them,
  not from their own source.
- The `Z3Parser` fields `line_nr_of_node`, `node_of_line_nr` and `qi_graph` are not in `ParserState`. No modelled
  handler touches them; `get_instantiation_graph` builds its graph and maps locally.
- The petgraph `Graph` is modelled as a node sequence and an edge sequence, with node indices as positions.
- Floating point is left out. A quantifier's and an instantiation's `cost` count in whole units, which is what
  `+= 1.0` and `1.0` amount to.
- The `HSVColour` of `get` (hue as a fraction, saturation, value) is left out; the integer position `idx_perm` is
  modelled.
- The `primal` prime iterator is replaced by a search over the numbers that `IsPrime` accepts. It yields the same primes in the
  same order.
- SvgResult.HuePosition: does not model the `usize` wrap-around of `idx * coprime + shift`. For counts whose product
  stays below 2^64 the results agree.
- Parser.Z3Parser.EndOfInstance: an empty instantiation stack is a precondition rather than a modelled panic. The
  `pop().unwrap()` has no line content to depend on.
- Parser.Z3Parser.Instance: the `assert!(inst.resulting_term.is_none())` is not modelled as a branch. The invariant
  keeps every pending match without a resulting term, so it cannot fire.
- Parser.Z3Parser.MkQuant: the `debug_assert_eq!` of the two quantifier indices is not a branch. The indices are
  equal by construction.


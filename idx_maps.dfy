/** `IdxMap`: the parser's resolver from textual term ids to arena indices,
    and its cache of the quantifiers the solver synthesised. */
module IdxMaps {
  import opened Items

  /** Looking an id up in a resolver map. */
  function Lookup(m: map<TermId, TermIdx>, id: TermId): (r: Option<TermIdx>)
    ensures r.Some? <==> id in m
    ensures r.Some? ==> r.value == m[id]
  {
    if id in m then Some(m[id]) else None
  }

  /** Registering binds the id to the new index, replacing any earlier
      binding, and leaves every other id's binding as it was. */
  lemma RegisterThenLookup(m: map<TermId, TermIdx>, id: TermId, idx: TermIdx, other: TermId)
    ensures Lookup(m[id := idx], id) == Some(idx)
    ensures other != id ==> Lookup(m[id := idx], other) == Lookup(m, other)
    ensures Lookup(m[id := idx][id := idx], other) == Lookup(m[id := idx], other)
  {
  }

  class IdxMap {
    var termMap: map<TermId, TermIdx>
    var discoveredMap: map<DiscoveredId, QuantIdx>

    /** `IdxMap::default`. */
    constructor ()
      ensures termMap == map[] && discoveredMap == map[]
    {
      termMap := map[];
      discoveredMap := map[];
    }

    /** `register_term`: a clash on `id` overwrites the earlier term, so
        later uses of `id` mean the newest one. */
    method RegisterTerm(id: TermId, idx: TermIdx)
      modifies this
      ensures termMap == old(termMap)[id := idx]
      ensures discoveredMap == old(discoveredMap)
    {
      termMap := termMap[id := idx];
    }

    /** `get_term`. */
    function GetTerm(id: TermId): (r: Option<TermIdx>)
      reads this
      ensures r == Lookup(termMap, id)
    {
      if id in termMap then Some(termMap[id]) else None
    }

    /** `discovered_quant` (`entry(id).or_insert_with(default)`): the index
        cached under `id`, or `next` — the index the default closure
        allocates — which is then cached. */
    method DiscoveredQuant(id: DiscoveredId, next: QuantIdx) returns (q: QuantIdx, inserted: bool)
      modifies this
      ensures inserted <==> id !in old(discoveredMap)
      ensures inserted ==> q == next && discoveredMap == old(discoveredMap)[id := next]
      ensures !inserted ==> q == old(discoveredMap)[id] && discoveredMap == old(discoveredMap)
      ensures termMap == old(termMap)
    {
      if id in discoveredMap {
        q, inserted := discoveredMap[id], false;
      } else {
        discoveredMap := discoveredMap[id := next];
        q, inserted := next, true;
      }
    }
  }
}

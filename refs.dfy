/** References between definitions (doxyfront/model.py:273-298). A resolved reference names
    its target by its index in the list of loaded definitions. */
module Refs {
  import opened Wrappers

  datatype Ref =
    | Symbolic(id: string, name: Option<string>)  // as imported, not yet looked up
    | Unresolved(name: Option<string>)            // the lookup failed; only a display name is left
    | Resolved(target: nat)                       // the definition at `target`

  /** `Ref.resolve` and its override `SymbolicRef.resolve`. The warning printed for a failed
      lookup is not modelled. */
  function Resolve(r: Ref, ids: map<string, nat>): (r': Ref)
    ensures r.Symbolic? && r.id in ids ==> r' == Resolved(ids[r.id])
    ensures r.Symbolic? && r.id !in ids ==> r' == Unresolved(r.name)
    ensures !r.Symbolic? ==> r' == r
  {
    match r
    case Symbolic(id, name) => if id in ids then Resolved(ids[id]) else Unresolved(name)
    case _ => r
  }

  /** Resolution is terminal: its result is never symbolic, and resolving it again changes nothing. */
  lemma ResolveTerminal(r: Ref, ids: map<string, nat>, ids': map<string, nat>)
    ensures !Resolve(r, ids).Symbolic?
    ensures Resolve(Resolve(r, ids), ids') == Resolve(r, ids)
  {
  }

  /** Resolving a whole list, element by element, keeping length and order. */
  function ResolveAll(rs: seq<Ref>, ids: map<string, nat>): (out: seq<Ref>)
    ensures |out| == |rs|
    ensures forall i :: 0 <= i < |rs| ==> out[i] == Resolve(rs[i], ids)
  {
    seq(|rs|, i requires 0 <= i < |rs| => Resolve(rs[i], ids))
  }

  predicate NoSymbolic(rs: seq<Ref>)
  {
    forall i :: 0 <= i < |rs| ==> !rs[i].Symbolic?
  }

  /** After resolving a list no element is symbolic, and resolving again (with any map) is a no-op. */
  lemma ResolveAllTerminal(rs: seq<Ref>, ids: map<string, nat>, ids': map<string, nat>)
    ensures NoSymbolic(ResolveAll(rs, ids))
    ensures ResolveAll(ResolveAll(rs, ids), ids') == ResolveAll(rs, ids)
  {
  }

  function ResolveOpt(r: Option<Ref>, ids: map<string, nat>): Option<Ref>
  {
    if r.Some? then Some(Resolve(r.value, ids)) else None
  }

  predicate OptTerminal(r: Option<Ref>)
  {
    r.None? || !r.value.Symbolic?
  }
}

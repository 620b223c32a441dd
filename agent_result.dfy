/**
 * The immutable outcome of a detection: whether an agent was detected and
 * its optional name (defaulting to null), with the derived `knownAgent()`
 * view that classifies the name through the enumeration.
 */
module AgentResults {
  import opened Wrappers
  import opened KnownAgents

  datatype AgentResult = AgentResult(isAgent: bool, name: Option<string> := None)

  /** The invariant every detection outcome keeps: a name is present exactly when an agent was detected. */
  predicate WellFormed(r: AgentResult) {
    r.isAgent <==> r.name.Some?
  }

  /** AgentResult::knownAgent(): null for a null name, otherwise the case backed by exactly that name, if any. */
  function KnownAgentOf(r: AgentResult): (k: Option<KnownAgent>)
    ensures r.name.None? ==> k.None?
    ensures k.Some? ==> r.name == Some(Value(k.value))
    ensures r.name.Some? ==> (k.Some? <==> exists a :: Value(a) == r.name.value)
  {
    if r.name.None? then None else TryFrom(r.name.value)
  }

  /** A name that is the backing string of a case classifies as that case, whatever isAgent says. */
  lemma KnownAgentOfValue(isAgent: bool, k: KnownAgent)
    ensures KnownAgentOf(AgentResult(isAgent, Some(Value(k)))) == Some(k)
  {
    TryFromValue(k);
  }

  /** A name outside the nine backing strings classifies as nothing, even for a detected agent. */
  lemma KnownAgentOfCustom(r: AgentResult)
    requires r.name.Some? && forall a :: Value(a) != r.name.value
    ensures KnownAgentOf(r) == None
  {
  }

  /** The name defaults to null, and a result built that way is well formed only when no agent was detected. */
  lemma DefaultNameIsNull(isAgent: bool)
    ensures AgentResult(isAgent).name == None
    ensures WellFormed(AgentResult(isAgent)) <==> !isAgent
  {
  }
}

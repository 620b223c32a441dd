/**
 * AgentDetector::detect: an ordered, first-match-wins chain of checks over
 * the process environment and one file probe. The environment is a map from
 * variable name to value (a variable for which getenv returns false is a name
 * missing from the map), and `devinExists` is the answer of
 * file_exists('/opt/.devin'), which only matters when it is reached.
 */
module AgentDetector {
  import opened Wrappers
  import opened PhpTrim
  import opened KnownAgents
  import opened AgentResults

  type Env = map<string, string>

  /** The free-text override variable. */
  const OverrideVar: string := "AI_AGENT"

  /** The override fires when AI_AGENT is set and is not blank once trimmed. */
  predicate OverrideFires(env: Env) {
    OverrideVar in env && Trim(env[OverrideVar]) != ""
  }

  /** The nine variables whose mere presence identifies an agent, in priority order. */
  const PresenceVars: seq<string> := [
    "CURSOR_TRACE_ID", "CURSOR_AGENT", "GEMINI_CLI", "CODEX_SANDBOX", "AUGMENT_AGENT",
    "OPENCODE_CLIENT", "CLAUDECODE", "CLAUDE_CODE", "REPL_ID"
  ]

  /** Some environment check fires, so the file probe is never reached. */
  predicate EnvCheckFires(env: Env) {
    OverrideFires(env) || exists v :: v in PresenceVars && v in env
  }

  /** AgentDetector::detect, check by check in source order: the override first, then the built-in checks. */
  function Detect(env: Env, devinExists: bool): (r: AgentResult)
    ensures WellFormed(r)
    ensures OverrideFires(env) ==> r.name == Some(Trim(env[OverrideVar]))
    ensures !r.isAgent ==> !devinExists
  {
    if OverrideFires(env) then
      AgentResult(true, Some(Trim(env[OverrideVar])))
    else
      DetectBuiltin(env, devinExists)
  }

  /** The checks of detect after the override: nine presence-only variables, then the file probe. */
  function DetectBuiltin(env: Env, devinExists: bool): (r: AgentResult)
    ensures WellFormed(r)
    ensures !r.isAgent <==> !devinExists && forall v :: v in PresenceVars ==> v !in env
  {
    if "CURSOR_TRACE_ID" in env then
      AgentResult(true, Some("cursor"))
    else if "CURSOR_AGENT" in env then
      AgentResult(true, Some("cursor-cli"))
    else if "GEMINI_CLI" in env then
      AgentResult(true, Some("gemini"))
    else if "CODEX_SANDBOX" in env then
      AgentResult(true, Some("codex"))
    else if "AUGMENT_AGENT" in env then
      AgentResult(true, Some("augment-cli"))
    else if "OPENCODE_CLIENT" in env then
      AgentResult(true, Some("opencode"))
    else if "CLAUDECODE" in env || "CLAUDE_CODE" in env then
      AgentResult(true, Some("claude"))
    else if "REPL_ID" in env then
      AgentResult(true, Some("replit"))
    else if devinExists then
      AgentResult(true, Some("devin"))
    else
      AgentResult(false)
  }

  // ---------------------------------------------------------------------------
  // A table-driven reference for the same rule chain: each check either fires
  // with an outcome or passes to the next one, and the first outcome wins.
  // ---------------------------------------------------------------------------

  datatype Check =
    | Override(variable: string)                         // fires on a non-blank trimmed value
    | Presence(variables: seq<string>, agent: KnownAgent) // fires when any variable is set, whatever its value
    | DevinProbe                                         // fires when /opt/.devin exists

  /** The built-in checks of detect, in priority order. */
  const BuiltinChain: seq<Check> := [
    Presence(["CURSOR_TRACE_ID"], Cursor),
    Presence(["CURSOR_AGENT"], CursorCli),
    Presence(["GEMINI_CLI"], Gemini),
    Presence(["CODEX_SANDBOX"], Codex),
    Presence(["AUGMENT_AGENT"], AugmentCli),
    Presence(["OPENCODE_CLIENT"], Opencode),
    Presence(["CLAUDECODE", "CLAUDE_CODE"], Claude),
    Presence(["REPL_ID"], Replit),
    DevinProbe
  ]

  /** The variables the presence checks of a table look at, from check k on, in table order. */
  function PresenceVariables(checks: seq<Check>, k: nat := 0): seq<string>
    decreases |checks| - k
  {
    if k >= |checks| then []
    else (if checks[k].Presence? then checks[k].variables else []) + PresenceVariables(checks, k + 1)
  }

  /** PresenceVariables holds a variable exactly when some presence check of the table, from k on, looks at it. */
  lemma {:induction false} PresenceVariablesMembers(checks: seq<Check>, v: string, k: nat := 0)
    ensures v in PresenceVariables(checks, k) <==>
      exists j :: k <= j < |checks| && checks[j].Presence? && v in checks[j].variables
    decreases |checks| - k
  {
    if k < |checks| {
      PresenceVariablesMembers(checks, v, k + 1);
    }
  }

  /** PresenceVars lists exactly the variables of the built-in presence checks, in the same order. */
  lemma PresenceVarsMatchChain()
    ensures PresenceVariables(BuiltinChain) == PresenceVars
  {
  }

  /** All checks of detect, in priority order. */
  const Chain: seq<Check> := [Override(OverrideVar)] + BuiltinChain

  /** At least one of the variables is set, whatever its value. */
  predicate AnySet(vs: seq<string>, env: Env) {
    |vs| > 0 && (vs[0] in env || AnySet(vs[1..], env))
  }

  /** AnySet holds exactly when some listed variable is a key of env. */
  lemma {:induction false} AnySetIff(vs: seq<string>, env: Env)
    ensures AnySet(vs, env) <==> exists v :: v in vs && v in env
  {
    if |vs| > 0 {
      AnySetIff(vs[1..], env);
      assert forall v :: v in vs <==> v == vs[0] || v in vs[1..];
    }
  }

  /** What one check yields on its own: an agent result when it fires, None when it passes. */
  function Outcome(c: Check, env: Env, devinExists: bool): (o: Option<AgentResult>)
    ensures o.Some? ==> o.value.isAgent && WellFormed(o.value)
  {
    match c
    case Override(v) =>
      if v in env && Trim(env[v]) != "" then Some(AgentResult(true, Some(Trim(env[v])))) else None
    case Presence(vs, a) =>
      if AnySet(vs, env) then Some(AgentResult(true, Some(Value(a)))) else None
    case DevinProbe =>
      if devinExists then Some(AgentResult(true, Some(Value(Devin)))) else None
  }

  /** The outcome of the first check that fires, or "not an agent" when none does. */
  function FirstFiring(checks: seq<Check>, env: Env, devinExists: bool): (r: AgentResult)
    ensures WellFormed(r)
    ensures r.isAgent <==> exists i :: 0 <= i < |checks| && Outcome(checks[i], env, devinExists).Some?
  {
    if checks == [] then AgentResult(false)
    else match Outcome(checks[0], env, devinExists)
      case Some(o) => o
      case None =>
        var r := FirstFiring(checks[1..], env, devinExists);
        assert forall i :: 1 <= i < |checks| ==> checks[i] == checks[1..][i - 1];
        r
  }

  /** The first check that fires decides, whatever the later checks would say. */
  lemma {:induction false} FirstFiringPicksFirst(checks: seq<Check>, env: Env, devinExists: bool, i: nat)
    requires i < |checks| && Outcome(checks[i], env, devinExists).Some?
    requires forall j :: 0 <= j < i ==> Outcome(checks[j], env, devinExists).None?
    ensures FirstFiring(checks, env, devinExists) == Outcome(checks[i], env, devinExists).value
  {
    if i > 0 {
      assert Outcome(checks[0], env, devinExists).None?;
      FirstFiringPicksFirst(checks[1..], env, devinExists, i - 1);
    }
  }

  /** None of the first i checks fires, stated one check at a time. */
  predicate NoneBefore(checks: seq<Check>, env: Env, devinExists: bool, i: nat)
    requires i <= |checks|
  {
    i == 0 || (Outcome(checks[i - 1], env, devinExists).None? && NoneBefore(checks, env, devinExists, i - 1))
  }

  /** NoneBefore says that every check before i passes. */
  lemma {:induction false} NoneBeforeAll(checks: seq<Check>, env: Env, devinExists: bool, i: nat)
    requires i <= |checks| && NoneBefore(checks, env, devinExists, i)
    ensures forall j :: 0 <= j < i ==> Outcome(checks[j], env, devinExists).None?
  {
    if i > 0 {
      NoneBeforeAll(checks, env, devinExists, i - 1);
    }
  }

  /** FirstFiringPicksFirst, with the earlier checks listed one by one. */
  lemma FirstFiringPicksAt(checks: seq<Check>, env: Env, devinExists: bool, i: nat)
    requires i < |checks| && Outcome(checks[i], env, devinExists).Some?
    requires NoneBefore(checks, env, devinExists, i)
    ensures FirstFiring(checks, env, devinExists) == Outcome(checks[i], env, devinExists).value
  {
    NoneBeforeAll(checks, env, devinExists, i);
    FirstFiringPicksFirst(checks, env, devinExists, i);
  }

  /** The first four presence checks, in the terms detect uses. */
  lemma BuiltinOutcomesEarly(env: Env, devinExists: bool)
    ensures |BuiltinChain| == 9
    ensures Outcome(BuiltinChain[0], env, devinExists) ==
      if "CURSOR_TRACE_ID" in env then Some(AgentResult(true, Some("cursor"))) else None
    ensures Outcome(BuiltinChain[1], env, devinExists) ==
      if "CURSOR_AGENT" in env then Some(AgentResult(true, Some("cursor-cli"))) else None
    ensures Outcome(BuiltinChain[2], env, devinExists) ==
      if "GEMINI_CLI" in env then Some(AgentResult(true, Some("gemini"))) else None
    ensures Outcome(BuiltinChain[3], env, devinExists) ==
      if "CODEX_SANDBOX" in env then Some(AgentResult(true, Some("codex"))) else None
  {
    forall k | 0 <= k <= 3 ensures AnySet(BuiltinChain[k].variables, env) <==> BuiltinChain[k].variables[0] in env {
      AnySetIff(BuiltinChain[k].variables, env);
    }
  }

  /** The remaining presence checks and the file probe, in the terms detect uses. */
  lemma BuiltinOutcomesLate(env: Env, devinExists: bool)
    ensures |BuiltinChain| == 9
    ensures Outcome(BuiltinChain[4], env, devinExists) ==
      if "AUGMENT_AGENT" in env then Some(AgentResult(true, Some("augment-cli"))) else None
    ensures Outcome(BuiltinChain[5], env, devinExists) ==
      if "OPENCODE_CLIENT" in env then Some(AgentResult(true, Some("opencode"))) else None
    ensures Outcome(BuiltinChain[6], env, devinExists) ==
      if "CLAUDECODE" in env || "CLAUDE_CODE" in env then Some(AgentResult(true, Some("claude"))) else None
    ensures Outcome(BuiltinChain[7], env, devinExists) ==
      if "REPL_ID" in env then Some(AgentResult(true, Some("replit"))) else None
    ensures Outcome(BuiltinChain[8], env, devinExists) ==
      if devinExists then Some(AgentResult(true, Some("devin"))) else None
  {
    forall k | 4 <= k <= 7 ensures AnySet(BuiltinChain[k].variables, env) <==> exists v :: v in BuiltinChain[k].variables && v in env {
      AnySetIff(BuiltinChain[k].variables, env);
    }
  }

  /** When an agent is detected, the result comes from the first check that fires, found at index i. */
  lemma {:induction false} FirstFiringSource(checks: seq<Check>, env: Env, devinExists: bool) returns (i: nat)
    requires FirstFiring(checks, env, devinExists).isAgent
    ensures i < |checks| && Outcome(checks[i], env, devinExists) == Some(FirstFiring(checks, env, devinExists))
    ensures forall j :: 0 <= j < i ==> Outcome(checks[j], env, devinExists).None?
  {
    if Outcome(checks[0], env, devinExists).Some? {
      i := 0;
    } else {
      var k := FirstFiringSource(checks[1..], env, devinExists);
      i := k + 1;
      forall j | 0 <= j < i ensures Outcome(checks[j], env, devinExists).None? {
        if j > 0 { assert checks[j] == checks[1..][j - 1]; }
      }
    }
  }

  /** The built-in part of detect is the first-match-wins evaluation of BuiltinChain. */
  lemma BuiltinFollowsChain(env: Env, devinExists: bool)
    ensures DetectBuiltin(env, devinExists) == FirstFiring(BuiltinChain, env, devinExists)
  {
    BuiltinOutcomesEarly(env, devinExists);
    BuiltinOutcomesLate(env, devinExists);
    var c, d := BuiltinChain, devinExists;
    var e0 := "CURSOR_TRACE_ID" !in env;
    var e1 := e0 && "CURSOR_AGENT" !in env;
    var e2 := e1 && "GEMINI_CLI" !in env;
    var e3 := e2 && "CODEX_SANDBOX" !in env;
    var e4 := e3 && "AUGMENT_AGENT" !in env;
    var e5 := e4 && "OPENCODE_CLIENT" !in env;
    var e6 := e5 && "CLAUDECODE" !in env && "CLAUDE_CODE" !in env;
    var e7 := e6 && "REPL_ID" !in env;
    assert e0 ==> NoneBefore(c, env, d, 1);
    assert e1 ==> NoneBefore(c, env, d, 2);
    assert e2 ==> NoneBefore(c, env, d, 3);
    assert e3 ==> NoneBefore(c, env, d, 4);
    assert e4 ==> NoneBefore(c, env, d, 5);
    assert e5 ==> NoneBefore(c, env, d, 6);
    assert e6 ==> NoneBefore(c, env, d, 7);
    assert e7 ==> NoneBefore(c, env, d, 8);
    assert e7 && !d ==> NoneBefore(c, env, d, 9);
    if "CURSOR_TRACE_ID" in env { FirstFiringPicksAt(BuiltinChain, env, devinExists, 0); }
    else if "CURSOR_AGENT" in env { FirstFiringPicksAt(BuiltinChain, env, devinExists, 1); }
    else if "GEMINI_CLI" in env { FirstFiringPicksAt(BuiltinChain, env, devinExists, 2); }
    else if "CODEX_SANDBOX" in env { FirstFiringPicksAt(BuiltinChain, env, devinExists, 3); }
    else if "AUGMENT_AGENT" in env { FirstFiringPicksAt(BuiltinChain, env, devinExists, 4); }
    else if "OPENCODE_CLIENT" in env { FirstFiringPicksAt(BuiltinChain, env, devinExists, 5); }
    else if "CLAUDECODE" in env || "CLAUDE_CODE" in env { FirstFiringPicksAt(BuiltinChain, env, devinExists, 6); }
    else if "REPL_ID" in env { FirstFiringPicksAt(BuiltinChain, env, devinExists, 7); }
    else if devinExists { FirstFiringPicksAt(BuiltinChain, env, devinExists, 8); }
    else { NoneBeforeAll(BuiltinChain, env, devinExists, 9); }
  }

  /** detect is the first-match-wins evaluation of Chain. */
  lemma DetectFollowsChain(env: Env, devinExists: bool)
    ensures Detect(env, devinExists) == FirstFiring(Chain, env, devinExists)
  {
    assert Chain[0] == Override(OverrideVar);
    assert Chain[1..] == BuiltinChain;
    if !OverrideFires(env) {
      BuiltinFollowsChain(env, devinExists);
    }
  }

  // ---------------------------------------------------------------------------
  // Properties of detect
  // ---------------------------------------------------------------------------

  /** Priority is strict: the result is the outcome of the first check of Chain that fires. */
  lemma DetectPriority(env: Env, devinExists: bool, i: nat)
    requires i < |Chain| && Outcome(Chain[i], env, devinExists).Some?
    requires forall j :: 0 <= j < i ==> Outcome(Chain[j], env, devinExists).None?
    ensures Detect(env, devinExists) == Outcome(Chain[i], env, devinExists).value
  {
    DetectFollowsChain(env, devinExists);
    FirstFiringPicksFirst(Chain, env, devinExists, i);
  }

  /** An agent is detected exactly when at least one check of Chain fires. */
  lemma DetectIsAgentIffSomeCheckFires(env: Env, devinExists: bool)
    ensures Detect(env, devinExists).isAgent <==>
      exists i :: 0 <= i < |Chain| && Outcome(Chain[i], env, devinExists).Some?
  {
    DetectFollowsChain(env, devinExists);
  }

  /** A non-blank override wins over every other input, which then cannot change the result. */
  lemma OverrideWins(env: Env, devinExists: bool)
    requires OverrideFires(env)
    ensures Detect(env, devinExists) == AgentResult(true, Some(Trim(env[OverrideVar])))
    ensures Detect(env, devinExists) == Detect(map[OverrideVar := env[OverrideVar]], false)
  {
  }

  /** The override name is non-empty, keeps no strippable end and is the value with only strippable padding removed. */
  lemma OverrideNameShape(env: Env, devinExists: bool)
    requires OverrideFires(env)
    ensures Detect(env, devinExists).name.Some?
    ensures var n := Detect(env, devinExists).name.value;
      n != [] && NoTrimAtEnds(n) && IsTrimOf(env[OverrideVar], n)
  {
    TrimIsTrimOf(env[OverrideVar]);
  }

  /** An absent, empty or whitespace-only override is ignored: detection goes on as if it were unset. */
  lemma BlankOverrideIgnored(env: Env, devinExists: bool)
    requires OverrideVar in env ==> AllTrim(env[OverrideVar])
    ensures !OverrideFires(env)
    ensures Detect(env, devinExists) == Detect(env - {OverrideVar}, devinExists)
  {
  }

  /** Apart from the override, only which variables are set matters, never their values (an empty value still counts). */
  lemma PresenceIgnoresValues(env1: Env, env2: Env, devinExists: bool)
    requires env1.Keys == env2.Keys
    requires OverrideVar in env1 ==> env1[OverrideVar] == env2[OverrideVar]
    ensures Detect(env1, devinExists) == Detect(env2, devinExists)
  {
  }

  /** CLAUDECODE and CLAUDE_CODE share one slot: either one, with nothing earlier set, detects claude. */
  lemma ClaudeEitherVariable(env: Env, devinExists: bool, v: string)
    requires v == "CLAUDECODE" || v == "CLAUDE_CODE"
    requires v in env && !OverrideFires(env)
    requires forall w :: w in PresenceVars[..6] ==> w !in env
    ensures Detect(env, devinExists) == AgentResult(true, Some(Value(Claude)))
  {
    assert PresenceVars[..6] == ["CURSOR_TRACE_ID", "CURSOR_AGENT", "GEMINI_CLI", "CODEX_SANDBOX", "AUGMENT_AGENT", "OPENCODE_CLIENT"];
    assert PresenceVars[..6][0] == "CURSOR_TRACE_ID";
  }

  /** The file probe is the last resort: it decides only when no environment check fires. */
  lemma DevinProbeLast(env: Env)
    ensures !EnvCheckFires(env) ==> Detect(env, true) == AgentResult(true, Some(Value(Devin)))
    ensures !EnvCheckFires(env) ==> Detect(env, false) == AgentResult(false, None)
    ensures EnvCheckFires(env) ==> Detect(env, true) == Detect(env, false)
  {

  }

  /** A built-in check that fires names a known agent. */
  lemma BuiltinOutcomeKnown(c: Check, env: Env, devinExists: bool)
    requires !c.Override? && Outcome(c, env, devinExists).Some?
    ensures var r := Outcome(c, env, devinExists).value;
      KnownAgentOf(r).Some? && r.name == Some(Value(KnownAgentOf(r).value))
  {
    match c
    case Presence(_, a) => KnownAgentOfValue(true, a);
    case DevinProbe => KnownAgentOfValue(true, Devin);
  }

  /** When no override check fires, whatever the chain detects names a known agent. */
  lemma FirstFiringBuiltinIsKnown(checks: seq<Check>, env: Env, devinExists: bool)
    requires forall j :: 0 <= j < |checks| && checks[j].Override? ==> Outcome(checks[j], env, devinExists).None?
    requires FirstFiring(checks, env, devinExists).isAgent
    ensures var r := FirstFiring(checks, env, devinExists);
      KnownAgentOf(r).Some? && r.name == Some(Value(KnownAgentOf(r).value))
  {
    var i := FirstFiringSource(checks, env, devinExists);
    BuiltinOutcomeKnown(checks[i], env, devinExists);
  }

  /** Every name produced by a built-in check, the file probe included, is the backing string of a known agent. */
  lemma DetectedBuiltinIsKnown(env: Env, devinExists: bool)
    requires !OverrideFires(env) && Detect(env, devinExists).isAgent
    ensures KnownAgentOf(Detect(env, devinExists)).Some?
    ensures Detect(env, devinExists).name == Some(Value(KnownAgentOf(Detect(env, devinExists)).value))
  {
    assert Detect(env, devinExists) == DetectBuiltin(env, devinExists);
    BuiltinIsKnown(env, devinExists);
  }

  /** Every agent the built-in checks detect is a known agent, named by its backing string. */
  lemma BuiltinIsKnown(env: Env, devinExists: bool)
    requires DetectBuiltin(env, devinExists).isAgent
    ensures var r := DetectBuiltin(env, devinExists);
      KnownAgentOf(r).Some? && r.name == Some(Value(KnownAgentOf(r).value))
  {
    BuiltinFollowsChain(env, devinExists);
    BuiltinChainHasNoOverride();
    FirstFiringBuiltinIsKnown(BuiltinChain, env, devinExists);
  }

  /** The built-in part of the table holds no override check. */
  lemma BuiltinChainHasNoOverride()
    ensures forall j :: 0 <= j < |BuiltinChain| ==> !BuiltinChain[j].Override?
  {
  }

  /** A custom override name is reported as an agent that classifies as no known agent. */
  lemma CustomOverrideUnknown(env: Env, devinExists: bool)
    requires OverrideFires(env) && forall a :: Value(a) != Trim(env[OverrideVar])
    ensures Detect(env, devinExists).isAgent
    ensures KnownAgentOf(Detect(env, devinExists)) == None
  {
  }

  /** Override scenarios: padding is trimmed and the trimmed value wins over everything else. */
  lemma OverridePaddedExample(env: Env, devinExists: bool)
    requires OverrideVar in env && env[OverrideVar] == "  my-agent  "
    ensures Detect(env, devinExists) == AgentResult(true, Some("my-agent"))
  {
    TrimPaddedExample();
  }

  /** Override scenarios: interior punctuation and spaces are kept verbatim. */
  lemma OverrideInteriorExample(env: Env, devinExists: bool)
    requires OverrideVar in env && env[OverrideVar] == "my-agent/v2.0 (beta)"
    ensures Detect(env, devinExists) == AgentResult(true, Some("my-agent/v2.0 (beta)"))
  {
    TrimInteriorExample();
  }

  /** Override scenarios: an empty or whitespace-only value is ignored and nothing else is set. */
  lemma BlankOverrideExamples()
    ensures Detect(map["AI_AGENT" := ""], false) == AgentResult(false)
    ensures Detect(map["AI_AGENT" := "   "], false) == AgentResult(false)
  {
    var blank: string := "   ";
    assert AllTrim(blank) by {
      forall i | 0 <= i < |blank| ensures IsTrimChar(blank[i]) {
        assert blank[i] == ' ';
      }
    }
    BlankOverrideIgnored(map[OverrideVar := ""], false);
    BlankOverrideIgnored(map[OverrideVar := blank], false);
    assert map[OverrideVar := ""] - {OverrideVar} == map[];
    assert map[OverrideVar := blank] - {OverrideVar} == map[];
  }

  /** Priority scenarios: of two set presence variables, the earlier check decides. */
  lemma PriorityExamples(devinExists: bool)
    ensures Detect(map["CURSOR_TRACE_ID" := "trace", "CURSOR_AGENT" := "true"], devinExists).name == Some("cursor")
    ensures Detect(map["CURSOR_AGENT" := "true", "CLAUDECODE" := "1"], devinExists).name == Some("cursor-cli")
    ensures Detect(map["CLAUDECODE" := "1", "REPL_ID" := "some-id"], devinExists).name == Some("claude")
  {
    var m1 := map["CURSOR_TRACE_ID" := "trace", "CURSOR_AGENT" := "true"];
    var m2 := map["CURSOR_AGENT" := "true", "CLAUDECODE" := "1"];
    var m3 := map["CLAUDECODE" := "1", "REPL_ID" := "some-id"];
    assert m1.Keys == {"CURSOR_TRACE_ID", "CURSOR_AGENT"} && OverrideVar !in m1;
    assert m2.Keys == {"CURSOR_AGENT", "CLAUDECODE"} && OverrideVar !in m2 && "CURSOR_TRACE_ID" !in m2;
    assert m3.Keys == {"CLAUDECODE", "REPL_ID"} && OverrideVar !in m3;
    assert forall v :: v in PresenceVars[..6] ==> v !in m3 by {
      assert PresenceVars[..6] == ["CURSOR_TRACE_ID", "CURSOR_AGENT", "GEMINI_CLI", "CODEX_SANDBOX", "AUGMENT_AGENT", "OPENCODE_CLIENT"];
    }
    ClaudeEitherVariable(m3, devinExists, "CLAUDECODE");
  }

  /** File-probe scenarios: with nothing set, /opt/.devin alone decides. */
  lemma DevinProbeExamples()
    ensures Detect(map[], true) == AgentResult(true, Some("devin"))
    ensures Detect(map[], false) == AgentResult(false)
  {
  }

  /** An override with no strippable end is reported verbatim, whatever else is set. */
  lemma OverrideVerbatim(env: Env, devinExists: bool, n: string)
    requires OverrideVar in env && env[OverrideVar] == n
    requires n != [] && !IsTrimChar(n[0]) && !IsTrimChar(n[|n| - 1])
    ensures Detect(env, devinExists) == AgentResult(true, Some(n))
  {
    TrimLeftAt(n, 0);
    TrimRightAt(n, |n|);
    assert Trim(n) == n;
  }

  /** Priority scenario: the override wins over CURSOR_TRACE_ID. */
  lemma OverridePriorityExample(devinExists: bool)
    ensures Detect(map["AI_AGENT" := "custom", "CURSOR_TRACE_ID" := "trace"], devinExists).name == Some("custom")
  {
    var n := "custom";
    OverrideVerbatim(map["AI_AGENT" := n, "CURSOR_TRACE_ID" := "trace"], devinExists, n);
  }

  /** A presence variable set to the empty string still fires: only getenv's false means unset. */
  lemma EmptyValueExample(devinExists: bool)
    ensures Detect(map["CURSOR_TRACE_ID" := ""], devinExists) == AgentResult(true, Some("cursor"))
  {
  }

  /** The tests' unknown override name is detected as an agent but classifies as no known agent. */
  lemma UnknownOverrideExample(devinExists: bool)
    ensures Detect(map["AI_AGENT" := "unknown-agent"], devinExists) == AgentResult(true, Some("unknown-agent"))
    ensures KnownAgentOf(Detect(map["AI_AGENT" := "unknown-agent"], devinExists)) == None
  {
    var n := "unknown-agent";
    OverrideVerbatim(map["AI_AGENT" := n], devinExists, n);
    TryFromRejectsCustomName();
  }
}

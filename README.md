# agent-detector in Dafny

This project models the agent-detector library. The library decides whether
the current process is run by an AI coding agent and, if so, by which one.

- `AgentDetector::detect` is an ordered, first-match-wins chain of checks.
  1. The free-text override `AI_AGENT` fires when its value is not blank
     after PHP's `trim`. The trimmed value becomes the name.
  2. Nine presence-only environment variables follow. Each one fires when it
     is set at all, even to an empty string. `CLAUDECODE` and `CLAUDE_CODE`
     share one slot.
  3. The existence of `/opt/.devin` is checked last.
  4. If nothing fires, the result is "not an agent".
- `AgentResult` is the immutable result record `(isAgent, name = null)`. Its
  derived `knownAgent()` classifies the name.
- `KnownAgent` is the string-backed enumeration of nine agent products. Its
  `tryFrom` is an exact, case-sensitive reverse lookup.

All three source files are pure, so the model uses datatypes, functions and
lemmas. It has no classes and no loops.

- Module `Wrappers` holds `Option`, which stands for PHP's nullable values.
- Module `PhpTrim` models `trim` with its default character list: space,
  tab, line feed, carriage return, NUL and vertical tab. `Trim` is proved
  equal to an independent description (`IsTrimOf`): it returns the unique
  slice of the input with strippable margins and no strippable end.
- Module `KnownAgents` is the enumeration. `Value` gives each backing string.
  `TryFrom` tries the cases in declaration order. `Cases` lists them all.
- Module `AgentResults` is the result record. It also defines `WellFormed`,
  the invariant `isAgent <==> name != null`.
- Module `AgentDetector` holds two things:
  - `Detect`, written branch for branch like the source. The checks after
    the override are the function `DetectBuiltin`.
  - A table-driven reference for the same chain: `Chain`, `Outcome` and
    `FirstFiring`. The lemma `DetectFollowsChain` proves that the two agree.

The process environment is a parameter `env: map<string, string>`. A
variable for which `getenv` returns `false` is a key missing from `env`. The
answer of `file_exists('/opt/.devin')` is the parameter `devinExists`.

## Model

| member | source | states |
|---|---|---|
| `PhpTrim.TrimLeft` | src/AgentDetector.php:12 | The result is a suffix of the input. Everything removed is a trim character. The result is empty or starts with a non-trim character. |
| `PhpTrim.TrimRight` | src/AgentDetector.php:12 | The result is a prefix of the input. Everything removed is a trim character. The result is empty or ends with a non-trim character. |
| `PhpTrim.Trim` | src/AgentDetector.php:12 | Neither end of the result is a trim character. The result is empty exactly when the input is made only of trim characters. |
| `PhpTrim.TrimCharacterized` | src/AgentDetector.php:12-13 | A string is the contiguous slice of s with strippable margins and no strippable end if and only if it equals `Trim(s)`. |
| `PhpTrim.TrimIdempotent` | src/AgentDetector.php:12-13 | Trimming a trimmed value changes nothing. |
| `PhpTrim.TrimStripsPadding` | src/AgentDetector.php:12-13 | Trim-only padding around a core with non-trim ends is removed. The core is kept verbatim. |
| `PhpTrim.TrimPaddedExample` | tests/AgentDetectorTest.php:237-243 | `"  my-agent  "` trims to `"my-agent"`. |
| `PhpTrim.TrimInteriorExample` | tests/AgentDetectorTest.php:245-252 | `"my-agent/v2.0 (beta)"` trims to itself, so its interior spaces and punctuation are kept. |
| `KnownAgents.Value` | src/KnownAgent.php:9-17 | The backing string of each of the nine cases, as declared. Every backing string is non-empty and made only of lower-case ASCII letters and hyphens. |
| `KnownAgents.CasesComplete` | src/KnownAgent.php:9-17 | There are exactly nine cases. Every case is listed, and no two share a backing string. |
| `KnownAgents.ValueInjective` | src/KnownAgent.php:9-17 | Distinct cases have distinct backing strings. |
| `KnownAgents.TryFrom` | src/KnownAgent.php:7-18 | A found case is backed by exactly s. The result is null if and only if no case is backed by s. |
| `KnownAgents.TryFromValue` | src/KnownAgent.php:7-18 | Round trip: looking up the backing string of k gives k. |
| `KnownAgents.TryFromExact` | src/KnownAgent.php:7-18 | `TryFrom(s)` is k if and only if s is exactly the backing string of k. |
| `KnownAgents.TryFromIsCaseSensitive` | src/KnownAgent.php:7-18 | No case folding: any string with an upper-case letter anywhere, such as `"Claude"`, is not found. |
| `KnownAgents.TryFromRejectsCustomName` | tests/AgentDetectorTest.php:49-57 | The custom names of the tests (`"my-custom-agent"`, `"unknown-agent"`) are not found. |
| `AgentResults.KnownAgentOf` | src/AgentResult.php:15-22 | A null name gives null. A found case k means the name is exactly the backing string of k. For a non-null name, a case is found exactly when some case is backed by that name. |
| `AgentResults.KnownAgentOfValue` | src/AgentResult.php:21 | A result named with the backing string of k classifies as k, whatever its `isAgent`. |
| `AgentResults.KnownAgentOfCustom` | src/AgentResult.php:21 | A name that is not a backing string classifies as null. |
| `AgentResults.DefaultNameIsNull` | src/AgentResult.php:9-12 | An omitted name is null. Such a result is well formed exactly when `isAgent` is false. |
| `AgentDetector.Detect` | src/AgentDetector.php:9-53 | Every result satisfies `isAgent <==> name != null`. When the override fires, the name is the trimmed override. A negative result implies that `/opt/.devin` does not exist. |
| `AgentDetector.DetectBuiltin` | src/AgentDetector.php:16-52 | Every result is well formed. The result is "not an agent" exactly when none of the nine presence variables is set and `/opt/.devin` does not exist. |
| `AgentDetector.Outcome` | src/AgentDetector.php:11-50 | A check that fires yields a well-formed agent result with `isAgent` true. |
| `AgentDetector.FirstFiring` | src/AgentDetector.php:9-53 | The result is well formed. It detects an agent if and only if some check in the list fires. |
| `AgentDetector.FirstFiringPicksFirst` | src/AgentDetector.php:11-52 | If check i fires and no earlier check fires, the chain returns check i's outcome. |
| `AgentDetector.FirstFiringSource` | src/AgentDetector.php:11-52 | A positive result is the outcome of some check i, and no check before i fires. |
| `AgentDetector.PresenceVariablesMembers` | src/AgentDetector.php:16-46 | A variable is listed by `PresenceVariables(checks, k)` exactly when some presence check of the table, from position k on, looks at it. |
| `AgentDetector.PresenceVarsMatchChain` | src/AgentDetector.php:16-46 | The nine presence variables, in priority order, are exactly the variables of the built-in presence checks, in table order. |
| `AgentDetector.BuiltinOutcomesEarly` | src/AgentDetector.php:16-30 | The first four presence checks of the table fire under exactly the conditions detect tests, with the names detect returns. |
| `AgentDetector.BuiltinOutcomesLate` | src/AgentDetector.php:32-50 | The same holds for the remaining presence checks (`CLAUDECODE` or `CLAUDE_CODE` included) and for the `/opt/.devin` probe. |
| `AgentDetector.BuiltinFollowsChain` | src/AgentDetector.php:16-52 | The checks after the override equal the first-match-wins evaluation of the built-in part of the table. |
| `AgentDetector.DetectFollowsChain` | src/AgentDetector.php:9-53 | `Detect` equals the first-match-wins evaluation of the whole check table, override first. |
| `AgentDetector.DetectPriority` | src/AgentDetector.php:11-52 | Strict priority: the result is the outcome of the first check in source order that fires. |
| `AgentDetector.DetectIsAgentIffSomeCheckFires` | src/AgentDetector.php:11-52 | An agent is detected if and only if at least one of the ten checks fires. |
| `AgentDetector.OverrideWins` | src/AgentDetector.php:11-13 | A non-blank override gives `(true, trim(AI_AGENT))`. No other variable and not the file probe can change that. |
| `AgentDetector.OverrideNameShape` | src/AgentDetector.php:12-13 | The override name is non-empty and has no trim character at either end. It is the override value with only strippable padding removed. |
| `AgentDetector.BlankOverrideIgnored` | src/AgentDetector.php:12 | An absent, empty or whitespace-only `AI_AGENT` does not fire. Detection proceeds exactly as if the variable were unset. |
| `AgentDetector.PresenceIgnoresValues` | src/AgentDetector.php:16-46 | Only which variables are set matters, never their values, except for `AI_AGENT`. An empty value counts as set. |
| `AgentDetector.ClaudeEitherVariable` | src/AgentDetector.php:40-42 | Either `CLAUDECODE` or `CLAUDE_CODE` alone gives `(true, "claude")` when no earlier check fires. |
| `AgentDetector.DevinProbeLast` | src/AgentDetector.php:48-52 | When no environment check fires, the result is `(true, "devin")` if the file exists and `(false, null)` otherwise. When an environment check fires, the file does not matter. |
| `AgentDetector.BuiltinOutcomeKnown` | src/AgentDetector.php:16-50 | Every built-in check that fires names a known agent. |
| `AgentDetector.FirstFiringBuiltinIsKnown` | src/AgentDetector.php:16-50 | If no override check fires, every detected name is the backing string of a known agent. |
| `AgentDetector.BuiltinIsKnown` | src/AgentDetector.php:16-50 | Whatever the checks after the override detect is a known agent, and the name is that case's backing string. |
| `AgentDetector.DetectedBuiltinIsKnown` | src/AgentDetector.php:16-50 | If the override does not fire and an agent is detected, `knownAgent()` is non-null and the name is that case's backing string. |
| `AgentDetector.CustomOverrideUnknown` | tests/AgentDetectorTest.php:49-57 | A custom override name is reported as an agent whose `knownAgent()` is null. |
| `AgentDetector.OverridePaddedExample` | tests/AgentDetectorTest.php:237-243 | `AI_AGENT="  my-agent  "` gives `(true, "my-agent")`, whatever else is set. |
| `AgentDetector.OverrideInteriorExample` | tests/AgentDetectorTest.php:245-252 | `AI_AGENT="my-agent/v2.0 (beta)"` gives that same name, whatever else is set. |
| `AgentDetector.BlankOverrideExamples` | tests/AgentDetectorTest.php:215-235 | An empty or whitespace-only `AI_AGENT`, with nothing else set and no file, gives `(false, null)`. |
| `AgentDetector.PriorityExamples` | tests/AgentDetectorTest.php:187-212 | The tests' presence-precedence scenarios: `CURSOR_TRACE_ID` over `CURSOR_AGENT`, `CURSOR_AGENT` over `CLAUDECODE`, and `CLAUDECODE` over `REPL_ID`. |
| `AgentDetector.DevinProbeExamples` | tests/AgentDetectorTest.php:158-176 | With nothing set, an existing `/opt/.devin` gives `(true, "devin")` and a missing one gives `(false, null)`. |
| `AgentDetector.OverrideVerbatim` | src/AgentDetector.php:11-13 | An override with no trim character at either end is reported exactly as given, whatever else is set. |
| `AgentDetector.OverridePriorityExample` | tests/AgentDetectorTest.php:178-185 | `AI_AGENT=custom` together with `CURSOR_TRACE_ID=trace` gives the name `"custom"`. |
| `AgentDetector.EmptyValueExample` | src/AgentDetector.php:16-18 | `CURSOR_TRACE_ID` set to the empty string still gives `(true, "cursor")`, because only an unset variable makes `getenv` return false. |
| `AgentDetector.UnknownOverrideExample` | tests/AgentDetectorTest.php:272-278 | `AI_AGENT=unknown-agent` gives `(true, "unknown-agent")`, and its `knownAgent()` is null. |

## Left out

- The real `getenv` and `file_exists` calls are left out. They are ambient OS reads, so the model takes them as the inputs `env` and `devinExists`.
- The model does not capture that the file probe runs only when it is reached, because the probe's answer is an input. `DevinProbeLast` proves the observable part: the answer changes nothing once an environment check has fired.
- `AgentDetector.Detect` is a function, so two calls on the same inputs give equal results. No separate idempotence lemma is stated.
- The standalone `detectAgent()` function used by the tests is not part of this model, because its source file is not available. It is expected to return what `detect` returns.
- `tests/Overrides.php` is a test-time replacement for `file_exists`. It is not modelled.
- The tests' `putenv` setup and teardown are not modelled.
- `PhpTrim.Trim` works on Unicode characters (`seq<char>`), while PHP's `trim` works on bytes. The two agree because every character in the trim list is a single ASCII byte.
- `KnownAgent::from` (which throws on a miss) and `KnownAgent::cases()` are not modelled, because the source never calls them.
- The `AgentResult` constructor accepts any pair, for example `(true, null)`. Only the results of `detect` are proved to satisfy `isAgent <==> name != null`, as in the source.

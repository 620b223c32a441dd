/**
 * The string-backed enumeration of recognised agent products and its
 * `tryFrom` reverse lookup: an exact, case-sensitive match of a name against
 * the backing strings, giving the matching case or null.
 */
module KnownAgents {
  import opened Wrappers

  datatype KnownAgent = Cursor | CursorCli | Claude | Devin | Replit | Gemini | Codex | AugmentCli | Opencode

  /** A character that may appear in a backing string: a lower-case ASCII letter or a hyphen. */
  predicate IsNameChar(c: char) {
    'a' <= c <= 'z' || c == '-'
  }

  /** The backing string of each case: a non-empty lower-case name. */
  function Value(k: KnownAgent): (v: string)
    ensures |v| > 0
    ensures forall i :: 0 <= i < |v| ==> IsNameChar(v[i])
  {
    match k
    case Cursor => "cursor"
    case CursorCli => "cursor-cli"
    case Claude => "claude"
    case Devin => "devin"
    case Replit => "replit"
    case Gemini => "gemini"
    case Codex => "codex"
    case AugmentCli => "augment-cli"
    case Opencode => "opencode"
  }

  /** The cases in declaration order. */
  const Cases: seq<KnownAgent> := [Cursor, CursorCli, Claude, Devin, Replit, Gemini, Codex, AugmentCli, Opencode]

  /** The enumeration has exactly nine cases, every case is listed, and no two share a backing string. */
  lemma CasesComplete()
    ensures |Cases| == 9
    ensures forall k :: k in Cases
    ensures forall i, j :: 0 <= i < j < |Cases| ==> Value(Cases[i]) != Value(Cases[j])
  {
    forall k ensures k in Cases {
      match k
      case Cursor => assert Cases[0] == k;
      case CursorCli => assert Cases[1] == k;
      case Claude => assert Cases[2] == k;
      case Devin => assert Cases[3] == k;
      case Replit => assert Cases[4] == k;
      case Gemini => assert Cases[5] == k;
      case Codex => assert Cases[6] == k;
      case AugmentCli => assert Cases[7] == k;
      case Opencode => assert Cases[8] == k;
    }
  }

  /** Distinct cases have distinct backing strings. */
  lemma ValueInjective(a: KnownAgent, b: KnownAgent)
    ensures Value(a) == Value(b) ==> a == b
  {
  }

  /** KnownAgent::tryFrom: the case backed by exactly s, if there is one, tried in declaration order. */
  function TryFrom(s: string): (r: Option<KnownAgent>)
    ensures r.Some? ==> Value(r.value) == s
    ensures r.None? <==> forall k :: Value(k) != s
  {
    if s == Value(Cursor) then Some(Cursor)
    else if s == Value(CursorCli) then Some(CursorCli)
    else if s == Value(Claude) then Some(Claude)
    else if s == Value(Devin) then Some(Devin)
    else if s == Value(Replit) then Some(Replit)
    else if s == Value(Gemini) then Some(Gemini)
    else if s == Value(Codex) then Some(Codex)
    else if s == Value(AugmentCli) then Some(AugmentCli)
    else if s == Value(Opencode) then Some(Opencode)
    else None
  }

  /** Looking up a backing string gives back its case. */
  lemma TryFromValue(k: KnownAgent)
    ensures TryFrom(Value(k)) == Some(k)
  {

  }

  /** The lookup is exact: it finds k precisely for the backing string of k. */
  lemma TryFromExact(s: string, k: KnownAgent)
    ensures TryFrom(s) == Some(k) <==> s == Value(k)
  {

  }

  /** No case folding: a string with an upper-case letter anywhere, such as "Claude", is rejected. */
  lemma TryFromIsCaseSensitive(s: string, i: nat)
    requires i < |s| && 'A' <= s[i] <= 'Z'
    ensures TryFrom(s) == None
  {
  }

  /** A custom name that is not a backing string is rejected. */
  lemma TryFromRejectsCustomName()
    ensures TryFrom("my-custom-agent") == None
    ensures TryFrom("unknown-agent") == None
  {
  }
}

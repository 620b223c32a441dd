/**
 * PHP's `trim($s)` with its default character list: it strips, from both
 * ends, every space, tab, line feed, carriage return, NUL and vertical tab,
 * first from the left and then from the right, and keeps everything in
 * between verbatim.
 */
module PhpTrim {

  /** The default character list of PHP's trim: " \t\n\r\0\x0B". */
  const TrimChars: set<char> := {' ', '\t', '\n', '\r', '\0', '\U{B}'}

  predicate IsTrimChar(c: char) {
    c in TrimChars
  }

  /** Every character of t is one that trim strips. */
  ghost predicate AllTrim(t: string) {
    forall i :: 0 <= i < |t| ==> IsTrimChar(t[i])
  }

  /** Neither end of t is a character that trim strips. */
  ghost predicate NoTrimAtEnds(t: string) {
    t == [] || (!IsTrimChar(t[0]) && !IsTrimChar(t[|t| - 1]))
  }

  /**
   * Independent description of trimming: r is a contiguous slice of s,
   * everything before and after it is strippable, and r itself has no
   * strippable character at either end.
   */
  ghost predicate IsTrimOf(s: string, r: string) {
    && NoTrimAtEnds(r)
    && exists i :: 0 <= i <= |s| - |r| && r == s[i..i + |r|] && AllTrim(s[..i]) && AllTrim(s[i + |r|..])
  }

  /** Strip the strippable prefix of s. */
  function TrimLeft(s: string): (r: string)
    ensures |r| <= |s| && r == s[|s| - |r|..]
    ensures AllTrim(s[..|s| - |r|])
    ensures r == [] || !IsTrimChar(r[0])
  {
    if |s| > 0 && IsTrimChar(s[0]) then
      var r := TrimLeft(s[1..]);
      assert s[..|s| - |r|] == [s[0]] + s[1..][..|s| - 1 - |r|];
      r
    else
      s
  }

  /** Strip the strippable suffix of s. */
  function TrimRight(s: string): (r: string)
    ensures |r| <= |s| && r == s[..|r|]
    ensures AllTrim(s[|r|..])
    ensures r == [] || !IsTrimChar(r[|r| - 1])
  {
    if |s| > 0 && IsTrimChar(s[|s| - 1]) then
      var p := s[..|s| - 1];
      var r := TrimRight(p);
      assert r == s[..|r|];
      assert AllTrim(s[|r|..]) by {
        forall k | |r| <= k < |s| ensures IsTrimChar(s[k]) {
          if k < |s| - 1 { assert p[|r|..][k - |r|] == s[k]; }
        }
      }
      r
    else
      s
  }

  /** PHP's trim($s) with the default character list. */
  function Trim(s: string): (r: string)
    ensures |r| <= |s|
    ensures NoTrimAtEnds(r)
    ensures r == [] <==> AllTrim(s)
  {
    var t := TrimLeft(s);
    var r := TrimRight(t);
    assert r != [] ==> r[0] == t[0];
    assert r == [] ==> AllTrim(s) by {
      if r == [] {
        assert s[..|s|] == s;
      }
    }
    r
  }

  /** Stripping a prefix is determined by where the first non-strippable character is. */
  lemma {:induction false} TrimLeftAt(s: string, i: nat)
    requires i <= |s| && AllTrim(s[..i])
    requires i == |s| || !IsTrimChar(s[i])
    ensures TrimLeft(s) == s[i..]
  {
    if i > 0 {
      assert s[..i][0] == s[0];
      assert s[1..][..i - 1] == s[..i][1..];
      TrimLeftAt(s[1..], i - 1);
    }
  }

  /** Stripping a suffix is determined by where the last non-strippable character is. */
  lemma {:induction false} TrimRightAt(s: string, j: nat)
    requires j <= |s| && AllTrim(s[j..])
    requires j == 0 || !IsTrimChar(s[j - 1])
    ensures TrimRight(s) == s[..j]
    decreases |s|
  {
    if j < |s| {
      var p := s[..|s| - 1];
      assert s[j..][|s| - 1 - j] == s[|s| - 1];
      assert p[j..] == s[j..][..|s| - 1 - j];
      TrimRightAt(p, j);
      assert p[..j] == s[..j];
    }
  }

  /** Trim(s) meets the independent description. */
  lemma TrimIsTrimOf(s: string)
    ensures IsTrimOf(s, Trim(s))
  {
    var t := TrimLeft(s);
    SliceIsTrimOf(s, t, TrimRight(t));
  }

  /** A left pass t of s followed by a right pass r of t, with no strippable end left, meets the independent description. */
  lemma SliceIsTrimOf(s: string, t: string, r: string)
    requires |t| <= |s| && t == s[|s| - |t|..] && AllTrim(s[..|s| - |t|])
    requires |r| <= |t| && r == t[..|r|] && AllTrim(t[|r|..])
    requires NoTrimAtEnds(r)
    ensures IsTrimOf(s, r)
  {
    var i := |s| - |t|;
    assert t[..|r|] == s[i..i + |r|];
    assert t[|r|..] == s[i + |r|..];
  }

  /** Two strippable pieces make a strippable whole. */
  lemma AllTrimJoin(s: string, i: nat)
    requires i <= |s| && AllTrim(s[..i]) && AllTrim(s[i..])
    ensures AllTrim(s)
  {
    forall k | 0 <= k < |s| ensures IsTrimChar(s[k]) {
      if k < i { assert s[..i][k] == s[k]; } else { assert s[i..][k - i] == s[k]; }
    }
  }

  /** A slice at a given offset with strippable margins and no strippable ends is Trim(s). */
  lemma TrimOfAt(s: string, r: string, i: nat)
    requires NoTrimAtEnds(r)
    requires i <= |s| - |r| && r == s[i..i + |r|]
    requires AllTrim(s[..i]) && AllTrim(s[i + |r|..])
    ensures r == Trim(s)
  {
    if r == [] {
      AllTrimJoin(s, i);
    } else {
      TrimOfAtNonEmpty(s, r, i);
    }
  }

  /** The non-empty case of TrimOfAt: the left pass stops at i, the right pass at i + |r|. */
  lemma TrimOfAtNonEmpty(s: string, r: string, i: nat)
    requires r != [] && !IsTrimChar(r[0]) && !IsTrimChar(r[|r| - 1])
    requires i <= |s| - |r| && r == s[i..i + |r|]
    requires AllTrim(s[..i]) && AllTrim(s[i + |r|..])
    ensures r == TrimRight(TrimLeft(s))
  {
    assert s[i] == r[0];
    TrimLeftAt(s, i);
    var t := TrimLeft(s);
    var post := s[i + |r|..];
    assert t == r + post by { SplitAt(s, i, i + |r|); }
    TrimRightOfSuffix(t, r, post);
  }

  /** Cutting a suffix of s at j. */
  lemma SplitAt(s: string, i: nat, j: nat)
    requires i <= j <= |s|
    ensures s[i..] == s[i..j] + s[j..]
  {
  }

  /** A string made of r followed by strippable characters right-trims to r, when r ends in a kept character. */
  lemma TrimRightOfSuffix(t: string, r: string, post: string)
    requires r != [] && !IsTrimChar(r[|r| - 1])
    requires t == r + post && AllTrim(post)
    ensures TrimRight(t) == r
  {
    assert t[|r|..] == post;
    assert t[..|r|] == r;
    TrimRightAt(t, |r|);
  }

  /** Nothing but Trim(s) meets the independent description. */
  lemma TrimOfUnique(s: string, r: string)
    requires IsTrimOf(s, r)
    ensures r == Trim(s)
  {
    var i :| 0 <= i <= |s| - |r| && r == s[i..i + |r|] && AllTrim(s[..i]) && AllTrim(s[i + |r|..]);
    TrimOfAt(s, r, i);
  }

  /** Trim(s) is exactly the one string that IsTrimOf describes. */
  lemma TrimCharacterized(s: string, r: string)
    ensures IsTrimOf(s, r) <==> r == Trim(s)
  {
    TrimIsTrimOf(s);
    if IsTrimOf(s, r) {
      TrimOfUnique(s, r);
    }
  }

  /** Trimming twice is trimming once. */
  lemma TrimIdempotent(s: string)
    ensures Trim(Trim(s)) == Trim(s)
  {

  }

  /** Padding made only of strippable characters is removed and the rest is kept verbatim. */
  lemma TrimStripsPadding(pre: string, mid: string, post: string)
    requires AllTrim(pre) && AllTrim(post) && NoTrimAtEnds(mid)
    ensures Trim(pre + mid + post) == mid
  {
    var s := pre + mid + post;
    var i := |pre|;
    assert s[..i] == pre && s[i..i + |mid|] == mid && s[i + |mid|..] == post;
    TrimCharacterized(s, mid);
  }

  /** Surrounding spaces are stripped and the word between them is kept. */
  lemma TrimPaddedExample()
    ensures Trim("  my-agent  ") == "my-agent"
  {
    var m := "my-agent";
    assert !IsTrimChar(m[0]) && !IsTrimChar(m[|m| - 1]);
    TrimStripsPadding("  ", m, "  ");
    assert "  " + m + "  " == "  my-agent  ";
  }

  /** Interior spaces, slashes, dots and parentheses are kept verbatim. */
  lemma TrimInteriorExample()
    ensures Trim("my-agent/v2.0 (beta)") == "my-agent/v2.0 (beta)"
  {
    var b := "my-agent/v2.0 (beta)";
    TrimStripsPadding("", b, "");
    assert "" + b + "" == b;
  }
}

/** The java.lang.String operations the probes rely on, over seq<char>. */
module JavaText {

  /** String.trim removes every leading and trailing character whose code
      is at most U+0020. */
  predicate IsBlank(c: char) {
    c <= ' '
  }

  predicate AllBlank(s: string) {
    forall k :: 0 <= k < |s| ==> IsBlank(s[k])
  }

  /** String.indexOf(c, from): the first index at or after `from` that holds
      `c`, or -1. */
  function IndexOfFrom(s: string, c: char, from: nat): (r: int)
    requires from <= |s|
    ensures r == -1 || from <= r < |s|
    ensures r == -1 <==> forall k :: from <= k < |s| ==> s[k] != c
    ensures r >= 0 ==> s[r] == c && forall k :: from <= k < r ==> s[k] != c
    decreases |s| - from
  {
    if from == |s| then -1
    else if s[from] == c then from
    else IndexOfFrom(s, c, from + 1)
  }

  /** String.indexOf(c) */
  function IndexOf(s: string, c: char): (r: int)
    ensures r == -1 <==> c !in s
    ensures r >= 0 ==> r < |s| && s[r] == c && c !in s[..r]
  {
    IndexOfFrom(s, c, 0)
  }

  /** IndexOf finds `c` at `i` exactly when `i` is its first occurrence. */
  lemma IndexOfAt(s: string, c: char, i: nat)
    requires i < |s| && s[i] == c && c !in s[..i]
    ensures IndexOf(s, c) == i
  {
  }

  /** Splitting at the first occurrence of `c`: IndexOf finds it right after
      a prefix free of `c`, and slicing around it gives the two halves back. */
  lemma IndexOfSplit(a: string, c: char, b: string)
    requires c !in a
    ensures IndexOf(a + [c] + b, c) == |a|
    ensures (a + [c] + b)[..|a|] == a
    ensures (a + [c] + b)[|a| + 1..] == b
  {
    var s := a + [c] + b;
    assert s[..|a|] == a;
    IndexOfAt(s, c, |a|);
  }

  /** The first index at or after `from` that is not blank, or |s|. */
  function SkipLeading(s: string, from: nat): (j: nat)
    requires from <= |s|
    ensures from <= j <= |s|
    ensures forall k :: from <= k < j ==> IsBlank(s[k])
    ensures j < |s| ==> !IsBlank(s[j])
    decreases |s| - from
  {
    if from < |s| && IsBlank(s[from]) then SkipLeading(s, from + 1) else from
  }

  /** One past the last index below `stop` that is not blank, but no lower
      than `floor`. */
  function SkipTrailing(s: string, floor: nat, stop: nat): (j: nat)
    requires floor <= stop <= |s|
    ensures floor <= j <= stop
    ensures forall k :: j <= k < stop ==> IsBlank(s[k])
    ensures floor < j ==> !IsBlank(s[j - 1])
    decreases stop
  {
    if floor < stop && IsBlank(s[stop - 1]) then SkipTrailing(s, floor, stop - 1) else stop
  }

  /** String.trim: the slice of `s` left once every blank prefix and suffix
      character is removed. */
  function Trim(s: string): (r: string)
    ensures |r| <= |s|
    ensures |r| > 0 ==> !IsBlank(r[0]) && !IsBlank(r[|r| - 1])
    ensures var a := SkipLeading(s, 0);
      && a + |r| <= |s|
      && r == s[a..a + |r|]
      && (forall k :: 0 <= k < a ==> IsBlank(s[k]))
      && (forall k :: a + |r| <= k < |s| ==> IsBlank(s[k]))
  {
    var a := SkipLeading(s, 0);
    var b := SkipTrailing(s, a, |s|);
    s[a..b]
  }

  /** Trim removes exactly the blank padding around a core that neither
      starts nor ends with a blank. */
  lemma TrimPadded(lead: string, core: string, trail: string)
    requires AllBlank(lead) && AllBlank(trail)
    requires |core| > 0 ==> !IsBlank(core[0]) && !IsBlank(core[|core| - 1])
    ensures Trim(lead + core + trail) == core
  {
    var s := lead + core + trail;
    var r := Trim(s);
    var a := SkipLeading(s, 0);
    if |core| == 0 {
      assert forall k :: 0 <= k < |s| ==> IsBlank(s[k]);
      assert |r| == 0;
    } else {
      var e := |lead| + |core|;
      assert s[|lead|] == core[0];
      assert s[e - 1] == core[|core| - 1];
      assert a == |lead|;
      assert a + |r| >= e;
      assert r[|r| - 1] == s[a + |r| - 1];
      assert a + |r| == e;
      assert s[|lead|..e] == core;
    }
  }

  /** When `s` starts with a non-blank character, Trim keeps every character
      up to any later non-blank one. */
  lemma TrimKeepsPrefix(s: string, k: nat)
    requires k < |s| && !IsBlank(s[0]) && !IsBlank(s[k])
    ensures k < |Trim(s)| && Trim(s)[..k + 1] == s[..k + 1]
  {
    var r := Trim(s);
    assert SkipLeading(s, 0) == 0;
    assert |r| > k;
  }

  /** String.endsWith: `s` is some text followed by `suffix`. */
  function EndsWith(s: string, suffix: string): (b: bool)
    ensures b <==> exists front: string :: s == front + suffix
  {
    var b := |suffix| <= |s| && s[|s| - |suffix|..] == suffix;
    assert b ==> s == s[..|s| - |suffix|] + suffix;
    assert forall front: string :: s == front + suffix ==> s[|front|..] == suffix;
    b
  }
}

/** The compiled pattern `inet addr:(.*?) ` and what `Matcher.find()`
    followed by `group(1)` returns for it. */
module IpPattern {
  import opened Results

  /** The literal text the pattern starts with. */
  const Marker: string := "inet addr:"

  /** The line terminators of java.util.regex when neither UNIX_LINES nor
      DOTALL is set; `.` matches every other character. */
  predicate IsLineTerminator(c: char) {
    c == '\n' || c == '\r' || c == '\U{0085}' || c == '\U{2028}' || c == '\U{2029}'
  }

  predicate MarkerAt(s: string, p: nat) {
    p + |Marker| <= |s| && s[p..p + |Marker|] == Marker
  }

  /** The pattern matches `s` from `p` with group 1 ending at `e`: the
      marker, then characters `.` accepts, then a space at `e`. */
  predicate MatchAt(s: string, p: nat, e: nat) {
    && MarkerAt(s, p)
    && p + |Marker| <= e < |s|
    && s[e] == ' '
    && forall k :: p + |Marker| <= k < e ==> !IsLineTerminator(s[k])
  }

  /** The text a match covers is the marker, the group and the closing
      space. */
  lemma MatchedText(s: string, p: nat, e: nat)
    requires MatchAt(s, p, e)
    ensures s[p..e + 1] == Marker + s[p + |Marker|..e] + " "
  {
    assert s[p..e + 1] == s[p..p + |Marker|] + s[p + |Marker|..e] + [s[e]];
  }

  /** A successful find: where the match starts and where group 1 ends. */
  datatype Match = Match(start: nat, groupEnd: nat)

  /** The first index at or after `from` holding a space or a line
      terminator, or |s|: where the reluctant `(.*?)` must stop. */
  function LazyEnd(s: string, from: nat): (e: nat)
    requires from <= |s|
    ensures from <= e <= |s|
    ensures forall k :: from <= k < e ==> s[k] != ' ' && !IsLineTerminator(s[k])
    ensures e < |s| ==> s[e] == ' ' || IsLineTerminator(s[e])
    decreases |s| - from
  {
    if from == |s| || s[from] == ' ' || IsLineTerminator(s[from]) then from
    else LazyEnd(s, from + 1)
  }

  /** When the group cannot reach a space, the pattern does not match from `p`
      at all. */
  lemma NoMatchWhenGroupBlocked(s: string, p: nat)
    requires MarkerAt(s, p)
    requires var e := LazyEnd(s, p + |Marker|); !(e < |s| && s[e] == ' ')
    ensures forall e: nat :: !MatchAt(s, p, e)
  {
    var stop := LazyEnd(s, p + |Marker|);
    forall e: nat
      ensures !MatchAt(s, p, e)
    {
      if stop < e && e < |s| {
        assert p + |Marker| <= stop < e && IsLineTerminator(s[stop]);
      }
    }
  }

  /** When the group reaches a space, the match from `p` ends there and at no
      earlier index. */
  lemma LazyMatch(s: string, p: nat)
    requires MarkerAt(s, p)
    requires var e := LazyEnd(s, p + |Marker|); e < |s| && s[e] == ' '
    ensures MatchAt(s, p, LazyEnd(s, p + |Marker|))
    ensures forall e: nat :: e < LazyEnd(s, p + |Marker|) ==> !MatchAt(s, p, e)
  {
  }

  /** Matcher.find() from index `p`: the match with the leftmost start and,
      from there, the shortest group. */
  function FindFrom(s: string, p: nat): (r: Option<Match>)
    requires p <= |s|
    ensures r.None? ==> forall q: nat, e: nat :: p <= q ==> !MatchAt(s, q, e)
    ensures r.Some? ==> p <= r.value.start && MatchAt(s, r.value.start, r.value.groupEnd)
    ensures r.Some? ==> forall q: nat, e: nat :: p <= q < r.value.start ==> !MatchAt(s, q, e)
    ensures r.Some? ==> forall e: nat :: e < r.value.groupEnd ==> !MatchAt(s, r.value.start, e)
    decreases |s| - p
  {
    if p + |Marker| >= |s| then None
    else if !MarkerAt(s, p) then FindFrom(s, p + 1)
    else
      var e := LazyEnd(s, p + |Marker|);
      if e < |s| && s[e] == ' ' then
        LazyMatch(s, p);
        Some(Match(p, e))
      else
        NoMatchWhenGroupBlocked(s, p);
        FindFrom(s, p + 1)
  }

  /** Matcher.find() on a fresh matcher. */
  function Find(s: string): (r: Option<Match>)
    ensures r.None? <==> forall q: nat, e: nat :: !MatchAt(s, q, e)
    ensures r.Some? ==> MatchAt(s, r.value.start, r.value.groupEnd)
    ensures r.Some? ==> forall q: nat, e: nat :: q < r.value.start ==> !MatchAt(s, q, e)
    ensures r.Some? ==> forall e: nat :: e < r.value.groupEnd ==> !MatchAt(s, r.value.start, e)
  {
    FindFrom(s, 0)
  }

  /** A space inside the group would have ended a shorter match. */
  lemma ShortestGroupHasNoSpace(s: string, m: Match, k: nat)
    requires MatchAt(s, m.start, m.groupEnd)
    requires forall e: nat :: e < m.groupEnd ==> !MatchAt(s, m.start, e)
    requires m.start + |Marker| <= k < m.groupEnd
    ensures s[k] != ' '
  {
    assert !MatchAt(s, m.start, k);
  }

  /** Matcher.group(1) of the match find() reports. */
  function Group(s: string, m: Match): (g: string)
    requires MatchAt(s, m.start, m.groupEnd)
    requires forall e: nat :: e < m.groupEnd ==> !MatchAt(s, m.start, e)
    ensures m.start + |Marker| + |g| == m.groupEnd
    ensures s[m.start..m.groupEnd + 1] == Marker + g + " "
    ensures ' ' !in g
    ensures forall k :: 0 <= k < |g| ==> !IsLineTerminator(g[k])
  {
    var g := s[m.start + |Marker|..m.groupEnd];
    MatchedText(s, m.start, m.groupEnd);
    assert forall k :: 0 <= k < |g| ==> g[k] != ' ' by {
      forall k | 0 <= k < |g|
        ensures g[k] != ' '
      {
        ShortestGroupHasNoSpace(s, m, m.start + |Marker| + k);
      }
    }
    g
  }

  /** A match that starts before every other and whose group holds no space
      is the one find() reports. */
  lemma FindLeftmostMatch(s: string, p: nat, e: nat)
    requires MatchAt(s, p, e)
    requires forall q: nat, e': nat :: q < p ==> !MatchAt(s, q, e')
    requires ' ' !in s[p + |Marker|..e]
    ensures Find(s) == Some(Match(p, e))
  {
    var m := Find(s).value;
    assert m.start == p;
    assert m.groupEnd == e;
  }

  /** A marker whose line ends before any space starts no match, and neither
      does any index up to that line end. */
  lemma NoMatchOnBrokenLine(line: string, t: char, rest: string)
    requires ' ' !in line && Marker[0] !in line
    requires IsLineTerminator(t)
    ensures var s := Marker + line + [t] + rest;
      forall q: nat, e: nat :: q <= |Marker| + |line| ==> !MatchAt(s, q, e)
  {
    var s := Marker + line + [t] + rest;
    var stop := |Marker| + |line|;
    assert s[stop] == t;
    forall q: nat, e: nat | q <= stop
      ensures !MatchAt(s, q, e)
    {
      if q > 0 {
        assert s[q] != Marker[0] by {
          if q < |Marker| {
            assert s[q] == Marker[q];
          } else if q < stop {
            assert s[q] == line[q - |Marker|];
          }
        }
      }
    }
  }

  /** The marker cannot start inside a prefix that has no 'i'. */
  lemma NoMarkerInside(before: string)
    requires Marker[0] !in before
    ensures forall q: nat :: q < |before| ==> !MarkerAt(before + Marker, q)
  {
    forall q: nat | q < |before|
      ensures !MarkerAt(before + Marker, q)
    {
      assert (before + Marker)[q] == before[q];
    }
  }

  /** Reading back: after a prefix in which the marker does not occur, the
      marker, an address free of spaces and line terminators, and a space,
      find() reports exactly that address as group 1. */
  lemma FindFirstMarker(before: string, ip: string, after: string)
    requires forall q: nat :: q < |before| ==> !MarkerAt(before + Marker, q)
    requires ' ' !in ip
    requires forall k :: 0 <= k < |ip| ==> !IsLineTerminator(ip[k])
    ensures var s := before + Marker + ip + " " + after;
      Find(s) == Some(Match(|before|, |before| + |Marker| + |ip|))
  {
    var s := before + Marker + ip + " " + after;
    var p := |before|;
    var e := p + |Marker| + |ip|;
    assert s[p..p + |Marker|] == Marker;
    assert s[p + |Marker|..e] == ip;
    assert MatchAt(s, p, e);
    forall q: nat, e': nat | q < p
      ensures !MatchAt(s, q, e')
    {
      assert !MarkerAt(before + Marker, q);
      assert s[q..q + |Marker|] == (before + Marker)[q..q + |Marker|];
    }
    FindLeftmostMatch(s, p, e);
  }
}

/**
 * `cleanStatus` and `normalizeStatus` (server.js:202-215): cut a leading
 * `time - time` range, delete every "Member Event" in any letter case, trim;
 * the normalised key is the cleaned text lower-cased.
 */
module Status {
  import opened Wrappers
  import opened Strings
  import opened TimeLabels

  /** One match of `T\s*-\s*T` at the start of a status, T being a time label. */
  datatype RangeMatch = RangeMatch(from: Clock, gapBefore: string, gapAfter: string, to: Clock)

  predicate WellFormedRange(m: RangeMatch)
  {
    WellFormed(m.from) && WellFormed(m.to) && AllSpace(m.gapBefore) && AllSpace(m.gapAfter)
  }

  /** The text the range pattern consumes. */
  function RangeText(m: RangeMatch): string
    requires WellFormedRange(m)
  {
    Render(m.from) + m.gapBefore + "-" + m.gapAfter + Render(m.to)
  }

  /** The number of characters a range match consumes. */
  function MatchWidth(m: RangeMatch): nat
  {
    Width(m.from) + |m.gapBefore| + 1 + |m.gapAfter| + Width(m.to)
  }

  /** The first index at or after `i` that is not white space (a greedy `\s*`). */
  function SkipSpaces(s: string, i: nat): (j: nat)
    requires i <= |s|
    ensures i <= j <= |s| && AllSpace(s[i..j])
    ensures j < |s| ==> !IsSpace(s[j])
  {
    var j := i + SpaceRun(s[i..]);
    assert s[i..j] == s[i..][..j - i];
    assert j < |s| ==> s[j] == s[i..][j - i];
    j
  }

  /** A run of white space ended by another character is skipped exactly. */
  lemma SkipSpacesOver(s: string, i: nat, j: nat)
    requires i <= j < |s| && AllSpace(s[i..j]) && !IsSpace(s[j])
    ensures SkipSpaces(s, i) == j
  {
  }

  /**
   * The anchored pattern `^T\s*-\s*T` of server.js:205. Each `\s*` is
   * followed by a character it cannot match (`-`, or a digit), so the greedy
   * match is the only one and no backtracking is needed.
   */
  function MatchRange(s: string): (r: Option<RangeMatch>)
    ensures r.Some? ==> MatchWidth(r.value) <= |s|
  {
    match ParsePrefix(s)
    case None => None
    case Some(from) =>
      var b := SkipSpaces(s, Width(from));
      if b < |s| && s[b] == '-' then
        var c := SkipSpaces(s, b + 1);
        match ParsePrefix(s[c..])
        case None => None
        case Some(to) => Some(RangeMatch(from, s[Width(from)..b], s[b + 1..c], to))
      else None
  }

  /** The steps `MatchRange` takes, spelled out. */
  lemma MatchRangeSteps(s: string, m: RangeMatch, b: nat, c: nat)
    requires ParsePrefix(s) == Some(m.from)
    requires b == SkipSpaces(s, Width(m.from)) && b < |s| && s[b] == '-'
    requires c == SkipSpaces(s, b + 1) && ParsePrefix(s[c..]) == Some(m.to)
    requires s[Width(m.from)..b] == m.gapBefore && s[b + 1..c] == m.gapAfter
    ensures MatchRange(s) == Some(m)
  {
    assert m == RangeMatch(m.from, s[Width(m.from)..b], s[b + 1..c], m.to);
  }

  /** Where the pieces of a recognised range lie in `s`. */
  lemma MatchRangeParts(s: string) returns (b: nat, c: nat)
    requires MatchRange(s).Some?
    ensures var m := MatchRange(s).value;
      && ParsePrefix(s) == Some(m.from)
      && b == SkipSpaces(s, Width(m.from)) && b < |s| && s[b] == '-'
      && c == SkipSpaces(s, b + 1) && ParsePrefix(s[c..]) == Some(m.to)
      && m.gapBefore == s[Width(m.from)..b] && m.gapAfter == s[b + 1..c]
  {
    var from := ParsePrefix(s).value;
    b := SkipSpaces(s, Width(from));
    c := SkipSpaces(s, b + 1);
  }

  /** What is recognised is exactly the range written at the start of `s`. */
  lemma MatchRangeSound(s: string)
    requires MatchRange(s).Some?
    ensures WellFormedRange(MatchRange(s).value) && RangeText(MatchRange(s).value) <= s
  {
    var b, c := MatchRangeParts(s);
    var m := MatchRange(s).value;
    ParsePrefixSound(s);
    ParsePrefixSound(s[c..]);
    assert Render(m.to) == s[c..][..Width(m.to)];
    RangeTextPrefix(m, s, Width(m.from), b, c);
  }

  lemma RangeTextPrefix(m: RangeMatch, s: string, a: nat, b: nat, c: nat)
    requires WellFormedRange(m)
    requires a <= b < c <= |s|
    requires Render(m.from) == s[..a] && m.gapBefore == s[a..b] && s[b] == '-'
    requires m.gapAfter == s[b + 1..c] && Render(m.to) <= s[c..]
    ensures RangeText(m) <= s
  {
    var t := Render(m.to);
    assert t == s[c..c + |t|];
    calc {
      RangeText(m);
      s[..a] + s[a..b] + [s[b]] + s[b + 1..c] + s[c..c + |t|];
      s[..c + |t|];
    }
  }

  /** Every well-formed range is recognised, whatever follows it. */
  lemma MatchRangeText(m: RangeMatch, rest: string)
    requires WellFormedRange(m)
    ensures MatchRange(RangeText(m) + rest) == Some(m)
  {
    var p, q := Render(m.from), Render(m.to);
    var s := RangeText(m) + rest;
    assert |p| == Width(m.from) && q != [] && !IsSpace(q[0]) by {
      RenderWidth(m.from);
      RenderStartsWithDigit(m.to);
    }
    var b, c := Gaps(p, m.gapBefore, m.gapAfter, q, rest, s);
    assert ParsePrefix(s) == Some(m.from) by {
      ParsePrefixOf(m.from, s);
    }
    assert ParsePrefix(s[c..]) == Some(m.to) by {
      ParsePrefixRender(m.to, rest);
    }
    MatchRangeSteps(s, m, b, c);
  }

  /**
   * How the two `\s*` of the pattern fall on a text laid out as
   * `p g1 - g2 q rest`, when the gaps are white space and `q` starts with
   * something else.
   */
  lemma Gaps(p: string, g1: string, g2: string, q: string, rest: string, s: string) returns (b: nat, c: nat)
    requires s == p + g1 + "-" + g2 + q + rest
    requires AllSpace(g1) && AllSpace(g2) && q != [] && !IsSpace(q[0])
    ensures b == |p| + |g1| && c == b + 1 + |g2| && c < |s|
    ensures s[..|p|] == p && s[c..] == q + rest
    ensures SkipSpaces(s, |p|) == b && s[|p|..b] == g1 && s[b] == '-'
    ensures SkipSpaces(s, b + 1) == c && s[b + 1..c] == g2
  {
    var u := q + rest;
    var v := "-" + (g2 + u);
    assert s == p + (g1 + v);
    b := GapBefore(p, g1, v, s);
    c := b + 1 + |g2|;
    assert s[b] == '-' && s[b + 1..] == g2 + u by {
      assert s[b + 1..] == s[b..][1..];
    }
    SkipGap(s, b + 1, c, g2, u);
  }

  /** The gap that follows a prefix `p` of `s`. */
  lemma GapBefore(p: string, gap: string, t: string, s: string) returns (b: nat)
    requires s == p + (gap + t) && AllSpace(gap) && t != [] && !IsSpace(t[0])
    ensures b == |p| + |gap| && b < |s| && s[..|p|] == p
    ensures SkipSpaces(s, |p|) == b && s[|p|..b] == gap && s[b..] == t
  {
    b := |p| + |gap|;
    assert s[|p|..] == gap + t;
    SkipGap(s, |p|, b, gap, t);
  }

  /** Skipping a gap of spaces, from `i` to `j`, that ends before a non-space. */
  lemma SkipGap(s: string, i: nat, j: nat, gap: string, t: string)
    requires i <= |s| && s[i..] == gap + t && AllSpace(gap) && j == i + |gap|
    requires t != [] && !IsSpace(t[0])
    ensures j < |s| && SkipSpaces(s, i) == j && s[i..j] == gap && s[j..] == t
  {
    assert s[i..j] == s[i..][..|gap|] == gap;
    assert s[j..] == s[i..][|gap|..] == t;
    assert s[j] == t[0];
    SkipSpacesOver(s, i, j);
  }

  /** The first `replace` of `cleanStatus`: cut the leading range, if any. */
  function StripLeadingRange(s: string): (r: string)
    ensures |r| <= |s| && r == s[|s| - |r|..]
  {
    match MatchRange(s)
    case Some(m) => s[MatchWidth(m)..]
    case None => s
  }

  /** A leading range is removed and nothing after it is touched. */
  lemma StripRangeText(m: RangeMatch, rest: string)
    requires WellFormedRange(m)
    ensures StripLeadingRange(RangeText(m) + rest) == rest
  {
    MatchRangeText(m, rest);
    RenderWidth(m.from);
    RenderWidth(m.to);
    assert |RangeText(m)| == MatchWidth(m);
  }

  /** A status that does not begin with a range is left as it is. */
  lemma StripWithoutRange(s: string)
    requires forall m :: WellFormedRange(m) ==> !(RangeText(m) <= s)
    ensures StripLeadingRange(s) == s
  {
    if MatchRange(s).Some? {
      MatchRangeSound(s);
    }
  }

  const Phrase: string := "Member Event"

  /** `s` begins with `p`, letter case aside (the `i` flag). */
  predicate StartsWithIgnoringCase(s: string, p: string)
  {
    p == [] || (s != [] && LowerChar(s[0]) == LowerChar(p[0]) && StartsWithIgnoringCase(s[1..], p[1..]))
  }

  predicate StartsWithPhrase(s: string)
  {
    |s| >= |Phrase| && StartsWithIgnoringCase(s, Phrase)
  }

  /** Every text starts with itself. */
  lemma {:induction false} StartsWithItself(p: string, t: string)
    ensures StartsWithIgnoringCase(p + t, p)
  {
    if p != [] {
      assert (p + t)[1..] == p[1..] + t;
      StartsWithItself(p[1..], t);
    }
  }

  /**
   * `replace(/Member Event/gi, '')`: scan left to right, drop each match
   * and resume after it. The text left behind is not scanned again.
   */
  function RemoveMemberEvent(s: string): (r: string)
    ensures |r| <= |s|
  {
    if s == [] then []
    else if StartsWithPhrase(s) then RemoveMemberEvent(s[|Phrase|..])
    else [s[0]] + RemoveMemberEvent(s[1..])
  }

  /** The number of matches the scan of `RemoveMemberEvent` finds. */
  function Matches(s: string): nat
  {
    if s == [] then 0
    else if StartsWithPhrase(s) then 1 + Matches(s[|Phrase|..])
    else Matches(s[1..])
  }

  /** Exactly one phrase's worth of characters goes per match, and nothing else. */
  lemma {:induction false} RemoveMemberEventLength(s: string)
    ensures |RemoveMemberEvent(s)| + |Phrase| * Matches(s) == |s|
  {
    if s == [] {
    } else if StartsWithPhrase(s) {
      RemoveMemberEventLength(s[|Phrase|..]);
    } else {
      RemoveMemberEventLength(s[1..]);
    }
  }

  /** Removal only deletes characters: every character of the result occurs in the input at least as often. */
  lemma {:induction false} RemoveMemberEventKeepsCharacters(s: string)
    ensures multiset(RemoveMemberEvent(s)) <= multiset(s)
  {
    if s == [] {
    } else if StartsWithPhrase(s) {
      RemoveMemberEventKeepsCharacters(s[|Phrase|..]);
      assert multiset(s) == multiset(s[..|Phrase|]) + multiset(s[|Phrase|..]) by {
        assert s == s[..|Phrase|] + s[|Phrase|..];
      }
    } else {
      RemoveMemberEventKeepsCharacters(s[1..]);
      assert multiset(s) == multiset([s[0]]) + multiset(s[1..]) by {
        assert s == [s[0]] + s[1..];
      }
    }
  }

  /** With no occurrence of the phrase, nothing is removed. */
  lemma {:induction false} RemoveMemberEventWithoutPhrase(s: string)
    requires forall i :: 0 <= i < |s| ==> !StartsWithPhrase(s[i..])
    ensures RemoveMemberEvent(s) == s
  {
    if s != [] {
      assert !StartsWithPhrase(s[0..]);
      assert s[0..] == s;
      forall i | 0 <= i < |s| - 1 ensures !StartsWithPhrase(s[1..][i..]) {
        assert s[1..][i..] == s[i + 1..];
      }
      RemoveMemberEventWithoutPhrase(s[1..]);
    }
  }

  /** `cleanStatus`: the result is trimmed and never longer than the input. */
  function CleanStatus(s: string): (r: string)
    ensures IsTrimmed(r)
    ensures |r| <= |s|
  {
    Trim(RemoveMemberEvent(StripLeadingRange(s)))
  }

  /** A status with nothing to clean comes back unchanged. */
  lemma CleanStatusUnchanged(s: string)
    requires IsTrimmed(s)
    requires forall m :: WellFormedRange(m) ==> !(RangeText(m) <= s)
    requires forall i :: 0 <= i < |s| ==> !StartsWithPhrase(s[i..])
    ensures CleanStatus(s) == s
  {
    assert StripLeadingRange(s) == s by {
      StripWithoutRange(s);
    }
    assert RemoveMemberEvent(s) == s by {
      RemoveMemberEventWithoutPhrase(s);
    }
    assert Trim(s) == s by {
      TrimPadded([], s, []);
      assert [] + s + [] == s;
    }
  }

  /** A status that starts with white space does not start with the phrase. */
  lemma SpaceIsNotPhrase(s: string)
    requires s != [] && IsSpace(s[0])
    ensures !StartsWithPhrase(s)
  {
    assert LowerChar(s[0]) == s[0];
    assert LowerChar(Phrase[0]) == 'm';
  }

  /** White space never starts the phrase, so removal passes over it. */
  lemma {:induction false} RemoveAfterSpaces(gap: string, t: string)
    requires AllSpace(gap)
    ensures RemoveMemberEvent(gap + t) == gap + RemoveMemberEvent(t)
  {
    if gap != [] {
      var s := gap + t;
      assert s[0] == gap[0];
      SpaceIsNotPhrase(s);
      assert s[1..] == gap[1..] + t;
      RemoveAfterSpaces(gap[1..], t);
      assert RemoveMemberEvent(s) == [gap[0]] + (gap[1..] + RemoveMemberEvent(t));
      assert gap == [gap[0]] + gap[1..];
    } else {
      assert gap + t == t;
    }
  }

  /** A phrase at the front is dropped and the scan resumes right after it. */
  lemma RemovePhrase(t: string)
    ensures RemoveMemberEvent(Phrase + t) == RemoveMemberEvent(t)
  {
    var s := Phrase + t;
    StartsWithItself(Phrase, t);
    assert s[|Phrase|..] == t;
  }

  /** The phrase between white space is removed and the white space stays. */
  lemma RemoveSpacedPhrase(gap1: string, gap2: string, name: string)
    requires AllSpace(gap1) && AllSpace(gap2)
    requires forall i :: 0 <= i < |name| ==> !StartsWithPhrase(name[i..])
    ensures RemoveMemberEvent(gap1 + (Phrase + (gap2 + name))) == gap1 + (gap2 + name)
  {
    var tail := gap2 + name;
    assert RemoveMemberEvent(tail) == tail by {
      RemoveAfterSpaces(gap2, name);
      RemoveMemberEventWithoutPhrase(name);
    }
    RemovePhrase(tail);
    RemoveAfterSpaces(gap1, Phrase + tail);
  }

  /**
   * A status made of a time range, the phrase between white space, and a
   * name cleans to the name (e.g. `11:30AM - 1:30PM Member Event Smith Family`
   * cleans to `Smith Family`).
   */
  lemma CleanRangedMemberEvent(m: RangeMatch, gap1: string, gap2: string, name: string)
    requires WellFormedRange(m) && AllSpace(gap1) && AllSpace(gap2)
    requires IsTrimmed(name) && forall i :: 0 <= i < |name| ==> !StartsWithPhrase(name[i..])
    ensures CleanStatus(RangeText(m) + (gap1 + (Phrase + (gap2 + name)))) == name
  {
    var rest := gap1 + (Phrase + (gap2 + name));
    StripRangeText(m, rest);
    CleanSpacedMemberEvent(gap1, gap2, name);
  }

  /** What is left after the range: the phrase and the white space go, the name stays. */
  lemma CleanSpacedMemberEvent(gap1: string, gap2: string, name: string)
    requires AllSpace(gap1) && AllSpace(gap2)
    requires IsTrimmed(name) && forall i :: 0 <= i < |name| ==> !StartsWithPhrase(name[i..])
    ensures Trim(RemoveMemberEvent(gap1 + (Phrase + (gap2 + name)))) == name
  {
    RemoveSpacedPhrase(gap1, gap2, name);
    TrimAfterGaps(gap1, gap2, name);
  }

  /** Two runs of white space in front of a trimmed text are trimmed away. */
  lemma TrimAfterGaps(gap1: string, gap2: string, name: string)
    requires AllSpace(gap1) && AllSpace(gap2) && IsTrimmed(name)
    ensures Trim(gap1 + (gap2 + name)) == name
  {
    var spaces := gap1 + gap2;
    assert AllSpace(spaces) by {
      assert forall k :: 0 <= k < |spaces| ==> spaces[k] == (if k < |gap1| then gap1[k] else gap2[k - |gap1|]);
    }
    TrimPadded(spaces, name, []);
    assert spaces + name + [] == gap1 + (gap2 + name);
  }

  /** `normalizeStatus`: the key that decides whether two rows share a run. */
  function NormalizeStatus(s: string): (r: string)
  {
    Lower(CleanStatus(s))
  }

  /** Two statuses have the same key exactly when their cleaned texts agree ignoring case. */
  lemma SameKeyIff(a: string, b: string)
    ensures NormalizeStatus(a) == NormalizeStatus(b)
        <==> EqualsIgnoringCase(CleanStatus(a), CleanStatus(b))
  {
    LowerEqualIff(CleanStatus(a), CleanStatus(b));
  }
}

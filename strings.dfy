/**
 * Character and string helpers with the meaning JavaScript gives them in
 * server.js: the white space that `String.prototype.trim` and the regular
 * expression class `\s` recognise, trimming, and lower-casing (restricted to
 * ASCII letters).
 */
module Strings {

  /** JavaScript's WhiteSpace and LineTerminator code points. */
  predicate IsSpace(c: char)
  {
    || c == '\t' || c == '\n' || c == '\U{000B}' || c == '\U{000C}' || c == '\r'
    || c == ' ' || c == '\U{00A0}' || c == '\U{1680}'
    || ('\U{2000}' <= c <= '\U{200A}')
    || c == '\U{2028}' || c == '\U{2029}' || c == '\U{202F}' || c == '\U{205F}'
    || c == '\U{3000}' || c == '\U{FEFF}'
  }

  predicate AllSpace(s: string)
  {
    forall k :: 0 <= k < |s| ==> IsSpace(s[k])
  }

  /** Neither starts nor ends with white space. */
  predicate IsTrimmed(s: string)
  {
    s == [] || (!IsSpace(s[0]) && !IsSpace(s[|s| - 1]))
  }

  /** The length of the white space run at the start of `s` (a greedy `\s*`). */
  function SpaceRun(s: string): (n: nat)
    ensures n <= |s| && AllSpace(s[..n])
    ensures n < |s| ==> !IsSpace(s[n])
  {
    if |s| > 0 && IsSpace(s[0]) then
      var n := 1 + SpaceRun(s[1..]);
      assert s[..n] == [s[0]] + s[1..][..n - 1];
      n
    else 0
  }

  /** The length of the white space run that ends just before index `j` of `s`. */
  function SpacesBefore(s: string, j: nat): (n: nat)
    requires j <= |s|
    ensures n <= j && (forall k :: j - n <= k < j ==> IsSpace(s[k]))
    ensures n < j ==> !IsSpace(s[j - n - 1])
  {
    if j > 0 && IsSpace(s[j - 1]) then SpacesBefore(s, j - 1) + 1 else 0
  }

  /** The length of the white space run at the end of `s`. */
  function TrailingSpaceRun(s: string): (n: nat)
    ensures n <= |s| && AllSpace(s[|s| - n..])
    ensures n < |s| ==> !IsSpace(s[|s| - n - 1])
  {
    var n := SpacesBefore(s, |s|);
    var tail := s[|s| - n..];
    assert forall k :: 0 <= k < |tail| ==> tail[k] == s[|s| - n + k];
    n
  }

  /** `s` with its leading white space removed. */
  function TrimStart(s: string): (r: string)
  {
    s[SpaceRun(s)..]
  }

  /** `s` with its trailing white space removed. */
  function TrimEnd(s: string): (r: string)
  {
    s[..|s| - TrailingSpaceRun(s)]
  }

  /** `String.prototype.trim`: white space cut from both ends. */
  function Trim(s: string): (r: string)
    ensures IsTrimmed(r)
    ensures |r| <= |s|
  {
    var t := TrimStart(s);
    var r := TrimEnd(t);
    assert r != [] ==> r[0] == t[0] && r[|r| - 1] == t[|r| - 1];
    r
  }

  /** What `Trim` keeps is the middle of `s`, and only white space is cut. */
  lemma TrimSound(s: string) returns (lead: nat)
    ensures lead + |Trim(s)| <= |s|
    ensures Trim(s) == s[lead..lead + |Trim(s)|]
    ensures AllSpace(s[..lead]) && AllSpace(s[lead + |Trim(s)|..])
  {
    lead := SpaceRun(s);
    var t := s[lead..];
    var r := Trim(s);
    assert r == t[..|r|] && AllSpace(t[|r|..]) by {
      var n := TrailingSpaceRun(t);
      assert r == t[..|t| - n];
    }
    assert s[lead..lead + |r|] == t[..|r|];
    assert s[lead + |r|..] == t[|r|..];
  }

  /** Trimming finds exactly the padding: the cut is unique. */
  lemma {:induction false} TrimPadded(lead: string, t: string, trail: string)
    requires AllSpace(lead) && AllSpace(trail) && IsTrimmed(t)
    ensures Trim(lead + t + trail) == t
  {
    var s := lead + t + trail;
    var r := Trim(s);
    var cut := TrimSound(s);
    if t == [] {
      assert AllSpace(s) by {
        forall k | 0 <= k < |s| ensures IsSpace(s[k]) {
          if k < |lead| { assert s[k] == lead[k]; } else { assert s[k] == trail[k - |lead|]; }
        }
      }
    } else {
      assert s[|lead|] == t[0];
      assert s[|lead| + |t| - 1] == t[|t| - 1];
      assert cut == |lead|;
      assert cut + |r| == |lead| + |t|;
      assert r == s[|lead|..|lead| + |t|] == t;
    }
  }

  function LowerChar(c: char): char
  {
    if 'A' <= c <= 'Z' then (c as int + 32) as char else c
  }

  /** `String.prototype.toLowerCase`, restricted to the ASCII letters. */
  function Lower(s: string): (r: string)
    ensures |r| == |s|
    ensures forall k :: 0 <= k < |r| ==> !('A' <= r[k] <= 'Z')
  {
    seq(|s|, k requires 0 <= k < |s| => LowerChar(s[k]))
  }

  /** Equal once ASCII letters are folded to one case. */
  predicate EqualsIgnoringCase(a: string, b: string)
  {
    |a| == |b| && forall k :: 0 <= k < |a| ==> LowerChar(a[k]) == LowerChar(b[k])
  }

  /** Two strings lower-case to the same string exactly when they agree ignoring case. */
  lemma LowerEqualIff(a: string, b: string)
    ensures Lower(a) == Lower(b) <==> EqualsIgnoringCase(a, b)
  {
    if Lower(a) == Lower(b) {
      forall k | 0 <= k < |a| ensures LowerChar(a[k]) == LowerChar(b[k]) {
        assert Lower(a)[k] == Lower(b)[k];
      }
    }
  }
}

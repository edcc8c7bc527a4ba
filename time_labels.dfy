/**
 * Time labels of the schedule table (server.js:198-200 and the time parts of
 * the range pattern at server.js:205). A label is an hour 1-12, written with
 * an optional leading `0` when it is below 10, a `:`, two minute digits 00-59
 * and a meridiem `AM`/`PM` in any letter case. Labels are only ever tested and
 * compared as text; nothing here turns them into a time of day.
 */
module TimeLabels {
  import opened Wrappers

  /** The parts of one written label; `meridiem` keeps the letters as written. */
  datatype Clock = Clock(hour: nat, padded: bool, minute: nat, meridiem: string)

  predicate WellFormed(c: Clock)
  {
    && 1 <= c.hour <= 12
    && (c.padded ==> c.hour <= 9)
    && c.minute <= 59
    && |c.meridiem| == 2 && IsMeridiemLetter(c.meridiem[0]) && IsMLetter(c.meridiem[1])
  }

  /** The first letter of `AM`/`PM` in either case. */
  predicate IsMeridiemLetter(c: char)
  {
    c == 'A' || c == 'a' || c == 'P' || c == 'p'
  }

  predicate IsMLetter(c: char)
  {
    c == 'M' || c == 'm'
  }

  predicate IsDigit(c: char)
  {
    '0' <= c <= '9'
  }

  function Digit(n: nat): (c: char)
    requires n <= 9
    ensures IsDigit(c)
  {
    (48 + n) as char
  }

  function DigitValue(c: char): (n: nat)
    requires IsDigit(c)
    ensures n <= 9
  {
    c as int - 48
  }

  /** The text of a label, as the table would show it. */
  function Render(c: Clock): (r: string)
    requires WellFormed(c)
  {
    (if c.padded then "0" else "")
    + (if c.hour <= 9 then [Digit(c.hour)] else ['1', Digit(c.hour - 10)])
    + ":" + [Digit(c.minute / 10), Digit(c.minute % 10)] + c.meridiem
  }

  /** The number of characters of a written label. */
  function Width(c: Clock): nat
  {
    if c.padded || c.hour >= 10 then 7 else 6
  }

  lemma RenderWidth(c: Clock)
    requires WellFormed(c)
    ensures |Render(c)| == Width(c)
  {
  }

  /**
   * Reads a label at the start of `s`, as the unanchored pattern
   * `([0]?[1-9]|1[0-2]):[0-5][0-9](AM|PM)` with the `i` flag does. The hour
   * alternatives cannot both succeed (the `:` sits at a different place), so
   * a match, when there is one, is unique.
   */
  function ParsePrefix(s: string): (r: Option<Clock>)
    ensures r.Some? ==> WellFormed(r.value) && Width(r.value) <= |s|
  {
    var (hour, padded, k) :=
      if |s| >= 2 && '1' <= s[0] <= '9' && s[1] == ':' then (DigitValue(s[0]), false, 2)
      else if |s| >= 3 && s[0] == '0' && '1' <= s[1] <= '9' && s[2] == ':' then (DigitValue(s[1]), true, 3)
      else if |s| >= 3 && s[0] == '1' && '0' <= s[1] <= '2' && s[2] == ':' then (10 + DigitValue(s[1]), false, 3)
      else (0, false, 0);
    if k == 0 || |s| < k + 4 then None
    else if '0' <= s[k] <= '5' && IsDigit(s[k + 1]) && IsMeridiemLetter(s[k + 2]) && IsMLetter(s[k + 3]) then
      Some(Clock(hour, padded, 10 * DigitValue(s[k]) + DigitValue(s[k + 1]), s[k + 2..k + 4]))
    else None
  }

  /** What is read is exactly the label written at the start of `s`. */
  lemma ParsePrefixSound(s: string)
    requires ParsePrefix(s).Some?
    ensures var c := ParsePrefix(s).value; WellFormed(c) && Render(c) == s[..Width(c)]
  {
  }

  /** Every well-formed label is read back, whatever follows it. */
  lemma ParsePrefixRender(c: Clock, rest: string)
    requires WellFormed(c)
    ensures ParsePrefix(Render(c) + rest) == Some(c)
  {
    var s := Render(c) + rest;
    var k := if c.padded || c.hour >= 10 then 3 else 2;
    assert s[k..k + 4] == [Digit(c.minute / 10), Digit(c.minute % 10)] + c.meridiem;
  }

  /** A label is read from any text that begins with it. */
  lemma ParsePrefixOf(c: Clock, s: string)
    requires WellFormed(c) && Width(c) <= |s| && s[..Width(c)] == Render(c)
    ensures ParsePrefix(s) == Some(c)
  {
    RenderWidth(c);
    ParsePrefixRender(c, s[Width(c)..]);
    assert s == Render(c) + s[Width(c)..];
  }

  /** `isValidTime`: the whole string is one label (the pattern is anchored at both ends). */
  predicate IsValidTime(s: string)
  {
    match ParsePrefix(s)
    case Some(c) => Width(c) == |s|
    case None => false
  }

  /** `isValidTime` holds exactly of the rendered well-formed labels. */
  lemma IsValidTimeIff(s: string)
    ensures IsValidTime(s) <==> exists c :: WellFormed(c) && Render(c) == s
  {
    if IsValidTime(s) {
      ParsePrefixSound(s);
      var c := ParsePrefix(s).value;
      assert Render(c) == s;
    }
    if c :| WellFormed(c) && Render(c) == s {
      ParsePrefixRender(c, []);
      assert Render(c) + [] == s;
    }
  }

  /** A label never starts with white space or a dash: it starts with a digit. */
  lemma RenderStartsWithDigit(c: Clock)
    requires WellFormed(c)
    ensures |Render(c)| >= 6 && IsDigit(Render(c)[0])
  {
  }

  /** The closing time used by the last-entry fallback is itself a label. */
  lemma ClosingTimeIsValid()
    ensures IsValidTime("9:00PM")
  {
    var c := Clock(9, false, 0, "PM");
    assert Render(c) == "9:00PM";
    ParsePrefixRender(c, []);
    assert Render(c) + [] == "9:00PM";
  }
}

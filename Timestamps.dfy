/** The turn timestamp of the window entry point, the clock reading written
    by strftime("%Y/%m/%d-%H:%M:%S") (src/chat_with_llm.py:129), together
    with the reading of such a string back into its fields. */
module Timestamps {
  import opened Wrappers

  /** A clock reading as Python's datetime holds it. */
  datatype DateTime = DateTime(year: nat, month: nat, day: nat, hour: nat, minute: nat, second: nat)

  predicate IsLeapYear(y: nat) {
    (y % 4 == 0 && y % 100 != 0) || y % 400 == 0
  }

  function DaysInMonth(y: nat, m: nat): nat
    requires 1 <= m <= 12
  {
    if m == 2 then (if IsLeapYear(y) then 29 else 28)
    else if m == 4 || m == 6 || m == 9 || m == 11 then 30
    else 31
  }

  /** The readings a datetime can hold (years 1 to 9999). */
  predicate Valid(t: DateTime) {
    1 <= t.year <= 9999 && 1 <= t.month <= 12 && 1 <= t.day <= DaysInMonth(t.year, t.month)
    && t.hour < 24 && t.minute < 60 && t.second < 60
  }

  predicate IsDigit(c: char) {
    '0' <= c <= '9'
  }

  function Pow10(w: nat): (p: nat)
    ensures p >= 1
  {
    if w == 0 then 1 else 10 * Pow10(w - 1)
  }

  /** n written in decimal with exactly w digits, zero-padded on the left. */
  function Digits(n: nat, w: nat): (s: string)
    requires n < Pow10(w)
    ensures |s| == w
    ensures forall i :: 0 <= i < |s| ==> IsDigit(s[i])
  {
    if w == 0 then [] else Digits(n / 10, w - 1) + [(48 + n % 10) as char]
  }

  /** The number a string of decimal digits denotes. */
  function Value(s: string): (n: nat)
    requires forall i :: 0 <= i < |s| ==> IsDigit(s[i])
    ensures n < Pow10(|s|)
  {
    if s == [] then 0
    else
      var d := s[|s| - 1] as int - 48;
      assert IsDigit(s[|s| - 1]);
      Value(s[..|s| - 1]) * 10 + d
  }

  lemma {:induction false} ValueOfDigits(n: nat, w: nat)
    requires n < Pow10(w)
    ensures Value(Digits(n, w)) == n
  {
    if w > 0 {
      var s := Digits(n, w);
      assert s[..|s| - 1] == Digits(n / 10, w - 1);
      ValueOfDigits(n / 10, w - 1);
    }
  }

  lemma {:induction false} DigitsOfValue(s: string)
    requires forall i :: 0 <= i < |s| ==> IsDigit(s[i])
    ensures Digits(Value(s), |s|) == s
  {
    if s != [] {
      var init := s[..|s| - 1];
      DigitsOfValue(init);
      var n := Value(s);
      assert n / 10 == Value(init);
      assert s == init + [s[|s| - 1]];
    }
  }

  /** The timestamp as the log line carries it, "YYYY/MM/DD-HH:MM:SS". */
  function Format(t: DateTime): (s: string)
    requires Valid(t)
    ensures |s| == 19
    ensures s[4] == '/' && s[7] == '/' && s[10] == '-' && s[13] == ':' && s[16] == ':'
    ensures forall i :: 0 <= i < 19 && i !in {4, 7, 10, 13, 16} ==> IsDigit(s[i])
    ensures '\n' !in s
  {
    Assemble(Digits(t.year, 4), Digits(t.month, 2), Digits(t.day, 2),
             Digits(t.hour, 2), Digits(t.minute, 2), Digits(t.second, 2))
  }

  /** The six fields joined by the separators of the format. */
  function Assemble(year: string, month: string, day: string, hour: string, minute: string, second: string): string {
    year + "/" + month + "/" + day + "-" + hour + ":" + minute + ":" + second
  }

  /** A string laid out like a timestamp is the assembly of its six fields. */
  lemma AssembleSlices(s: string)
    requires |s| == 19 && s[4] == '/' && s[7] == '/' && s[10] == '-' && s[13] == ':' && s[16] == ':'
    ensures Assemble(s[0..4], s[5..7], s[8..10], s[11..13], s[14..16], s[17..19]) == s
  {
    assert s[0..4] + "/" == s[0..5];
    assert s[0..5] + s[5..7] == s[0..7];
    assert s[0..7] + "/" == s[0..8];
    assert s[0..8] + s[8..10] == s[0..10];
    assert s[0..10] + "-" == s[0..11];
    assert s[0..11] + s[11..13] == s[0..13];
    assert s[0..13] + ":" == s[0..14];
    assert s[0..14] + s[14..16] == s[0..16];
    assert s[0..16] + ":" == s[0..17];
    assert s[0..17] + s[17..19] == s;
  }

  predicate DigitsAt(s: string, lo: nat, hi: nat)
    requires lo <= hi <= |s|
  {
    forall i :: lo <= i < hi ==> IsDigit(s[i])
  }

  /** Reads a "YYYY/MM/DD-HH:MM:SS" string back into a valid reading, if it is one. */
  function Parse(s: string): (r: Option<DateTime>)
    ensures r.Some? ==> Valid(r.value)
  {
    if |s| == 19 && s[4] == '/' && s[7] == '/' && s[10] == '-' && s[13] == ':' && s[16] == ':'
       && DigitsAt(s, 0, 4) && DigitsAt(s, 5, 7) && DigitsAt(s, 8, 10)
       && DigitsAt(s, 11, 13) && DigitsAt(s, 14, 16) && DigitsAt(s, 17, 19)
    then
      var t := DateTime(Value(s[0..4]), Value(s[5..7]), Value(s[8..10]),
                        Value(s[11..13]), Value(s[14..16]), Value(s[17..19]));
      if Valid(t) then Some(t) else None
    else None
  }

  /** Every reading is recovered from its timestamp... */
  lemma ParseFormat(t: DateTime)
    requires Valid(t)
    ensures Parse(Format(t)) == Some(t)
  {
    var s := Format(t);
    assert s[0..4] == Digits(t.year, 4);
    assert s[5..7] == Digits(t.month, 2);
    assert s[8..10] == Digits(t.day, 2);
    assert s[11..13] == Digits(t.hour, 2);
    assert s[14..16] == Digits(t.minute, 2);
    assert s[17..19] == Digits(t.second, 2);
    ValueOfDigits(t.year, 4);
    ValueOfDigits(t.month, 2);
    ValueOfDigits(t.day, 2);
    ValueOfDigits(t.hour, 2);
    ValueOfDigits(t.minute, 2);
    ValueOfDigits(t.second, 2);
  }

  /** ...and every string Parse accepts is the timestamp of what it reads. */
  lemma FormatParse(s: string)
    requires Parse(s).Some?
    ensures Format(Parse(s).value) == s
  {
    DigitsOfValue(s[0..4]);
    DigitsOfValue(s[5..7]);
    DigitsOfValue(s[8..10]);
    DigitsOfValue(s[11..13]);
    DigitsOfValue(s[14..16]);
    DigitsOfValue(s[17..19]);
    AssembleSlices(s);
  }
}

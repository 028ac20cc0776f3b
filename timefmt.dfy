/** format_time: a wall-clock reading rendered as the zero-padded string "HH:MM:SS",
    together with the parser that inverts it. */
module TimeFormat {
  import opened Wrappers
  import Font

  /** The fields of a datetime that the clock reads. */
  datatype Time = Time(hour: nat, minute: nat, second: nat)

  /** What a datetime guarantees of its fields. */
  predicate ValidTime(t: Time) {
    t.hour < 24 && t.minute < 60 && t.second < 60
  }

  function DigitChar(d: nat): (c: char)
    requires d < 10
    ensures Font.IsDigit(c) && DigitValue(c) == d
  {
    (d + '0' as int) as char
  }

  function DigitValue(c: char): nat
    requires Font.IsDigit(c)
  {
    c as int - '0' as int
  }

  /** `{n:02d}` for a value below 100: the two decimal digits of n, tens first. */
  function Pad2(n: nat): (s: string)
    requires n < 100
    ensures |s| == 2 && Font.IsDigit(s[0]) && Font.IsDigit(s[1])
    ensures 10 * DigitValue(s[0]) + DigitValue(s[1]) == n
  {
    [DigitChar(n / 10), DigitChar(n % 10)]
  }

  /** The shape of every string format_time produces: eight characters, a colon at
      indices 2 and 5 and a decimal digit everywhere else. */
  predicate IsTimeString(s: string) {
    |s| == 8 &&
    forall i :: 0 <= i < 8 ==> if i == 2 || i == 5 then s[i] == ':' else Font.IsDigit(s[i])
  }

  /** The value of the two-digit field of a time string starting at index i. */
  function Field(s: string, i: nat): nat
    requires IsTimeString(s) && i in {0, 3, 6}
  {
    10 * DigitValue(s[i]) + DigitValue(s[i + 1])
  }

  /** format_time: "HH:MM:SS" with each field zero-padded to two digits. */
  function FormatTime(t: Time): (s: string)
    requires ValidTime(t)
    ensures IsTimeString(s)
    ensures Field(s, 0) == t.hour && Field(s, 3) == t.minute && Field(s, 6) == t.second
  {
    Pad2(t.hour) + ":" + Pad2(t.minute) + ":" + Pad2(t.second)
  }

  /** Reads an "HH:MM:SS" string back into a time; None when the shape or a field's
      range is wrong. */
  function ParseTime(s: string): (r: Option<Time>)
    ensures r.Some? ==> IsTimeString(s) && ValidTime(r.value)
  {
    if !IsTimeString(s) then None
    else
      var t := Time(Field(s, 0), Field(s, 3), Field(s, 6));
      if ValidTime(t) then Some(t) else None
  }

  /** Parsing a formatted time gives the time back. */
  lemma ParseFormat(t: Time)
    requires ValidTime(t)
    ensures ParseTime(FormatTime(t)) == Some(t)
  {
  }

  /** A string that parses is exactly the formatting of what it parses to, so
      format_time is a bijection between valid times and valid time strings. */
  lemma FormatParse(s: string)
    requires ParseTime(s).Some?
    ensures FormatTime(ParseTime(s).value) == s
  {
    var t := ParseTime(s).value;
    var f := FormatTime(t);
    forall i | 0 <= i < 8
      ensures f[i] == s[i]
    {
      if i != 2 && i != 5 {
        var j := if i < 2 then 0 else if i < 5 then 3 else 6;
        SameField(f, s, j);
      }
    }
  }

  /** Two time strings with a field of the same value agree on both of its digits. */
  lemma SameField(f: string, s: string, j: nat)
    requires IsTimeString(f) && IsTimeString(s) && j in {0, 3, 6}
    requires Field(f, j) == Field(s, j)
    ensures f[j] == s[j] && f[j + 1] == s[j + 1]
  {
    DigitDeterminesChar(f[j], s[j]);
    DigitDeterminesChar(f[j + 1], s[j + 1]);
  }

  lemma DigitDeterminesChar(a: char, b: char)
    requires Font.IsDigit(a) && Font.IsDigit(b) && DigitValue(a) == DigitValue(b)
    ensures a == b
  {
  }

  /** Distinct times are shown as distinct strings. */
  lemma FormatInjective(t1: Time, t2: Time)
    requires ValidTime(t1) && ValidTime(t2) && FormatTime(t1) == FormatTime(t2)
    ensures t1 == t2
  {
    ParseFormat(t1);
    ParseFormat(t2);
  }

  /** Zero padding: 7:05:09 is "07:05:09", midnight is "00:00:00", and the last second
      of the day is "23:59:59". */
  lemma FormatExamples()
    ensures FormatTime(Time(7, 5, 9)) == "07:05:09"
    ensures FormatTime(Time(0, 0, 0)) == "00:00:00"
    ensures FormatTime(Time(23, 59, 59)) == "23:59:59"
  {
  }
}

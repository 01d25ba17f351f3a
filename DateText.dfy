/** The anchor text format "%Y-%m-%d %H:%M" in its zero-padded form:
    exactly sixteen characters, "YYYY-MM-DD HH:MM", naming a real date and time. */
module DateText {
  import opened Wrappers
  import opened Calendar

  predicate IsDigit(c: char)
  {
    '0' <= c <= '9'
  }

  function DigitValue(c: char): (n: int)
    requires IsDigit(c)
    ensures 0 <= n < 10
  {
    c as int - '0' as int
  }

  function DigitChar(n: int): (c: char)
    requires 0 <= n < 10
    ensures IsDigit(c) && DigitValue(c) == n
  {
    ('0' as int + n) as char
  }

  /** The number written by the two digits at s[i], s[i + 1]. */
  function Two(s: string, i: nat): (n: int)
    requires i + 2 <= |s| && IsDigit(s[i]) && IsDigit(s[i + 1])
    ensures 0 <= n < 100
  {
    10 * DigitValue(s[i]) + DigitValue(s[i + 1])
  }

  /** The number written by the four digits at s[i] .. s[i + 3]. */
  function Four(s: string, i: nat): (n: int)
    requires i + 4 <= |s|
    requires IsDigit(s[i]) && IsDigit(s[i + 1]) && IsDigit(s[i + 2]) && IsDigit(s[i + 3])
    ensures 0 <= n < 10000
  {
    100 * Two(s, i) + Two(s, i + 2)
  }

  /** n written with two digits, a leading zero when n < 10 (`%02d`). */
  function Pad2(n: int): (s: string)
    requires 0 <= n < 100
    ensures |s| == 2 && IsDigit(s[0]) && IsDigit(s[1]) && Two(s, 0) == n
  {
    [DigitChar(n / 10), DigitChar(n % 10)]
  }

  /** n written with four digits, with leading zeros (`%04d`). */
  function Pad4(n: int): (s: string)
    requires 0 <= n < 10000
    ensures |s| == 4 && forall i :: 0 <= i < 4 ==> IsDigit(s[i])
    ensures Four(s, 0) == n
  {
    var hi, lo := Pad2(n / 100), Pad2(n % 100);
    assert Two(hi + lo, 0) == Two(hi, 0);
    assert Two(hi + lo, 2) == Two(lo, 0);
    hi + lo
  }

  /** The text "YYYY-MM-DD HH:MM" of a timestamp. */
  function Format(t: DateTime): (s: string)
    requires ValidDateTime(t)
    ensures |s| == 16
  {
    Pad4(t.year) + "-" + Pad2(t.month) + "-" + Pad2(t.day) + " " + Pad2(t.hour) + ":" + Pad2(t.minute)
  }

  /** The sixteen-character shape, separators and digits, without the range checks. */
  predicate HasShape(s: string)
  {
    && |s| == 16
    && s[4] == '-' && s[7] == '-' && s[10] == ' ' && s[13] == ':'
    && IsDigit(s[0]) && IsDigit(s[1]) && IsDigit(s[2]) && IsDigit(s[3])
    && IsDigit(s[5]) && IsDigit(s[6]) && IsDigit(s[8]) && IsDigit(s[9])
    && IsDigit(s[11]) && IsDigit(s[12]) && IsDigit(s[14]) && IsDigit(s[15])
  }

  /** `datetime.strptime(s, "%Y-%m-%d %H:%M")` in its zero-padded form: None where
      Python raises ValueError (wrong shape, or a date or time that does not exist). */
  function Parse(s: string): (r: Option<DateTime>)
    ensures r.Some? ==> ValidDateTime(r.value) && Format(r.value) == s
  {
    if !HasShape(s) then None
    else
      var t := DateTime(Four(s, 0), Two(s, 5), Two(s, 8), Two(s, 11), Two(s, 14));
      if ValidDateTime(t) then
        FormatOfFields(s, t);
        Some(t)
      else None
  }

  lemma FormatOfFields(s: string, t: DateTime)
    requires HasShape(s) && ValidDateTime(t)
    requires t == DateTime(Four(s, 0), Two(s, 5), Two(s, 8), Two(s, 11), Two(s, 14))
    ensures Format(t) == s
  {
    var f := Format(t);
    PadDigits2(s, 5);
    PadDigits2(s, 8);
    PadDigits2(s, 11);
    PadDigits2(s, 14);
    PadDigits4(s, 0);
    assert forall i :: 0 <= i < 16 ==> f[i] == s[i];
  }

  /** Two digits read and padded again are the same two characters. */
  lemma PadDigits2(s: string, i: nat)
    requires i + 2 <= |s| && IsDigit(s[i]) && IsDigit(s[i + 1])
    ensures Pad2(Two(s, i)) == s[i..i + 2]
  {
  }

  /** Four digits read and padded again are the same four characters. */
  lemma PadDigits4(s: string, i: nat)
    requires i + 4 <= |s|
    requires IsDigit(s[i]) && IsDigit(s[i + 1]) && IsDigit(s[i + 2]) && IsDigit(s[i + 3])
    ensures Pad4(Four(s, i)) == s[i..i + 4]
  {
  }

  /** Every real timestamp's text parses back to that timestamp. */
  lemma ParseFormat(t: DateTime)
    requires ValidDateTime(t)
    ensures Parse(Format(t)) == Some(t)
  {
  }

  /** Text is accepted exactly when it is the text of a real timestamp. */
  lemma ParseIff(s: string, t: DateTime)
    ensures Parse(s) == Some(t) <==> ValidDateTime(t) && Format(t) == s
  {
  }

  /** 29 February 2023 does not exist: 2023 is not a leap year. */
  lemma RejectsFebruary29In2023()
    ensures Parse("2023-02-29 10:00") == None
  {
    var s := "2023-02-29 10:00";
    assert HasShape(s);
    assert Four(s, 0) == 2023 && Two(s, 5) == 2 && Two(s, 8) == 29;
  }

  /** 24:00 is not a time of day. */
  lemma RejectsHour24()
    ensures Parse("2024-06-01 24:00") == None
  {
  }

  /** 29 February 2024 exists: 2024 is a leap year. */
  lemma AcceptsFebruary29In2024()
    ensures Parse("2024-02-29 10:00") == Some(DateTime(2024, 2, 29, 10, 0))
  {
    var t := DateTime(2024, 2, 29, 10, 0);
    assert Format(t) == "2024-02-29 10:00";
    ParseFormat(t);
  }
}

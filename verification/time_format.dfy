/**
  The `formatTime` helper of the coffee-mug timer: a number of seconds is shown
  as `MM:SS`, minutes and seconds each printed with `%02d` (at least two
  decimal digits, zero-padded on the left).

  The helper is only ever applied to integral, non-negative values, so it is
  modelled over `nat`. `ParseTime` is its inverse and serves as the
  independent reading of what a rendered string denotes.
 */
module TimeFormat {

  datatype Option<T> = None | Some(value: T)

  predicate IsDigit(c: char) {
    '0' <= c <= '9'
  }

  predicate AllDigits(s: string) {
    forall i :: 0 <= i < |s| ==> IsDigit(s[i])
  }

  function DigitValue(c: char): (d: nat)
    requires IsDigit(c)
    ensures d < 10
  {
    c as int - '0' as int
  }

  /** The character for a single decimal digit. */
  function DigitChar(d: nat): (c: char)
    requires d < 10
    ensures IsDigit(c) && DigitValue(c) == d
  {
    ('0' as int + d) as char
  }

  /** The number a string of decimal digits denotes (most significant first). */
  function DecimalValue(s: string): nat
    requires AllDigits(s)
  {
    if |s| == 0 then 0
    else DecimalValue(s[..|s| - 1]) * 10 + DigitValue(s[|s| - 1])
  }

  /** A digit string with no redundant leading zero. */
  predicate Canonical(s: string) {
    |s| >= 1 && AllDigits(s) && (s[0] != '0' || |s| == 1)
  }

  /** `%d`: the shortest decimal rendering of `n`. */
  function Digits(n: nat): (r: string)
    ensures Canonical(r)
    ensures DecimalValue(r) == n
    ensures |r| == 1 <==> n < 10
  {
    if n < 10 then [DigitChar(n)]
    else
      var front := Digits(n / 10);
      var r := front + [DigitChar(n % 10)];
      assert r[..|r| - 1] == front;
      r
  }

  /** `%02d`: the decimal rendering of `n`, zero-padded to at least two characters. */
  function Pad2(n: nat): (r: string)
    ensures AllDigits(r) && |r| >= 2
    ensures DecimalValue(r) == n
    ensures |r| == 2 <==> n < 100
    ensures n >= 10 ==> r[0] != '0'
  {
    if n < 10 then
      var r := ['0', DigitChar(n)];
      TwoDigitValue('0', DigitChar(n));
      r
    else
      var r := Digits(n);
      TwoDigitsBelowHundred(r);
      r
  }

  /** The minutes field of an `M..M:SS` string. */
  function MinutesField(t: string): string
    requires |t| >= 3
  {
    t[..|t| - 3]
  }

  /** The seconds field of an `M..M:SS` string. */
  function SecondsField(t: string): string
    requires |t| >= 2
  {
    t[|t| - 2..]
  }

  /** Shape of `formatTime`'s output: a minutes field, a colon, a two-digit seconds field. */
  predicate TimeShaped(t: string) {
    && |t| >= 5
    && t[|t| - 3] == ':'
    && AllDigits(MinutesField(t))
    && AllDigits(SecondsField(t))
  }

  /**
    `formatTime(seconds)` for integral `seconds >= 0`: the minutes field reads
    `seconds / 60`, the seconds field reads `seconds % 60`, so the two fields
    together denote `seconds` again; exactly five characters below 100 minutes.
   */
  function FormatTime(seconds: nat): (r: string)
    ensures TimeShaped(r)
    ensures DecimalValue(MinutesField(r)) * 60 + DecimalValue(SecondsField(r)) == seconds
    ensures DecimalValue(SecondsField(r)) < 60
    ensures |r| == 5 <==> seconds < 6000
  {
    var minutes := Pad2(seconds / 60);
    var secs := Pad2(seconds % 60);
    var r := minutes + ":" + secs;
    assert MinutesField(r) == minutes;
    assert SecondsField(r) == secs;
    r
  }

  /**
    Reads a rendered time back: accepts exactly the strings `FormatTime`
    produces (a canonical `%02d` minutes field, a colon, two seconds digits
    below 60) and yields the number of seconds they denote.
   */
  function ParseTime(t: string): (r: Option<nat>)
    ensures r.Some? ==> TimeShaped(t) && DecimalValue(SecondsField(t)) < 60
  {
    if TimeShaped(t)
       && DecimalValue(SecondsField(t)) < 60
       && (|MinutesField(t)| == 2 || MinutesField(t)[0] != '0')
    then Some(DecimalValue(MinutesField(t)) * 60 + DecimalValue(SecondsField(t)))
    else None
  }

  // ---------------------------------------------------------------------------
  // Digit-string lemmas

  lemma TwoDigitsBelowHundred(r: string)
    requires Canonical(r) && |r| >= 2
    ensures |r| == 2 <==> DecimalValue(r) < 100
  {
    var p := r[..|r| - 1];
    assert p[0] == r[0];
    LeadingDigitBound(p);
    if |r| > 2 {
      var q := p[..|p| - 1];
      assert q[0] == r[0];
      LeadingDigitBound(q);
      assert DecimalValue(p) >= 10;
    }
  }

  /** A digit string is worth at least its leading digit. */
  lemma {:induction false} LeadingDigitBound(s: string)
    requires AllDigits(s) && |s| >= 1
    ensures DecimalValue(s) >= DigitValue(s[0])
  {
    if |s| > 1 {
      var p := s[..|s| - 1];
      assert p[0] == s[0];
      LeadingDigitBound(p);
    }
  }

  lemma TwoDigitValue(a: char, b: char)
    requires IsDigit(a) && IsDigit(b)
    ensures DecimalValue([a, b]) == DigitValue(a) * 10 + DigitValue(b)
  {
    var s := [a, b];
    assert s[..1] == [a];
    assert [a][..0] == [];
    assert DecimalValue([a]) == DigitValue(a);
  }

  lemma DigitCharOfValue(c: char)
    requires IsDigit(c)
    ensures DigitChar(DigitValue(c)) == c
  {
  }

  /** `Digits` is the only canonical rendering of a number. */
  lemma {:induction false} DigitsOfCanonical(s: string)
    requires Canonical(s)
    ensures Digits(DecimalValue(s)) == s
  {
    if |s| == 1 {
      DigitCharOfValue(s[0]);
    } else {
      var p := s[..|s| - 1];
      var last := s[|s| - 1];
      assert p[0] == s[0];
      assert Canonical(p);
      LeadingDigitBound(p);
      var v := DecimalValue(s);
      assert v == DecimalValue(p) * 10 + DigitValue(last);
      assert v / 10 == DecimalValue(p) && v % 10 == DigitValue(last);
      DigitsOfCanonical(p);
      DigitCharOfValue(last);
      assert s == p + [last];
    }
  }

  /** A `%02d` field is recovered from its value. */
  lemma Pad2OfField(s: string)
    requires AllDigits(s) && (|s| == 2 || (|s| > 2 && s[0] != '0'))
    ensures Pad2(DecimalValue(s)) == s
  {
    var v := DecimalValue(s);
    if s[0] == '0' {
      assert s == ['0', s[1]];
      TwoDigitValue('0', s[1]);
      DigitCharOfValue(s[1]);
    } else {
      DigitsOfCanonical(s);
      assert |Digits(v)| >= 2;
    }
  }

  // ---------------------------------------------------------------------------
  // formatTime properties

  /** Reading back what was rendered gives the original number of seconds. */
  lemma ParseFormatRoundTrip(seconds: nat)
    ensures ParseTime(FormatTime(seconds)) == Some(seconds)
  {
    var r := FormatTime(seconds);
    var m := MinutesField(r);
    assert |m| == 2 || m[0] != '0' by {
      assert m == Pad2(seconds / 60);
      if |m| > 2 {
        DigitsOfCanonical(Digits(seconds / 60));
      }
    }
  }

  /** Every string the parser accepts is exactly the rendering of the value it reads. */
  lemma FormatParseRoundTrip(t: string)
    requires ParseTime(t).Some?
    ensures FormatTime(ParseTime(t).value) == t
  {
    var m := MinutesField(t);
    var sec := SecondsField(t);
    var v := DecimalValue(m) * 60 + DecimalValue(sec);
    assert v / 60 == DecimalValue(m) && v % 60 == DecimalValue(sec);
    Pad2OfField(m);
    Pad2OfField(sec);
    assert t == m + ":" + sec;
  }

  /** Different numbers of seconds are displayed differently. */
  lemma FormatTimeInjective(a: nat, b: nat)
    requires FormatTime(a) == FormatTime(b)
    ensures a == b
  {
    ParseFormatRoundTrip(a);
    ParseFormatRoundTrip(b);
  }

  /** Sample renderings. */
  lemma FormatTimeExamples()
    ensures FormatTime(0) == "00:00"
    ensures FormatTime(59) == "00:59"
    ensures FormatTime(60) == "01:00"
    ensures FormatTime(65) == "01:05"
    ensures FormatTime(6000) == "100:00"
  {
    assert Pad2(0) == "00";
    assert Pad2(1) == "01";
    assert Pad2(5) == "05";
    assert Pad2(59) == "59" by {
      assert Digits(5) == "5";
      assert Digits(59) == Digits(5) + [DigitChar(9)];
    }
    assert Pad2(100) == "100" by {
      assert Digits(1) == "1";
      assert Digits(10) == Digits(1) + [DigitChar(0)];
      assert Digits(100) == Digits(10) + [DigitChar(0)];
    }
  }
}

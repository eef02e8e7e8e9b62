/** `format_length`: a media duration in whole seconds shown as MM:SS, or
    HH:MM:SS once it reaches an hour, with "-" for no duration. */
module Duration {
  import opened Text

  datatype Option<T> = None | Some(value: T)

  function DigitChar(d: nat): char
    requires d < 10
  {
    ('0' as int + d) as char
  }

  predicate IsDigit(c: char) {
    '0' <= c <= '9'
  }

  predicate Digits(s: string) {
    forall i :: 0 <= i < |s| ==> IsDigit(s[i])
  }

  /** `str(n)` for a natural number. */
  function Decimal(n: nat): (r: string)
    ensures |r| >= 1
  {
    if n < 10 then [DigitChar(n)] else Decimal(n / 10) + [DigitChar(n % 10)]
  }

  /** `f"{n:02}"`: at least two digits, zero-padded on the left. */
  function Pad2(n: nat): (r: string)
    ensures |r| >= 2
  {
    if n < 10 then "0" + Decimal(n) else Decimal(n)
  }

  /** `int(s)` for a non-empty string of ASCII digits; None otherwise. */
  function ParseDecimal(s: string): (r: Option<nat>)
  {
    if s == [] then None
    else if !IsDigit(s[|s| - 1]) then None
    else
      var d := s[|s| - 1] as int - '0' as int;
      if |s| == 1 then Some(d)
      else match ParseDecimal(s[..|s| - 1])
        case None => None
        case Some(v) => Some(v * 10 + d)
  }

  lemma {:induction false} DecimalRoundTrip(n: nat)
    ensures ParseDecimal(Decimal(n)) == Some(n)
    ensures forall i :: 0 <= i < |Decimal(n)| ==> IsDigit(Decimal(n)[i])
  {
    if n >= 10 {
      DecimalRoundTrip(n / 10);
      var s := Decimal(n);
      assert s[..|s| - 1] == Decimal(n / 10);
    }
  }

  lemma Pad2RoundTrip(n: nat)
    ensures ParseDecimal(Pad2(n)) == Some(n)
    ensures ':' !in Pad2(n)
    ensures Digits(Pad2(n))
    ensures n < 100 ==> |Pad2(n)| == 2
  {
    DecimalRoundTrip(n);
    if n < 10 {
      var s := Pad2(n);
      assert s[..1] == "0";
    }
  }

  /** The hours, minutes and seconds `format_length` computes with `//` and
      `%` (floor division, as Dafny's on these non-negative operands). */
  function Components(seconds: int): (r: (nat, nat, nat))
    requires seconds > 0
    ensures r.1 < 60 && r.2 < 60
    ensures r.0 * 3600 + r.1 * 60 + r.2 == seconds
  {
    (seconds / 3600, (seconds % 3600) / 60, seconds % 60)
  }

  /** `format_length(seconds)`. */
  function FormatLength(seconds: int): (r: string)
    ensures r == "-" <==> seconds <= 0
  {
    if seconds <= 0 then "-"
    else
      var (h, m, s) := Components(seconds);
      if h > 0 then Pad2(h) + ":" + Pad2(m) + ":" + Pad2(s)
      else Pad2(m) + ":" + Pad2(s)
  }

  /** Reads a displayed duration back: "MM:SS" or "HH:MM:SS" with decimal
      fields, the minutes and seconds below 60. */
  function ParseLength(text: string): Option<nat> {
    var parts := SplitOn(text, ':');
    if |parts| == 2 then
      match (ParseDecimal(parts[0]), ParseDecimal(parts[1]))
      case (Some(m), Some(s)) => if m < 60 && s < 60 then Some(m * 60 + s) else None
      case _ => None
    else if |parts| == 3 then
      match (ParseDecimal(parts[0]), ParseDecimal(parts[1]), ParseDecimal(parts[2]))
      case (Some(h), Some(m), Some(s)) => if m < 60 && s < 60 then Some(h * 3600 + m * 60 + s) else None
      case _ => None
    else None
  }

  lemma TwoFields(m: nat, s: nat)
    requires m < 60 && s < 60
    ensures SplitOn(Pad2(m) + ":" + Pad2(s), ':') == [Pad2(m), Pad2(s)]
    ensures ParseLength(Pad2(m) + ":" + Pad2(s)) == Some(m * 60 + s)
  {
    Pad2RoundTrip(m);
    Pad2RoundTrip(s);
    SplitWithoutSeparator(Pad2(s), ':');
    SplitAfterPiece(Pad2(m), ':', Pad2(s));
    assert Pad2(m) + ":" + Pad2(s) == Pad2(m) + [':'] + Pad2(s);
  }

  lemma ThreeFields(h: nat, m: nat, s: nat)
    requires m < 60 && s < 60
    ensures SplitOn(Pad2(h) + ":" + Pad2(m) + ":" + Pad2(s), ':') == [Pad2(h), Pad2(m), Pad2(s)]
    ensures ParseLength(Pad2(h) + ":" + Pad2(m) + ":" + Pad2(s)) == Some(h * 3600 + m * 60 + s)
  {
    TwoFields(m, s);
    Pad2RoundTrip(h);
    SplitAfterPiece(Pad2(h), ':', Pad2(m) + ":" + Pad2(s));
    assert Pad2(h) + ":" + Pad2(m) + ":" + Pad2(s) == Pad2(h) + [':'] + (Pad2(m) + ":" + Pad2(s));
  }

  /** Every positive duration is displayed as a string that reads back as
      the same number of seconds, in two fields below an hour and three
      from an hour on; every field is decimal digits, zero-padded to at
      least two, and the minutes and seconds are exactly two. */
  lemma FormatLengthRoundTrip(seconds: int)
    requires seconds > 0
    ensures ParseLength(FormatLength(seconds)) == Some(seconds)
    ensures |SplitOn(FormatLength(seconds), ':')| == if seconds >= 3600 then 3 else 2
    ensures var fields := SplitOn(FormatLength(seconds), ':');
      && (forall i :: 0 <= i < |fields| ==> |fields[i]| >= 2 && Digits(fields[i]))
      && |fields[|fields| - 1]| == 2 && |fields[|fields| - 2]| == 2
  {
    var (h, m, s) := Components(seconds);
    Pad2RoundTrip(h);
    Pad2RoundTrip(m);
    Pad2RoundTrip(s);
    if h > 0 {
      ThreeFields(h, m, s);
    } else {
      TwoFields(m, s);
    }
  }
}

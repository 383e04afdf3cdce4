/** The pure helpers of lib/utils.ts: the `m:ss` duration text, the three score bands with
    their text and background colours, and the difference tests. */
module Utils {
  import opened Wrappers
  import opened Text

  /** The quotient rounded toward zero (`Math.trunc(a / d)`). */
  function TruncDiv(a: int, d: int): int
    requires d > 0
  {
    if a >= 0 then a / d else -((-a) / d)
  }

  /** JavaScript's `%` on integers: the remainder takes the sign of the dividend. */
  function JsRem(a: int, d: int): (r: int)
    requires d > 0
    ensures a >= 0 ==> 0 <= r < d
    ensures a < 0 ==> -d < r <= 0
    ensures a == TruncDiv(a, d) * d + r
  {
    if a >= 0 then a % d else -((-a) % d)
  }

  /** `s.padStart(2, "0")`. */
  function PadTwo(s: string): (r: string)
    ensures |s| >= 2 ==> r == s
    ensures |s| < 2 ==> |r| == 2 && r[2 - |s|..] == s
    ensures forall i :: 0 <= i < 2 - |s| ==> r[i] == '0'
  {
    if |s| >= 2 then s else if |s| == 1 then "0" + s else "00"
  }

  /** `formatDuration(seconds)`: `Math.floor(seconds / 60)`, a colon, then `seconds % 60`
      padded to two characters. Dafny's `/` rounds down for a positive divisor, as
      `Math.floor` does. */
  function FormatDuration(seconds: int): (r: string)
    ensures seconds >= 0 ==> |r| >= 4 && r[|r| - 3] == ':'
    ensures seconds >= 0 ==> forall i :: 0 <= i < |r| && i != |r| - 3 ==> IsDigit(r[i])
    ensures seconds < 0 ==> |r| > 0 && r[0] == '-'
  {
    var text := IntToString(seconds / 60) + ":" + PadTwo(IntToString(JsRem(seconds, 60)));
    if seconds >= 0 then
      TwoDigitSeconds(seconds % 60);
      text
    else
      text
  }

  /** Reads `m:ss` back: decimal minutes, a colon, two digits below 60. */
  function ParseDuration(t: string): (r: Option<nat>)
  {
    if |t| < 4 || t[|t| - 3] != ':' then None
    else match (ParseNat(t[..|t| - 3]), ParseNat(t[|t| - 2..]))
      case (Some(m), Some(s)) => if s < 60 then Some(m * 60 + s) else None
      case _ => None
  }

  /** Two digits read as one number. */
  lemma ParseTwoDigits(a: int, b: int)
    requires 0 <= a < 10 && 0 <= b < 10
    ensures ParseNat([DigitChar(a), DigitChar(b)]) == Some(a * 10 + b)
  {
    var s := [DigitChar(a), DigitChar(b)];
    assert s[..1] == [DigitChar(a)];
    assert ParseNat([DigitChar(a)]) == Some(a);
  }

  /** A seconds value below ten is one digit, padded with a leading zero. */
  lemma OneDigitSeconds(n: nat)
    requires n < 10
    ensures PadTwo(NatToString(n)) == [DigitChar(0), DigitChar(n)]
  {
    assert NatToString(n) == [DigitChar(n)];
  }

  /** A seconds value from ten to 59 is its tens digit, at most 5, then its units digit. */
  lemma TwoDigitTens(n: nat)
    requires 10 <= n < 60
    ensures n / 10 <= 5 && (n / 10) * 10 + n % 10 == n
    ensures PadTwo(NatToString(n)) == [DigitChar(n / 10), DigitChar(n % 10)]
  {
    assert NatToString(n / 10) == [DigitChar(n / 10)];
  }

  /** The seconds field of a duration: two digits spelling `n` for `n` below 60. */
  lemma {:induction false} TwoDigitSeconds(n: nat)
    requires n < 60
    ensures var f := PadTwo(NatToString(n));
      && |f| == 2 && IsDigit(f[0]) && IsDigit(f[1]) && f[0] <= '5'
      && ParseNat(f) == Some(n)
  {
    var f := PadTwo(NatToString(n));
    if n < 10 {
      OneDigitSeconds(n);
      ParseTwoDigits(0, n);
      assert f == [DigitChar(0), DigitChar(n)];
    } else {
      var tens, units := n / 10, n % 10;
      TwoDigitTens(n);
      ParseTwoDigits(tens, units);
      assert f == [DigitChar(tens), DigitChar(units)];
      assert tens * 10 + units == n;
    }
  }

  /** Minutes text, a colon and a two-digit seconds field read back as one count. */
  lemma ParseJoined(m: string, f: string, minutes: nat, secs: nat, total: nat)
    requires ParseNat(m) == Some(minutes)
    requires |f| == 2 && IsDigit(f[0]) && IsDigit(f[1]) && f[0] <= '5'
    requires ParseNat(f) == Some(secs) && secs < 60
    requires total == minutes * 60 + secs
    ensures var t := m + ":" + f;
      && |t| >= 4 && t[|t| - 3] == ':'
      && IsDigit(t[|t| - 2]) && IsDigit(t[|t| - 1]) && t[|t| - 2] <= '5'
      && ParseDuration(t) == Some(total)
  {
    var t := m + ":" + f;
    assert |m| > 0;
    assert t[..|t| - 3] == m;
    assert t[|t| - 2..] == f;
    assert t[|t| - 2] == f[0] && t[|t| - 1] == f[1];
  }

  lemma SplitMinutes(seconds: nat)
    ensures (seconds / 60) * 60 + seconds % 60 == seconds
  {
  }

  /** On a natural number of seconds the text is built from natural minutes and seconds. */
  lemma FormatNatural(seconds: nat)
    ensures FormatDuration(seconds) == NatToString(seconds / 60) + ":" + PadTwo(NatToString(seconds % 60))
  {
    assert JsRem(seconds, 60) == seconds % 60;
  }

  /** For a natural number of seconds the text is the decimal minutes, a colon and the two
      seconds digits "00".."59", and reading it back gives the same number of seconds. */
  lemma {:induction false} FormatDurationRoundTrip(seconds: nat)
    ensures var t := FormatDuration(seconds);
      && t == NatToString(seconds / 60) + ":" + PadTwo(NatToString(seconds % 60))
      && |t| >= 4 && t[|t| - 3] == ':'
      && IsDigit(t[|t| - 2]) && IsDigit(t[|t| - 1]) && t[|t| - 2] <= '5'
      && ParseDuration(t) == Some(seconds)
  {
    var minutes, secs := seconds / 60, seconds % 60;
    FormatNatural(seconds);
    TwoDigitSeconds(secs);
    ParseNatToString(minutes);
    SplitMinutes(seconds);
    ParseJoined(NatToString(minutes), PadTwo(NatToString(secs)), minutes, secs, seconds);
  }

  /** A negative number of seconds keeps JavaScript's signs: minutes round down, the
      remainder is negative, so -61 seconds reads "-2:-1". */
  lemma NegativeDuration()
    ensures FormatDuration(-61) == "-2:-1"
  {
    assert NatToString(2) == "2";
    assert NatToString(1) == "1";
  }

  /** The three bands of a 0..1 score. */
  datatype Band = Good | Fair | Poor

  function BandOf(score: real): (b: Band)
    ensures b == Good <==> score > 0.8
    ensures b == Poor <==> score < 0.5
    ensures b == Fair <==> 0.5 <= score <= 0.8
  {
    if score > 0.8 then Good else if score < 0.5 then Poor else Fair
  }

  /** `getScoreColor`. */
  function ScoreColor(score: real): (r: string)
    ensures r == "text-green-600" <==> score > 0.8
    ensures r == "text-red-600" <==> score < 0.5
    ensures r == "text-amber-600" <==> 0.5 <= score <= 0.8
  {
    if score > 0.8 then "text-green-600"
    else if score < 0.5 then "text-red-600"
    else "text-amber-600"
  }

  /** `getScoreBg`. */
  function ScoreBg(score: real): (r: string)
    ensures r == "bg-green-50" <==> score > 0.8
    ensures r == "bg-red-50" <==> score < 0.5
    ensures r == "bg-amber-50" <==> 0.5 <= score <= 0.8
  {
    if score > 0.8 then "bg-green-50"
    else if score < 0.5 then "bg-red-50"
    else "bg-amber-50"
  }

  function BandColor(b: Band): string
  {
    match b
    case Good => "text-green-600"
    case Fair => "text-amber-600"
    case Poor => "text-red-600"
  }

  function BandBg(b: Band): string
  {
    match b
    case Good => "bg-green-50"
    case Fair => "bg-amber-50"
    case Poor => "bg-red-50"
  }

  /** Both helpers are the band's colours: every score gets exactly one band, and text and
      background come from the same band. */
  lemma ColoursFollowBand(score: real)
    ensures ScoreColor(score) == BandColor(BandOf(score))
    ensures ScoreBg(score) == BandBg(BandOf(score))
  {
  }

  /** Two scores share a text colour exactly when they share a background. */
  lemma ColourAndBackgroundAgree(a: real, b: real)
    ensures ScoreColor(a) == ScoreColor(b) <==> ScoreBg(a) == ScoreBg(b)
  {
    assert "text-green-600" != "text-amber-600" && "text-green-600" != "text-red-600";
    assert "text-amber-600" != "text-red-600";
    assert "bg-green-50" != "bg-amber-50" && "bg-green-50" != "bg-red-50";
    assert "bg-amber-50" != "bg-red-50";
  }

  /** `calculateDifference`: `Math.abs(value1 - value2)`. */
  function CalculateDifference(value1: real, value2: real): (d: real)
    ensures d >= 0.0
    ensures d == 0.0 <==> value1 == value2
    ensures d == value1 - value2 || d == value2 - value1
  {
    if value1 >= value2 then value1 - value2 else value2 - value1
  }

  /** `isDifferenceSignificant`: a difference strictly above 10. */
  function IsDifferenceSignificant(value1: real, value2: real): (r: bool)
    ensures r <==> value1 - value2 > 10.0 || value2 - value1 > 10.0
  {
    CalculateDifference(value1, value2) > 10.0
  }

  /** Both tests ignore the order of their arguments. */
  lemma DifferenceSymmetric(value1: real, value2: real)
    ensures CalculateDifference(value1, value2) == CalculateDifference(value2, value1)
    ensures IsDifferenceSignificant(value1, value2) == IsDifferenceSignificant(value2, value1)
  {
  }
}

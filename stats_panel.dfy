/** The elapsed-time formatter of src/game/StatsPanel.tsx: milliseconds
    shown as hours, minutes and seconds, each padded to two digits. */
module StatsPanel {
  import opened Util

  /** JavaScript's `%` on integers: the remainder has the sign of the dividend. */
  function JsRem(a: int, b: int): (r: int)
    requires b > 0
    ensures a >= 0 ==> 0 <= r < b
    ensures a < 0 ==> -b < r <= 0
  {
    if a >= 0 then a % b else -((-a) % b)
  }

  /** String.prototype.padStart(n, "0"). */
  function PadStart(s: string, n: nat): (r: string)
    ensures |r| == Max(n, |s|)
    ensures r[|r| - |s|..] == s
    ensures forall i :: 0 <= i < |r| - |s| ==> r[i] == '0'
  {
    if |s| >= n then s else Zeros(n - |s|) + s
  }

  const MillisPerHour := 3600000
  const MillisPerMinute := 60000
  const MillisPerSecond := 1000

  /** Math.floor(millis / 3600000); Dafny's division by a positive divisor is the floor. */
  function Hours(millis: int): (h: int)
    ensures millis >= 0 ==> h >= 0
  {
    millis / MillisPerHour
  }

  function Minutes(millis: int): (m: int)
    ensures millis >= 0 ==> 0 <= m < 60
  {
    JsRem(millis, MillisPerHour) / MillisPerMinute
  }

  function Seconds(millis: int): (s: int)
    ensures millis >= 0 ==> 0 <= s < 60
  {
    JsRem(millis, MillisPerMinute) / MillisPerSecond
  }

  /** One field of the display: the number, padded with '0' to two characters. */
  function Field(v: int): string {
    PadStart(IntToString(v), 2)
  }

  /** formatMillisAsHoursMinutesSecondsWithPadding */
  function FormatElapsed(millis: int): (r: string)
    ensures millis >= 0 ==> DigitsAndColons(r)
  {
    var h, m, s := Field(Hours(millis)), Field(Minutes(millis)), Field(Seconds(millis));
    FieldsAreDigits(millis);
    DisplayDigits(h, m, s);
    h + ":" + m + ":" + s
  }

  /** Nothing but digits and ':'. */
  predicate DigitsAndColons(r: string) {
    forall i :: 0 <= i < |r| ==> r[i] == ':' || '0' <= r[i] <= '9'
  }

  /** The fields of a non-negative time are digits. */
  lemma FieldsAreDigits(millis: int)
    ensures millis >= 0 ==>
              IsDigits(Field(Hours(millis))) && IsDigits(Field(Minutes(millis))) && IsDigits(Field(Seconds(millis)))
  {
    if millis >= 0 {
      FieldReadsBack(Hours(millis));
      FieldReadsBack(Minutes(millis));
      FieldReadsBack(Seconds(millis));
    }
  }

  /** Digit fields joined by ':' hold nothing but digits and ':'. */
  lemma DisplayDigits(a: string, b: string, c: string)
    ensures IsDigits(a) && IsDigits(b) && IsDigits(c) ==> DigitsAndColons(a + ":" + b + ":" + c)
  {
    var r := a + ":" + b + ":" + c;
    if IsDigits(a) && IsDigits(b) && IsDigits(c) {
      forall i | 0 <= i < |r|
        ensures r[i] == ':' || '0' <= r[i] <= '9'
      {
        if i < |a| {
          assert r[i] == a[i];
        } else if |a| < i < |a| + 1 + |b| {
          assert r[i] == b[i - |a| - 1];
        } else if |a| + 1 + |b| < i {
          assert r[i] == c[i - |a| - 2 - |b|];
        }
      }
    }
  }

  /** The three fields add back up to the elapsed time, less than a second short. */
  lemma ElapsedDecomposition(millis: int)
    requires millis >= 0
    ensures var t := Hours(millis) * MillisPerHour + Minutes(millis) * MillisPerMinute + Seconds(millis) * MillisPerSecond;
            t <= millis < t + MillisPerSecond
  {
    var h, r := millis / MillisPerHour, millis % MillisPerHour;
    assert millis == h * MillisPerHour + r;
    var m, r' := r / MillisPerMinute, r % MillisPerMinute;
    assert r == m * MillisPerMinute + r';
    assert millis % MillisPerMinute == r' by {
      assert millis == (h * 60 + m) * MillisPerMinute + r';
    }
    assert Seconds(millis) == r' / MillisPerSecond;
  }

  lemma {:induction false} LeadingZeroValue(s: string)
    ensures DigitsValue("0" + s) == DigitsValue(s)
  {
    if |s| > 0 {
      assert ("0" + s)[..|s|] == "0" + s[..|s| - 1];
      LeadingZeroValue(s[..|s| - 1]);
    }
  }

  lemma {:induction false} ZerosValue(k: nat, s: string)
    ensures DigitsValue(Zeros(k) + s) == DigitsValue(s)
  {
    if k > 0 {
      assert Zeros(k) + s == "0" + (Zeros(k - 1) + s);
      LeadingZeroValue(Zeros(k - 1) + s);
      ZerosValue(k - 1, s);
    } else {
      assert Zeros(k) + s == s;
    }
  }

  /** A display made of three digit fields joined by ':', with two-character
      second and third fields, can be split back into the fields. */
  lemma DisplaySplits(r: string, a: string, b: string, c: string, x: int, y: int, z: int)
    requires r == a + ":" + b + ":" + c
    requires |a| >= 2 && |b| == 2 && |c| == 2
    requires IsDigits(a) && IsDigits(b) && IsDigits(c)
    requires DigitsValue(a) == x && DigitsValue(b) == y && DigitsValue(c) == z
    ensures var h := |r| - 6;
            && h >= 2 && r[h] == ':' && r[h + 3] == ':'
            && IsDigits(r[..h]) && IsDigits(r[h + 1..h + 3]) && IsDigits(r[h + 4..])
            && DigitsValue(r[..h]) == x
            && DigitsValue(r[h + 1..h + 3]) == y
            && DigitsValue(r[h + 4..]) == z
  {
    var h := |r| - 6;
    assert r[..h] == a;
    assert r[h + 1..h + 3] == b;
    assert r[h + 4..] == c;
  }

  /** A field of a non-negative number is at least two digits long and reads back as the number. */
  lemma FieldReadsBack(v: int)
    requires v >= 0
    ensures |Field(v)| >= 2 && IsDigits(Field(v)) && DigitsValue(Field(v)) == v
    ensures v < 100 ==> |Field(v)| == 2
  {
    var d := NatToString(v);
    NatToStringParses(v);
    if |d| < 2 {
      ZerosValue(2 - |d|, d);
    }
  }

  /** For a non-negative time the display is three digit fields separated by
      ':', the minutes and seconds fields exactly two long, and each field
      reads back as the hours, minutes and seconds. */
  lemma FormatReadsBack(millis: int)
    requires millis >= 0
    ensures var r := FormatElapsed(millis); var h := |r| - 6;
            && h >= 2 && r[h] == ':' && r[h + 3] == ':'
            && IsDigits(r[..h]) && IsDigits(r[h + 1..h + 3]) && IsDigits(r[h + 4..])
            && DigitsValue(r[..h]) == Hours(millis)
            && DigitsValue(r[h + 1..h + 3]) == Minutes(millis)
            && DigitsValue(r[h + 4..]) == Seconds(millis)
  {
    var h, m, s := Hours(millis), Minutes(millis), Seconds(millis);
    FieldReadsBack(h);
    FieldReadsBack(m);
    FieldReadsBack(s);
    DisplaySplits(FormatElapsed(millis), Field(h), Field(m), Field(s), h, m, s);
  }

  /** Below one hundred hours the display is exactly "hh:mm:ss". */
  lemma FormatLength(millis: int)
    requires 0 <= millis < 100 * MillisPerHour
    ensures |FormatElapsed(millis)| == 8
  {
    FieldReadsBack(Hours(millis));
    FieldReadsBack(Minutes(millis));
    FieldReadsBack(Seconds(millis));
  }
}

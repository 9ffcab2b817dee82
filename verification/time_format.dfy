/**
 * The countdown display of `formatTime` (trainer.js): minutes and seconds,
 * each passed through `String` and `padStart(2, '0')`, joined by a colon.
 * The function is modelled for every integer, with JavaScript's operators;
 * the "MM:SS" reading and the round trip through a parser hold for n >= 0.
 */
module TimeFormat {
  import opened Common
  import opened Text

  /** JavaScript's `n % d`: the remainder takes the sign of the dividend. */
  function JsRemainder(n: int, d: nat): (r: int)
    requires d > 0
    ensures n >= 0 ==> r == n % d
    ensures -(d as int) < r < d && (r == 0 || (r < 0 <==> n < 0))
    ensures (n - r) % d == 0
  {
    if n >= 0 then
      RemainderLeavesMultiple(n, d);
      n % d
    else
      RemainderLeavesMultiple(-n, d);
      -((-n) % d)
  }

  /** Taking `m % d` away from `m`, or adding it to `-m`, leaves a multiple of `d`. */
  lemma {:induction false} RemainderLeavesMultiple(m: int, d: nat)
    requires d > 0
    ensures (m - m % d) % d == 0 && (-m + m % d) % d == 0
  {
    var q := m / d;
    assert m - m % d == d * q;
    assert -m + m % d == d * -q;
    MultipleRemainder(q, d);
    MultipleRemainder(-q, d);
  }

  /** A multiple of `d` leaves no remainder. */
  lemma {:induction false} MultipleRemainder(q: int, d: nat)
    requires d > 0
    ensures (d * q) % d == 0
  {
    var x := d * q;
    var k := q - x / d;
    assert d * k == x % d by {
      assert x == d * (x / d) + x % d;
      assert d * k == d * q - d * (x / d);
    }
  }

  /** One field of the display: `String(k).padStart(2, '0')`. */
  function Field(k: int): string {
    PadStart(IntToString(k), 2, '0')
  }

  /**
   * `formatTime(seconds)`. `Math.floor(seconds / 60)` is Dafny's `/`: with a
   * positive divisor both round towards negative infinity.
   */
  function FormatTime(seconds: int): string {
    Join(Field(seconds / 60), Field(JsRemainder(seconds, 60)))
  }

  /** The template `${m}:${s}`. */
  function Join(m: string, s: string): string {
    m + ":" + s
  }

  /** The minutes field of a formatted time: everything before the final ":SS". */
  function MinutesField(r: string): string
    requires |r| >= 3
  {
    r[..|r| - 3]
  }

  /** The seconds field of a formatted time: its last two characters. */
  function SecondsField(r: string): string
    requires |r| >= 2
  {
    r[|r| - 2..]
  }

  lemma {:induction false} ShortNumber(k: nat)
    requires k < 100
    ensures |NatToString(k)| <= 2
  {
    if k >= 10 {
      assert NatToString(k) == NatToString(k / 10) + [DigitChar(k % 10)];
    }
  }

  /** A field of a non-negative number is at least two digits denoting it; exactly two below 100. */
  lemma {:induction false} FieldDigits(k: nat)
    ensures |Field(k)| >= 2 && (k < 100 ==> |Field(k)| == 2)
    ensures IsDigits(Field(k)) && DigitsValue(Field(k)) == k
  {
    NatToStringDigits(k);
    PadStartValue(NatToString(k), 2);
    if k < 100 {
      ShortNumber(k);
    }
  }

  /**
   * For n >= 0, `formatTime(n)` is a minutes field of at least two digits
   * denoting n div 60, a colon, and exactly two digits denoting n mod 60.
   */
  lemma {:induction false} FormatTimeFields(n: nat)
    ensures var r := FormatTime(n);
      && |r| >= 5 && r[|r| - 3] == ':'
      && IsDigits(MinutesField(r)) && DigitsValue(MinutesField(r)) == n / 60
      && IsDigits(SecondsField(r)) && DigitsValue(SecondsField(r)) == n % 60
  {
    FieldDigits(n / 60);
    FieldDigits(n % 60);
    SplitJoin(Field(n / 60), Field(n % 60));
  }

  /** A joined display splits back into its two fields around the colon. */
  lemma {:induction false} SplitJoin(m: string, s: string)
    requires |s| == 2
    ensures var r := Join(m, s);
      |r| == |m| + 3 && r[|r| - 3] == ':' && MinutesField(r) == m && SecondsField(r) == s
  {
    var r := Join(m, s);
    assert r[..|m|] == m;
    assert r[|m| + 1..] == s;
  }

  /**
   * Reads a countdown display back: a colon third from the end, at least two
   * digits before it and exactly two digits below 60 after it.
   */
  function ParseTime(s: string): Option<nat> {
    if |s| >= 5 && s[|s| - 3] == ':' && IsDigits(MinutesField(s)) && IsDigits(SecondsField(s))
      && DigitsValue(SecondsField(s)) < 60
    then Some(DigitsValue(MinutesField(s)) * 60 + DigitsValue(SecondsField(s)))
    else None
  }

  /** Parsing a formatted non-negative time gives the number of seconds back. */
  lemma {:induction false} FormatTimeRoundTrip(n: nat)
    ensures ParseTime(FormatTime(n)) == Some(n)
  {
    FormatTimeFields(n);
  }

  /** Two non-negative times never share a display. */
  lemma {:induction false} FormatTimeInjective(a: nat, b: nat)
    requires FormatTime(a) == FormatTime(b)
    ensures a == b
  {
    FormatTimeRoundTrip(a);
    FormatTimeRoundTrip(b);
  }

  /** 605 seconds display as "10:05". */
  lemma {:induction false} FormatTimeExample()
    ensures FormatTime(605) == "10:05"
  {
    assert NatToString(10) == NatToString(1) + [DigitChar(0)];
  }

  /** A negative count keeps JavaScript's signs: -61 seconds display as "-2:-1". */
  lemma {:induction false} FormatTimeNegativeExample()
    ensures FormatTime(-61) == "-2:-1"
  {
  }
}

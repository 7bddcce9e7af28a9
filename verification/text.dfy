/** Number and duration texts shown by the windows: Java's decimal
    conversion of an int, the "%02d" format, the legacy addLeadingZero,
    the timer label and the hh:mm:ss decomposition of a score's duration.
    Each text comes with a reader that gets the number back. */
module Texts {

  // ---------------------------------------------------------------------
  // Decimal digits

  function DigitChar(d: int): (c: char)
    requires 0 <= d < 10
    ensures '0' <= c <= '9' && DigitValue(c) == d
  {
    ('0' as int + d) as char
  }

  function DigitValue(c: char): int {
    c as int - '0' as int
  }

  predicate IsDigit(c: char) {
    '0' <= c <= '9'
  }

  /** The decimal digits of n, most significant first, "0" for zero. */
  function Digits(n: nat): (s: string)
    ensures 1 <= |s| && forall i :: 0 <= i < |s| ==> IsDigit(s[i])
    ensures |s| == 1 <==> n < 10
    ensures |s| == 2 <==> 10 <= n < 100
  {
    if n < 10 then [DigitChar(n)] else Digits(n / 10) + [DigitChar(n % 10)]
  }

  /** Integer.toString, which is also what `"" + v` produces: a minus sign
      before the digits of a negative number. */
  function Decimal(v: int): (s: string)
    ensures 1 <= |s|
    ensures s[0] == '-' <==> v < 0
  {
    if v < 0 then "-" + Digits(-v) else Digits(v)
  }

  /** The value of a string of digits, read left to right. */
  function ReadNat(s: string): int {
    if s == [] then 0 else ReadNat(s[..|s| - 1]) * 10 + DigitValue(s[|s| - 1])
  }

  /** The value of an optional minus sign followed by digits. */
  function ReadInt(s: string): int {
    if |s| > 0 && s[0] == '-' then -ReadNat(s[1..]) else ReadNat(s)
  }

  lemma {:induction false} ReadDigits(n: nat)
    ensures ReadNat(Digits(n)) == n
  {
    if n >= 10 {
      var s := Digits(n / 10) + [DigitChar(n % 10)];
      assert s[..|s| - 1] == Digits(n / 10);
      ReadDigits(n / 10);
    }
  }

  /** Reading the decimal text of any int, negatives included, gives the
      int back. */
  lemma DecimalRoundTrip(v: int)
    ensures ReadInt(Decimal(v)) == v
  {
    if v < 0 {
      var d := Digits(-v);
      assert Decimal(v) == "-" + d;
      assert ("-" + d)[1..] == d;
      ReadDigits(-v);
    } else {
      assert IsDigit(Digits(v)[0]);
      ReadDigits(v);
    }
  }

  // ---------------------------------------------------------------------
  // Two-digit fields

  /** k zero characters. */
  function Zeros(k: int): (s: string)
    ensures |s| == if k < 0 then 0 else k
  {
    if k <= 0 then [] else Zeros(k - 1) + "0"
  }

  /** String.format("%02d", v): the sign, then zeros up to a width of two
      characters, then the digits. */
  function Format02d(v: int): (s: string)
    ensures 2 <= |s| && (0 <= v < 100 ==> |s| == 2)
    ensures s[0] == '-' <==> v < 0
  {
    var sign := if v < 0 then "-" else "";
    var digits := Digits(if v < 0 then -v else v);
    sign + Zeros(2 - |sign| - |digits|) + digits
  }

  /** addLeadingZero of the legacy window: "0" before a value in [0, 10),
      the plain decimal text otherwise. */
  function LegacyAddLeadingZero(v: int): (s: string)
    ensures 0 <= v < 10 ==> s == "0" + Decimal(v)
    ensures !(0 <= v < 10) ==> s == Decimal(v)
    ensures 2 <= |s| && (0 <= v < 100 ==> |s| == 2)
  {
    if 0 <= v < 10 then "0" + Decimal(v) else Decimal(v)
  }

  /** The legacy helper and the format agree on every int, negatives and
      values of three digits or more included. */
  lemma LeadingZeroFormatsAgree(v: int)
    ensures Format02d(v) == LegacyAddLeadingZero(v)
  {
    if 0 <= v < 10 {
      assert Zeros(1) == "0";
    }
  }

  /** A value in [0, 100) takes exactly two characters; any value takes at
      least two; the digits read back to the value. */
  lemma Format02dShape(v: int)
    ensures 2 <= |Format02d(v)|
    ensures 0 <= v < 100 ==> |Format02d(v)| == 2
    ensures ReadInt(Format02d(v)) == v
    ensures v >= 0 ==> forall i :: 0 <= i < |Format02d(v)| ==> IsDigit(Format02d(v)[i])
  {
    LeadingZeroFormatsAgree(v);
    DecimalRoundTrip(v);
    if 0 <= v < 10 {
      assert Format02d(v) == "0" + Digits(v);
      ReadAfterZero("0", Digits(v));
      assert ReadNat("0") == 0;
    }
  }

  /** Digits after a prefix that reads as zero read as themselves. */
  lemma {:induction false} ReadAfterZero(a: string, b: string)
    requires ReadNat(a) == 0
    ensures ReadNat(a + b) == ReadNat(b)
  {
    if b == [] {
      assert a + b == a;
    } else {
      var b' := b[..|b| - 1];
      assert (a + b)[..|a + b| - 1] == a + b';
      assert (a + b)[|a + b| - 1] == b[|b| - 1];
      ReadAfterZero(a, b');
    }
  }

  // ---------------------------------------------------------------------
  // Clock texts

  /** The timer label of the window (gui/MainFrame.java): the hours field
      and its colon only when h != 0, then minutes and seconds. */
  function TimerText(h: int, m: int, s: int): (t: string)
    ensures 5 <= |t| && (h != 0 ==> 8 <= |t|)
    ensures 0 <= m < 100 && 0 <= s < 100 ==> (|t| == 5 <==> h == 0)
  {
    (if h != 0 then Format02d(h) + ":" else "") + Format02d(m) + ":" + Format02d(s)
  }

  /** The timer label of the legacy window (MainFrame.java). */
  function LegacyTimerText(h: int, m: int, s: int): (t: string)
    ensures 5 <= |t| && (h != 0 ==> 8 <= |t|)
    ensures 0 <= m < 100 && 0 <= s < 100 ==> (|t| == 5 <==> h == 0)
  {
    (if h != 0 then LegacyAddLeadingZero(h) + ":" else "") + LegacyAddLeadingZero(m) + ":" + LegacyAddLeadingZero(s)
  }

  /** Both windows show the same timer text. */
  lemma TimerTextsAgree(h: int, m: int, s: int)
    ensures TimerText(h, m, s) == LegacyTimerText(h, m, s)
  {
    LeadingZeroFormatsAgree(h);
    LeadingZeroFormatsAgree(m);
    LeadingZeroFormatsAgree(s);
  }

  /** Reads "a:b:c" (or "b:c") as a number of seconds: every colon shifts
      what was read so far by a factor of 60. The pair is the value of the
      fields before the last colon, already shifted, and the value of the
      field being read. */
  function Scan(t: string): (int, int) {
    if t == [] then (0, 0)
    else
      var (done, field) := Scan(t[..|t| - 1]);
      var ch := t[|t| - 1];
      if ch == ':' then ((done + field) * 60, 0) else (done, field * 10 + DigitValue(ch))
  }

  function ReadClock(t: string): int {
    Scan(t).0 + Scan(t).1
  }

  /** A field without colons after a completed prefix. */
  lemma {:induction false} ScanField(a: string, b: string)
    requires Scan(a).1 == 0 && forall i :: 0 <= i < |b| ==> b[i] != ':'
    ensures Scan(a + b) == (Scan(a).0, ReadNat(b))
  {
    if b == [] {
      assert a + b == a;
    } else {
      var b' := b[..|b| - 1];
      assert (a + b)[..|a + b| - 1] == a + b';
      assert (a + b)[|a + b| - 1] == b[|b| - 1];
      ScanField(a, b');
    }
  }

  /** One two-digit field and, unless it is the last, its colon. */
  lemma ScanStep(a: string, v: int)
    requires Scan(a).1 == 0 && v >= 0
    ensures Scan(a + Format02d(v)) == (Scan(a).0, v)
    ensures Scan(a + Format02d(v) + ":") == ((Scan(a).0 + v) * 60, 0)
  {
    Format02dShape(v);
    ScanField(a, Format02d(v));
    assert ReadNat(Format02d(v)) == v;
  }

  /** Reading the fields of hh:mm:ss or mm:ss back. */
  lemma ReadClockFields(h: int, m: int, s: int)
    requires h >= 0 && m >= 0 && s >= 0
    ensures ReadClock(Format02d(h) + ":" + Format02d(m) + ":" + Format02d(s)) == h * 3600 + m * 60 + s
    ensures ReadClock(Format02d(m) + ":" + Format02d(s)) == m * 60 + s
  {
    ScanStep("", h);
    assert "" + Format02d(h) == Format02d(h);
    ScanStep(Format02d(h) + ":", m);
    ScanStep(Format02d(h) + ":" + Format02d(m) + ":", s);
    ScanStep("", m);
    assert "" + Format02d(m) == Format02d(m);
    ScanStep(Format02d(m) + ":", s);
  }

  /** The timer text shows h, m and s: read as a clock, it is the number of
      seconds they make, with or without the hours field. */
  lemma TimerTextReadsBack(h: int, m: int, s: int)
    requires h >= 0 && m >= 0 && s >= 0
    ensures ReadClock(TimerText(h, m, s)) == h * 3600 + m * 60 + s
  {
    ReadClockFields(h, m, s);
    if h == 0 {
      assert TimerText(h, m, s) == Format02d(m) + ":" + Format02d(s);
    }
  }

  /** The hours field and its colon are left out exactly when h == 0,
      negative hours included. */
  lemma TimerTextHours(h: int, m: int, s: int)
    ensures h == 0 <==> |TimerText(h, m, s)| == |Format02d(m)| + 1 + |Format02d(s)|
  {
    Format02dShape(h);
  }

  // ---------------------------------------------------------------------
  // Durations of scores (gui/ScoresDialog.java)

  /** Java's / on integers: the quotient truncated toward zero. */
  function JavaDiv(a: int, b: int): (q: int)
    requires b != 0
    ensures a >= 0 && b > 0 ==> q == a / b
  {
    if (a >= 0) == (b > 0) then Abs(a) / Abs(b) else -(Abs(a) / Abs(b))
  }

  /** Java's % on integers: the remainder takes the sign of a. */
  function JavaRem(a: int, b: int): (r: int)
    requires b != 0
    ensures JavaDiv(a, b) * b + r == a
    ensures a >= 0 ==> 0 <= r < Abs(b)
    ensures a < 0 ==> -Abs(b) < r <= 0
  {
    a - JavaDiv(a, b) * b
  }

  function Abs(a: int): (n: int)
    ensures n >= 0
  {
    if a < 0 then -a else a
  }

  /** Hours, minutes and seconds of a duration in seconds, as setScores
      computes them. */
  function Split(time: int): (hms: (int, int, int))
    ensures -60 < hms.1 < 60 && -60 < hms.2 < 60
    ensures time >= 0 <==> hms.0 >= 0 && hms.1 >= 0 && hms.2 >= 0
  {
    (JavaDiv(time, 3600), JavaRem(JavaDiv(time, 60), 60), JavaRem(time, 60))
  }

  /** For a non-negative duration the fields are in range and recompose
      the duration. */
  lemma SplitRecomposes(time: int)
    requires time >= 0
    ensures var (h, m, s) := Split(time);
      h >= 0 && 0 <= m < 60 && 0 <= s < 60 && h * 3600 + m * 60 + s == time
  {
    var (h, m, s) := Split(time);
    assert time / 60 == h * 60 + m;
  }

  /** Splitting the seconds that h, m and s make gives h, m and s back
      when the minutes and seconds are in range. */
  lemma SplitOfClock(h: int, m: int, s: int)
    requires h >= 0 && 0 <= m < 60 && 0 <= s < 60
    ensures Split(h * 3600 + m * 60 + s) == (h, m, s)
  {
    var t := h * 3600 + m * 60 + s;
    assert t / 60 == h * 60 + m;
    assert t / 3600 == h;
  }

  /** The time column of a score: HH:MM:SS when there is at least one
      hour, MM:SS otherwise, every field zero-padded to two digits. */
  function ScoreText(time: int): (t: string)
    ensures 5 <= |t| && (Split(time).0 > 0 ==> 8 <= |t|)
  {
    var (h, m, s) := Split(time);
    if h > 0 then Format02d(h) + ":" + Format02d(m) + ":" + Format02d(s)
    else Format02d(m) + ":" + Format02d(s)
  }

  /** The time column reads back to the duration, and is five characters
      long under 100 hours exactly when there is no hours field. */
  lemma ScoreTextReadsBack(time: int)
    requires time >= 0
    ensures ReadClock(ScoreText(time)) == time
    ensures time < 3600 ==> |ScoreText(time)| == 5
    ensures 3600 <= time < 360000 ==> |ScoreText(time)| == 8
  {
    SplitRecomposes(time);
    var (h, m, s) := Split(time);
    ReadClockFields(h, m, s);
    Format02dShape(h);
    Format02dShape(m);
    Format02dShape(s);
  }
}

/** The `HH:mm` text codec: `timeToMinutes` (the same helper appears in the
    slot service and the slot controller, and the Next.js routes inline it)
    and `minutesToTime`. Parsing follows `text.split(":").map(Number)`. */
module ClockText {
  import opened Common

  predicate IsDigit(c: char) {
    '0' <= c <= '9'
  }

  predicate AllDigits(s: string) {
    forall i :: 0 <= i < |s| ==> IsDigit(s[i])
  }

  function DigitChar(d: nat): (c: char)
    requires d < 10
    ensures IsDigit(c)
  {
    ('0' as int + d) as char
  }

  /** The value of a run of decimal digits, most significant first. */
  function DigitsValue(s: string): nat
    requires AllDigits(s)
  {
    if s == [] then 0
    else 10 * DigitsValue(s[..|s| - 1]) + (s[|s| - 1] as int - '0' as int)
  }

  /** JavaScript's `Number(text)` on the texts this model admits: "" is 0, a
      run of decimal digits is its value, and anything else is NaN (None). */
  function NumberOf(s: string): (r: Option<nat>)
    ensures s == [] ==> r == Some(0)
    ensures r.Some? <==> AllDigits(s)
  {
    if AllDigits(s) then Some(DigitsValue(s)) else None
  }

  /** Position of the first ':' in `s`, or `|s|` when there is none. */
  function FirstColon(s: string): (i: nat)
    ensures i <= |s|
    ensures i < |s| ==> s[i] == ':'
    ensures forall k :: 0 <= k < i ==> s[k] != ':'
  {
    if s == [] || s[0] == ':' then 0 else 1 + FirstColon(s[1..])
  }

  /** `const [h, m] = text.split(":").map(Number)`: the first two fields as
      numbers. Without a ':' the second field is `undefined`, whose Number is
      NaN; a field that is not a number is NaN as well. */
  function ParseClock(s: string): Option<(nat, nat)> {
    var i := FirstColon(s);
    if i == |s| then None
    else
      var rest := s[i + 1..];
      var h := NumberOf(s[..i]);
      var m := NumberOf(rest[..FirstColon(rest)]);
      if h.Some? && m.Some? then Some((h.value, m.value)) else None
  }

  /** `timeToMinutes`: `hours * 60 + minutes`, NaN (None) when either is NaN. */
  function TimeToMinutes(s: string): Option<nat> {
    match ParseClock(s)
    case None => None
    case Some((h, m)) => Some(h * 60 + m)
  }

  /** `n.toString()` for a non-negative integer. */
  function Decimal(n: nat): string {
    if n < 10 then [DigitChar(n)] else Decimal(n / 10) + [DigitChar(n % 10)]
  }

  /** `n.toString()` is a non-empty run of digits whose value is `n`: one
      digit below 10, two below 100. */
  lemma {:induction false} DecimalValue(n: nat)
    ensures |Decimal(n)| > 0 && AllDigits(Decimal(n))
    ensures DigitsValue(Decimal(n)) == n
    ensures n < 10 ==> |Decimal(n)| == 1
    ensures 10 <= n < 100 ==> |Decimal(n)| == 2
  {
    if n >= 10 {
      DecimalValue(n / 10);
      var r := Decimal(n);
      assert r[..|r| - 1] == Decimal(n / 10);
    }
  }

  /** `text.padStart(2, "0")`: zeros go in front until the text is two long. */
  function PadStart2(s: string): string
    decreases 2 - |s|
  {
    if |s| >= 2 then s else PadStart2("0" + s)
  }

  /** The padded text is at least two long, ends with the original text and
      is zeros before it. */
  lemma {:induction false} PadStart2Shape(s: string)
    ensures |PadStart2(s)| == if |s| < 2 then 2 else |s|
    ensures PadStart2(s)[|PadStart2(s)| - |s|..] == s
    ensures forall k :: 0 <= k < |PadStart2(s)| - |s| ==> PadStart2(s)[k] == '0'
    decreases 2 - |s|
  {
    if |s| < 2 {
      var t := "0" + s;
      PadStart2Shape(t);
      var p := PadStart2(t);
      assert p[|p| - |s|..] == p[|p| - |t|..][1..];
    }
  }

  /** `minutesToTime`: hours and minutes, each padded to two digits. */
  function MinutesToTime(minutes: nat): string {
    PadStart2(Decimal(minutes / 60)) + ":" + PadStart2(Decimal(minutes % 60))
  }

  /** A leading zero does not change a digit run's value. */
  lemma {:induction false} LeadingZero(s: string)
    requires AllDigits(s)
    ensures AllDigits("0" + s) && DigitsValue("0" + s) == DigitsValue(s)
  {
    if s != [] {
      var t := "0" + s;
      assert t[..|t| - 1] == "0" + s[..|s| - 1];
      LeadingZero(s[..|s| - 1]);
    }
  }

  /** A padded decimal reads back as the number it was written from. */
  lemma PaddedDecimalValue(n: nat)
    ensures NumberOf(PadStart2(Decimal(n))) == Some(n)
    ensures forall k :: 0 <= k < |PadStart2(Decimal(n))| ==> PadStart2(Decimal(n))[k] != ':'
  {
    DecimalValue(n);
    var d := Decimal(n);
    if |d| == 1 {
      LeadingZero(d);
    }
  }

  /** Parsing the text written from hours `h` and minutes `m` gives them back:
      the slots route re-parses its own `padStart` output this way. */
  lemma ParseClockOfFormat(h: nat, m: nat)
    ensures ParseClock(PadStart2(Decimal(h)) + ":" + PadStart2(Decimal(m))) == Some((h, m))
  {
    PaddedDecimalValue(h);
    PaddedDecimalValue(m);
    ParseClockOfFields(PadStart2(Decimal(h)), PadStart2(Decimal(m)));
  }

  /** Two colon-free fields joined by ':' split back into those fields. */
  lemma ParseClockOfFields(a: string, b: string)
    requires forall i :: 0 <= i < |a| ==> a[i] != ':'
    requires forall i :: 0 <= i < |b| ==> b[i] != ':'
    ensures ParseClock(a + ":" + b) ==
      if NumberOf(a).Some? && NumberOf(b).Some? then Some((NumberOf(a).value, NumberOf(b).value)) else None
  {
    var s := a + ":" + b;
    assert s[..|a|] == a;
    ColonFree(a, s);
    var rest := s[|a| + 1..];
    assert rest == b;
    ColonFree(b, b);
    assert b[..|b|] == b;
  }

  /** When `s` starts with the colon-free `a` followed by ':' or by nothing,
      the first ':' of `s` is at `|a|`. */
  lemma {:induction false} ColonFree(a: string, s: string)
    requires forall i :: 0 <= i < |a| ==> a[i] != ':'
    requires |a| <= |s| && s[..|a|] == a
    requires |s| == |a| || s[|a|] == ':'
    ensures FirstColon(s) == |a|
  {
    if a != [] {
      assert s[0] == a[0];
      assert s[1..][..|a| - 1] == a[1..];
      ColonFree(a[1..], s[1..]);
    }
  }

  /** `timeToMinutes(minutesToTime(m)) == m` for every non-negative `m`. */
  lemma TimeRoundTrip(minutes: nat)
    ensures TimeToMinutes(MinutesToTime(minutes)) == Some(minutes)
  {
    ParseClockOfFormat(minutes / 60, minutes % 60);
  }

  /** `timeToMinutes` on a well-formed `HH:mm` text is `60 * HH + mm`. */
  lemma TimeToMinutesOfClock(s: string)
    requires |s| == 5 && s[2] == ':'
    requires IsDigit(s[0]) && IsDigit(s[1]) && IsDigit(s[3]) && IsDigit(s[4])
    ensures TimeToMinutes(s) ==
      Some(60 * (10 * (s[0] as int - '0' as int) + (s[1] as int - '0' as int))
           + 10 * (s[3] as int - '0' as int) + (s[4] as int - '0' as int))
  {
    var a, b := s[..2], s[3..];
    assert s == a + ":" + b;
    ParseClockOfFields(a, b);
    assert a[..1] == s[..1];
    assert b[..1] == s[3..4];
    assert DigitsValue(a[..1]) == s[0] as int - '0' as int;
    assert DigitsValue(b[..1]) == s[3] as int - '0' as int;
  }

  /** A number below 100, written and padded, is its two decimal digits. */
  lemma TwoDigits(n: nat)
    requires n < 100
    ensures PadStart2(Decimal(n)) == [DigitChar(n / 10), DigitChar(n % 10)]
  {
    if n >= 10 {
      assert Decimal(n / 10) == [DigitChar(n / 10)];
    }
  }

  /** Below 100 hours, `minutesToTime(m)` is the five characters `HH:mm`
      with `HH = m div 60` and `mm = m mod 60`, each zero-padded. */
  lemma MinutesToTimeShape(minutes: nat)
    requires minutes < 6000
    ensures var h, mm := minutes / 60, minutes % 60;
      MinutesToTime(minutes) ==
        [DigitChar(h / 10), DigitChar(h % 10), ':', DigitChar(mm / 10), DigitChar(mm % 10)]
  {
    TwoDigits(minutes / 60);
    TwoDigits(minutes % 60);
  }
}

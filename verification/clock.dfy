/**
 * Times of day as the reminder bot reads them: the "HH:MM" text typed into
 * the reminder form, and the wait until the next moment that shows that time
 * on a wall clock. A moment of the day is counted in whole microseconds
 * since midnight, the finest unit of the clock the bot reads.
 */
module Clock {

  datatype Option<T> = None | Some(value: T)

  const MicrosPerMinute: int := 60_000_000
  const MicrosPerHour: int := 3_600_000_000
  const MicrosPerDay: int := 86_400_000_000

  /** An hour and a minute as typed, before the range check. */
  datatype TimeOfDay = TimeOfDay(hour: int, minute: int)

  predicate ValidTime(t: TimeOfDay)
  {
    0 <= t.hour < 24 && 0 <= t.minute < 60
  }

  // ---------------------------------------------------------------------
  // Splitting on a separator, as str.split(sep) does
  // ---------------------------------------------------------------------

  /** Cuts `s` at every occurrence of `sep`; n separators give n + 1 parts. */
  function Split(s: string, sep: char): (parts: seq<string>)
    ensures |parts| >= 1
  {
    if s == [] then [[]]
    else
      var rest := Split(s[1..], sep);
      if s[0] == sep then [[]] + rest
      else [[s[0]] + rest[0]] + rest[1..]
  }

  /** Glues parts back together with `sep` between neighbours. */
  function Join(parts: seq<string>, sep: char): string
    requires |parts| >= 1
  {
    if |parts| == 1 then parts[0] else parts[0] + [sep] + Join(parts[1..], sep)
  }

  /** Splitting loses nothing: joining the parts gives the text back, and no part holds the separator. */
  lemma {:induction false} SplitJoin(s: string, sep: char)
    ensures Join(Split(s, sep), sep) == s
    ensures forall i :: 0 <= i < |Split(s, sep)| ==> sep !in Split(s, sep)[i]
  {
    if s != [] {
      var rest := Split(s[1..], sep);
      SplitJoin(s[1..], sep);
      if s[0] == sep {
        assert Split(s, sep) == [[]] + rest;
        assert ([[]] + rest)[1..] == rest;
      } else {
        var parts := [[s[0]] + rest[0]] + rest[1..];
        assert Split(s, sep) == parts;
        if |rest| > 1 {
          assert parts[1..] == rest[1..];
          assert Join(rest, sep) == rest[0] + [sep] + Join(rest[1..], sep);
        }
        forall i | 0 <= i < |parts| ensures sep !in parts[i] {
          if i > 0 {
            assert parts[i] == rest[i];
          }
        }
      }
    }
  }

  /** A text without the separator is one part. */
  lemma {:induction false} SplitWithoutSeparator(s: string, sep: char)
    requires sep !in s
    ensures Split(s, sep) == [s]
  {
    if s != [] {
      SplitWithoutSeparator(s[1..], sep);
      assert [s[0]] + s[1..] == s;
    }
  }

  /** The first separator ends the first part. */
  lemma {:induction false} SplitAtFirstSeparator(a: string, sep: char, b: string)
    requires sep !in a
    ensures Split(a + [sep] + b, sep) == [a] + Split(b, sep)
  {
    var s := a + [sep] + b;
    if a == [] {
      assert s[1..] == b;
    } else {
      assert s[1..] == a[1..] + [sep] + b;
      SplitAtFirstSeparator(a[1..], sep, b);
      assert [a[0]] + a[1..] == a;
    }
  }

  // ---------------------------------------------------------------------
  // Decimal numerals
  // ---------------------------------------------------------------------

  predicate IsDigit(c: char)
  {
    '0' <= c <= '9'
  }

  /** A non-empty run of the digits 0 to 9. */
  predicate IsDecimal(s: string)
  {
    |s| > 0 && forall i :: 0 <= i < |s| ==> IsDigit(s[i])
  }

  function DigitValue(c: char): (d: nat)
    requires IsDigit(c)
    ensures d < 10
  {
    (c as int - '0' as int) as nat
  }

  function DigitChar(d: nat): (c: char)
    requires d < 10
    ensures IsDigit(c) && DigitValue(c) == d
  {
    ('0' as int + d) as char
  }

  /** The value of a numeral, most significant digit first; leading zeros are allowed. */
  function DecimalValue(s: string): nat
    requires forall i :: 0 <= i < |s| ==> IsDigit(s[i])
  {
    if s == [] then 0 else 10 * DecimalValue(s[..|s| - 1]) + DigitValue(s[|s| - 1])
  }

  /** Two digits, with a leading zero below ten, as in the form's "HH:MM". */
  function TwoDigits(n: nat): (s: string)
    requires n < 100
    ensures IsDecimal(s) && |s| == 2 && DecimalValue(s) == n
  {
    var s := [DigitChar(n / 10), DigitChar(n % 10)];
    assert s[..1] == [DigitChar(n / 10)] && s[..1][..0] == [];
    assert DecimalValue(s[..1]) == n / 10;
    assert DecimalValue(s) == 10 * (n / 10) + n % 10;
    s
  }

  // ---------------------------------------------------------------------
  // The time check of the reminder form
  // ---------------------------------------------------------------------

  /**
   * Reads "H:M": the text must split on ':' into exactly two numerals, the
   * first below 24 and the second below 60. None stands for the
   * "wrong time format" reply, after which no reminder is offered.
   */
  function ParseTime(s: string): (r: Option<TimeOfDay>)
    ensures r.Some? ==> ValidTime(r.value)
  {
    var parts := Split(s, ':');
    if |parts| == 2 && IsDecimal(parts[0]) && IsDecimal(parts[1]) then
      var t := TimeOfDay(DecimalValue(parts[0]), DecimalValue(parts[1]));
      if ValidTime(t) then Some(t) else None
    else
      None
  }

  /** Two numerals around one ':' are read as hour and minute, and kept exactly when in range. */
  lemma ParseTimeOfNumerals(h: string, m: string)
    requires IsDecimal(h) && IsDecimal(m)
    ensures ParseTime(h + ":" + m)
         == (var t := TimeOfDay(DecimalValue(h), DecimalValue(m));
             if ValidTime(t) then Some(t) else None)
  {
    assert ':' !in h && ':' !in m;
    SplitAtFirstSeparator(h, ':', m);
    SplitWithoutSeparator(m, ':');
  }

  /** Conversely, every accepted text is two numerals around one ':', read as hour and minute. */
  lemma ParseTimeAccepted(s: string) returns (h: string, m: string)
    requires ParseTime(s).Some?
    ensures IsDecimal(h) && IsDecimal(m)
    ensures s == h + ":" + m
    ensures ParseTime(s).value == TimeOfDay(DecimalValue(h), DecimalValue(m))
  {
    var parts := Split(s, ':');
    SplitJoin(s, ':');
    h, m := parts[0], parts[1];
    assert Join(parts, ':') == h + [':'] + Join(parts[1..], ':');
  }

  /**
   * The reminder list reads a stored time back with the clock format
   * "%H:%M", which takes one or two digits on each side of the ':'.
   */
  function ReadClockTime(s: string): (r: Option<TimeOfDay>)
    ensures r.Some? ==> ValidTime(r.value)
  {
    var parts := Split(s, ':');
    if |parts| == 2 && IsDecimal(parts[0]) && IsDecimal(parts[1])
       && |parts[0]| <= 2 && |parts[1]| <= 2
    then
      var t := TimeOfDay(DecimalValue(parts[0]), DecimalValue(parts[1]));
      if ValidTime(t) then Some(t) else None
    else
      None
  }

  /** Whatever the clock format reads, the form check accepts too, as the same time. */
  lemma ReadClockTimeAgrees(s: string)
    ensures ReadClockTime(s).Some? ==> ParseTime(s) == ReadClockTime(s)
  {
  }

  /**
   * The form check lets through times the clock format cannot read:
   * leading zeros make a field three digits long within five characters.
   */
  lemma FormAcceptsUnreadableTime()
    ensures ParseTime("007:5") == Some(TimeOfDay(7, 5))
    ensures ReadClockTime("007:5") == None
  {
    var h, m := "007", "5";
    assert h + ":" + m == "007:5";
    assert h[..2] == "00" && "00"[..1] == "0" && "0"[..0] == [];
    assert DecimalValue("0") == 0;
    assert DecimalValue("00") == 0;
    ParseTimeOfNumerals(h, m);
    SplitAtFirstSeparator(h, ':', m);
    SplitWithoutSeparator(m, ':');
  }

  /**
   * The time check the form evidently means: the form's own check with a
   * limit of two digits per field added. It accepts exactly the texts the
   * clock format reads, with the same value, so every accepted time can be
   * read back by the reminder list.
   */
  function CheckTimeCorrected(s: string): (r: Option<TimeOfDay>)
    ensures r.Some? ==> ParseTime(s) == r
    ensures r == ReadClockTime(s)
  {
    ReadClockTimeAgrees(s);
    var parts := Split(s, ':');
    if ParseTime(s).Some? && |parts[0]| <= 2 && |parts[1]| <= 2 then ParseTime(s) else None
  }

  /** The canonical "HH:MM" text of a time of day. */
  function FormatTime(t: TimeOfDay): string
    requires ValidTime(t)
  {
    TwoDigits(t.hour) + ":" + TwoDigits(t.minute)
  }

  /** Every time of day has a text the form accepts, and it reads back as that time. */
  lemma ParseFormatTime(t: TimeOfDay)
    requires ValidTime(t)
    ensures ParseTime(FormatTime(t)) == Some(t)
    ensures ReadClockTime(FormatTime(t)) == Some(t)
    ensures CheckTimeCorrected(FormatTime(t)) == Some(t)
  {
    SplitAtFirstSeparator(TwoDigits(t.hour), ':', TwoDigits(t.minute));
    SplitWithoutSeparator(TwoDigits(t.minute), ':');
    ParseTimeOfNumerals(TwoDigits(t.hour), TwoDigits(t.minute));
  }

  // ---------------------------------------------------------------------
  // The wait until the next occurrence
  // ---------------------------------------------------------------------

  /** The moment of the day at which the clock shows t with zero seconds and microseconds. */
  function SlotOf(t: TimeOfDay): (slot: int)
    requires ValidTime(t)
    ensures 0 <= slot < MicrosPerDay
  {
    (t.hour * 60 + t.minute) * MicrosPerMinute
  }

  /** Reading the clock fields back off a slot gives the hour and minute, and zero seconds and microseconds. */
  lemma SlotFields(t: TimeOfDay)
    requires ValidTime(t)
    ensures SlotOf(t) / MicrosPerHour == t.hour
    ensures SlotOf(t) % MicrosPerHour / MicrosPerMinute == t.minute
    ensures SlotOf(t) % MicrosPerMinute == 0
  {
  }

  /**
   * The wait in microseconds from `now` to today's slot for t, or to
   * tomorrow's when today's is already strictly past.
   */
  function Delay(now: int, t: TimeOfDay): (wait: int)
    requires 0 <= now < MicrosPerDay && ValidTime(t)
    ensures 0 <= wait < MicrosPerDay
    ensures (now + wait) % MicrosPerDay == SlotOf(t)
    ensures now + wait >= MicrosPerDay <==> SlotOf(t) < now
    ensures wait == 0 <==> SlotOf(t) == now
  {
    var today := SlotOf(t);
    var target := if today < now then today + MicrosPerDay else today;
    target - now
  }

  /** No earlier moment from `now` on shows t: the wait leads to the next occurrence, not a later one. */
  lemma DelayIsEarliest(now: int, t: TimeOfDay, w: int)
    requires 0 <= now < MicrosPerDay && ValidTime(t)
    requires 0 <= w < Delay(now, t)
    ensures (now + w) % MicrosPerDay != SlotOf(t)
  {
  }

  /**
   * The moment the wait ends shows the requested hour and minute on the
   * clock, with zero seconds and zero microseconds.
   */
  lemma DelayLandsOnTime(now: int, t: TimeOfDay)
    requires 0 <= now < MicrosPerDay && ValidTime(t)
    ensures var at := (now + Delay(now, t)) % MicrosPerDay;
            at / MicrosPerHour == t.hour
            && at % MicrosPerHour / MicrosPerMinute == t.minute
            && at % MicrosPerMinute == 0
  {
  }
}

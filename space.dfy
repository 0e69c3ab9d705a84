/** The clash test of check_space_availability: a study-space booking lasts
    two hours from its start time, and a new booking may not clash with an
    existing one on the same space and date. The code builds the new
    booking's end time as an 'HH:MM' string and lets SQLite compute the
    existing booking's end as an 'HH:MM:SS' string; both clocks wrap past
    midnight, and the comparisons are on strings. */
module StudySpace {

  const MinutesPerDay := 1440

  /** Every booking lasts two hours. */
  const SlotMinutes := 120

  /** A time of day, in minutes after midnight. */
  type Minute = m: int | 0 <= m < MinutesPerDay

  function Digit(d: int): char
    requires 0 <= d < 10
  {
    ('0' as int + d) as char
  }

  /** The time of day as strftime('%H:%M') writes it, and as the booking's
      start is stored. */
  function Clock(m: Minute): string
  {
    var h, mm := m / 60, m % 60;
    [Digit(h / 10), Digit(h % 10), ':', Digit(mm / 10), Digit(mm % 10)]
  }

  /** The time of day as SQLite's time() writes it: 'HH:MM:SS'. */
  function ClockSeconds(m: Minute): string
  {
    Clock(m) + ":00"
  }

  /** SQLite's comparison of two TEXT values: character by character, and a
      proper prefix sorts first. */
  predicate TextLess(a: string, b: string)
  {
    if |a| == 0 then |b| > 0
    else if |b| == 0 then false
    else if a[0] != b[0] then a[0] < b[0]
    else TextLess(a[1..], b[1..])
  }

  /** Two hours after `m`, on a clock that wraps past midnight: both
      datetime's strftime('%H:%M') and SQLite's time(_, '+2 hours') drop the
      day. */
  function SlotEnd(m: Minute): (r: Minute)
    ensures m < MinutesPerDay - SlotMinutes ==> r == m + SlotMinutes
    ensures m >= MinutesPerDay - SlotMinutes ==> r == m + SlotMinutes - MinutesPerDay
  {
    (m + SlotMinutes) % MinutesPerDay
  }

  /** The WHERE clause as written, for an existing booking starting at
      `existing` and a new one starting at `start`: the existing start is
      below the new end, and the existing end (as 'HH:MM:SS') is above the
      new start (as 'HH:MM'). */
  predicate ClashAsWritten(existing: Minute, start: Minute)
  {
    TextLess(Clock(existing), Clock(SlotEnd(start))) &&
    TextLess(Clock(start), ClockSeconds(SlotEnd(existing)))
  }

  /** The booking starting at `start` is free as written: no existing
      booking of the same space and date clashes with it. */
  predicate AvailableAsWritten(existing: seq<Minute>, start: Minute)
  {
    forall i :: 0 <= i < |existing| ==> !ClashAsWritten(existing[i], start)
  }

  /** The four digits of a time, most significant first. */
  function Digits(m: Minute): seq<int>
  {
    var h, mm := m / 60, m % 60;
    [h / 10, h % 10, mm / 10, mm % 10]
  }

  /** Lexicographic order on four digits; `longer` says whether the second
      string goes on after them. */
  predicate DigitsLess(x: seq<int>, y: seq<int>, longer: bool)
    requires |x| == |y| == 4
  {
    x[0] < y[0] || (x[0] == y[0] &&
    (x[1] < y[1] || (x[1] == y[1] &&
    (x[2] < y[2] || (x[2] == y[2] &&
    (x[3] < y[3] || (x[3] == y[3] && longer)))))))
  }

  /** Times compare as their digits do. */
  lemma DigitsOrder(a: Minute, b: Minute, longer: bool)
    ensures DigitsLess(Digits(a), Digits(b), longer) <==> a < b || (a == b && longer)
  {
    var ha, ma, hb, mb := a / 60, a % 60, b / 60, b % 60;
    assert a == 60 * ha + ma && b == 60 * hb + mb;
    assert ha == 10 * (ha / 10) + ha % 10 && hb == 10 * (hb / 10) + hb % 10;
    assert ma == 10 * (ma / 10) + ma % 10 && mb == 10 * (mb / 10) + mb % 10;
    assert a < b <==> ha < hb || (ha == hb && ma < mb);
  }

  lemma DigitOrder(x: int, y: int)
    requires 0 <= x < 10 && 0 <= y < 10
    ensures Digit(x) < Digit(y) <==> x < y
    ensures Digit(x) == Digit(y) <==> x == y
  {
  }

  /** Comparing an 'HH:MM' string with an 'HH:MM' string, or with one that
      has more characters after it, compares the digits first. */
  lemma {:induction false} TextLessClock(a: Minute, b: Minute, tail: string)
    ensures TextLess(Clock(a), Clock(b) + tail) <==> DigitsLess(Digits(a), Digits(b), |tail| > 0)
  {
    var x, y, dx, dy := Clock(a), Clock(b) + tail, Digits(a), Digits(b);
    DigitOrder(dx[0], dy[0]);
    DigitOrder(dx[1], dy[1]);
    DigitOrder(dx[2], dy[2]);
    DigitOrder(dx[3], dy[3]);
    assert x[0] == Digit(dx[0]) && y[0] == Digit(dy[0]);
    assert x[1..][0] == Digit(dx[1]) && y[1..][0] == Digit(dy[1]);
    assert x[1..][1..][0] == y[1..][1..][0] == ':';
    assert x[1..][1..][1..][0] == Digit(dx[2]) && y[1..][1..][1..][0] == Digit(dy[2]);
    assert x[1..][1..][1..][1..][0] == Digit(dx[3]) && y[1..][1..][1..][1..][0] == Digit(dy[3]);
    assert x[1..][1..][1..][1..][1..] == [];
    assert y[1..][1..][1..][1..][1..] == tail;
    TextLessFirst(x, y);
    TextLessFirst(x[1..], y[1..]);
    TextLessFirst(x[1..][1..], y[1..][1..]);
    TextLessFirst(x[1..][1..][1..], y[1..][1..][1..]);
    TextLessFirst(x[1..][1..][1..][1..], y[1..][1..][1..][1..]);
  }

  /** One step of the comparison. */
  lemma TextLessFirst(a: string, b: string)
    requires |a| > 0 && |b| > 0
    ensures TextLess(a, b) <==> a[0] < b[0] || (a[0] == b[0] && TextLess(a[1..], b[1..]))
  {
  }

  /** Comparing two 'HH:MM' strings compares the times. */
  lemma ClockOrder(a: Minute, b: Minute)
    ensures TextLess(Clock(a), Clock(b)) <==> a < b
  {
    TextLessClock(a, b, []);
    assert Clock(b) + [] == Clock(b);
    DigitsOrder(a, b, false);
  }

  /** An 'HH:MM' string sorts below an 'HH:MM:SS' one exactly when its time
      is not later: at equal times the shorter string sorts first. */
  lemma ClockSecondsOrder(a: Minute, b: Minute)
    ensures TextLess(Clock(a), ClockSeconds(b)) <==> a <= b
  {
    TextLessClock(a, b, ":00");
    DigitsOrder(a, b, true);
  }

  /** What the WHERE clause tests, in minutes: the existing start is before
      the new end, and the existing end is not before the new start. The
      second comparison is not strict, and both ends wrap past midnight. */
  lemma ClashAsWrittenMinutes(existing: Minute, start: Minute)
    ensures ClashAsWritten(existing, start) <==> existing < SlotEnd(start) && start <= SlotEnd(existing)
  {
    ClockOrder(existing, SlotEnd(start));
    ClockSecondsOrder(start, SlotEnd(existing));
  }

  /** Two bookings share a minute: the half-open two-hour slots intersect. */
  ghost predicate SharesMinute(a: Minute, b: Minute)
  {
    exists t :: InSlot(a, t) && InSlot(b, t)
  }

  /** Minute `t` lies in the two-hour slot starting at `s`. */
  predicate InSlot(s: Minute, t: int)
  {
    s <= t < s + SlotMinutes
  }

  /** The clash test the comment in the source describes, on times that do
      not wrap: the slots [existing, existing + 2h) and [start, start + 2h)
      overlap. */
  predicate SlotsOverlap(existing: Minute, start: Minute)
  {
    existing < start + SlotMinutes && start < existing + SlotMinutes
  }

  /** The intended test holds exactly when the two bookings share a minute. */
  lemma SlotsOverlapSharesMinute(a: Minute, b: Minute)
    ensures SlotsOverlap(a, b) <==> SharesMinute(a, b)
  {
    if SlotsOverlap(a, b) {
      var t := if a < b then b else a;
      assert InSlot(a, t) && InSlot(b, t);
    }
  }

  /** Clashing is symmetric in the intended test. */
  lemma SlotsOverlapSymmetric(a: Minute, b: Minute)
    ensures SlotsOverlap(a, b) <==> SlotsOverlap(b, a)
  {
  }

  /** The booking starting at `start` is free: it overlaps no existing booking. */
  predicate Available(existing: seq<Minute>, start: Minute)
  {
    forall i :: 0 <= i < |existing| ==> !SlotsOverlap(existing[i], start)
  }

  /** Where no end wraps past midnight, the code and the intended test differ
      only on back-to-back bookings: a new booking starting exactly when an
      existing one ends is refused. */
  lemma {:induction false} ClashAsWrittenNoWrap(existing: Minute, start: Minute)
    requires existing < MinutesPerDay - SlotMinutes && start < MinutesPerDay - SlotMinutes
    ensures ClashAsWritten(existing, start) <==> SlotsOverlap(existing, start) || start == existing + SlotMinutes
  {
    ClashAsWrittenMinutes(existing, start);
  }

  /** A booking from 12:00 is refused next to one from 10:00 to 12:00. */
  lemma {:induction false} BackToBackRefused()
    ensures ClashAsWritten(600, 720) && !SlotsOverlap(600, 720)
  {
    ClashAsWrittenMinutes(600, 720);
  }

  /** A booking from 23:00 is accepted next to one from 22:30 to 00:30: the new
      end, 01:00, sorts below 22:30. */
  lemma {:induction false} LateOverlapMissed()
    ensures !ClashAsWritten(1350, 1380) && SlotsOverlap(1350, 1380)
  {
    ClashAsWrittenMinutes(1350, 1380);
  }

  /** check_space_availability as written, in minutes: no existing booking
      starts before the new end while ending at or after the new start. */
  lemma {:induction false} AvailableAsWrittenMinutes(existing: seq<Minute>, start: Minute)
    ensures AvailableAsWritten(existing, start) <==>
      forall i :: 0 <= i < |existing| ==> !(existing[i] < SlotEnd(start) && start <= SlotEnd(existing[i]))
  {
    forall i | 0 <= i < |existing|
      ensures ClashAsWritten(existing[i], start) <==> existing[i] < SlotEnd(start) && start <= SlotEnd(existing[i])
    {
      ClashAsWrittenMinutes(existing[i], start);
    }
  }

  /** The corrected test: the new booking is free exactly when it shares no
      minute with an existing booking. */
  lemma {:induction false} AvailableSharesNoMinute(existing: seq<Minute>, start: Minute)
    ensures Available(existing, start) <==> forall i :: 0 <= i < |existing| ==> !SharesMinute(existing[i], start)
  {
    forall i | 0 <= i < |existing|
      ensures SlotsOverlap(existing[i], start) <==> SharesMinute(existing[i], start)
    {
      SlotsOverlapSharesMinute(existing[i], start);
    }
  }
}

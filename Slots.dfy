/** Time-slot generation of the booking wizard (`generateTimeSlots`): the
    doctor's `available_hours` text is read as a start and an end hour, and
    every half hour from the start hour up to, but not including, the end
    hour is offered as an `HH:MM` string. */
module Slots {
  import opened Seqs
  import opened Text
  import opened Records

  // ------------------------------------------------------ reading hours

  /** `Number(t)` for the hour field: surrounding whitespace is ignored, the
      empty string reads as 0 and a run of decimal digits as its value;
      anything else is `NaN` (`None`). */
  function HourNumber(t: string): (r: Option<nat>)
    ensures AllDigits(Trim(t)) ==> r == Some(DigitsValue(Trim(t)))
    ensures !AllDigits(Trim(t)) ==> r == None
  {
    var u := Trim(t);
    if u == [] then Some(0) else if AllDigits(u) then Some(DigitsValue(u)) else None
  }

  /** The start and end hours read from `available_hours`:
      `const [startTime, endTime] = hours.split('-')` and then
      `Number(time.split(':')[0])` for each. `None` when the text has no
      '-', where `endTime` is `undefined` and calling `split` on it throws a
      `TypeError`. */
  function ParseHours(hours: string): Option<(Option<nat>, Option<nat>)>
  {
    var parts := Split(hours, '-');
    if |parts| < 2 then None
    else Some((HourNumber(Split(parts[0], ':')[0]), HourNumber(Split(parts[1], ':')[0])))
  }

  lemma {:induction false} TrimUnchanged(s: string)
    requires forall i :: 0 <= i < |s| ==> !IsJsWhitespace(s[i])
    ensures Trim(s) == s
  {
    TrimStartNoLeading(s);
    TrimEndNoTrailing(s);
  }

  lemma {:induction false} HourTextRead(a: string, m: string)
    requires AllDigits(a)
    ensures Split(a + ":" + m, ':')[0] == a
    ensures HourNumber(a) == Some(DigitsValue(a))
  {
    assert ':' !in a by {
      forall i | 0 <= i < |a| ensures a[i] != ':' { assert IsDigit(a[i]); }
    }
    assert a + ":" + m == a + [':'] + m;
    SplitAfterPiece(a, ':', m);
    TrimUnchanged(a);
  }

  /** The hours text is unreadable (the destructuring of `split('-')`
      leaves `endTime` undefined) exactly when it holds no '-'. */
  lemma ParseHoursNeedsDash(hours: string)
    ensures ParseHours(hours).None? <==> '-' !in hours
  {
    SplitOnePieceIff(hours, '-');
  }

  /** `"S:MM-E:MM"`, for digit strings S and E and minute texts without a
      '-', reads as start hour S and end hour E. */
  lemma {:induction false} ParseHoursOfRange(a: string, m1: string, b: string, m2: string)
    requires AllDigits(a) && AllDigits(b)
    requires '-' !in m1 && '-' !in m2
    ensures ParseHours(a + ":" + m1 + "-" + b + ":" + m2)
            == Some((Some(DigitsValue(a)), Some(DigitsValue(b))))
  {
    var p, q := a + ":" + m1, b + ":" + m2;
    assert '-' !in p by {
      forall i | 0 <= i < |p| ensures p[i] != '-' {
        if i < |a| { assert p[i] == a[i] && IsDigit(a[i]); } else if i > |a| { assert p[i] == m1[i - |a| - 1]; }
      }
    }
    assert '-' !in q by {
      forall i | 0 <= i < |q| ensures q[i] != '-' {
        if i < |b| { assert q[i] == b[i] && IsDigit(b[i]); } else if i > |b| { assert q[i] == m2[i - |b| - 1]; }
      }
    }
    assert a + ":" + m1 + "-" + b + ":" + m2 == p + ['-'] + q;
    SplitAfterPiece(p, '-', q);
    SplitWithoutSeparator(q, '-');
    HourTextRead(a, m1);
    HourTextRead(b, m2);
  }

  // ------------------------------------------------------ slot strings

  /** `hour.toString().padStart(2, '0')`. */
  function HourLabel(h: nat): (r: string)
    ensures AllDigits(r) && |r| >= 2
    ensures h < 100 ==> |r| == 2
  {
    PadStart2(Decimal(h))
  }

  lemma {:induction false} HourLabelValue(h: nat)
    ensures DigitsValue(HourLabel(h)) == h
  {
    DecimalRoundTrip(h);
    if h < 10 {
      LeadingZero(Decimal(h));
    }
  }

  /** The `i`-th slot counted from `startHour`: `HH:00` for even `i`,
      `HH:30` for odd `i`, with `HH = startHour + i / 2`. */
  function SlotAt(startHour: nat, i: nat): string
  {
    HourLabel(startHour + i / 2) + (if i % 2 == 0 then ":00" else ":30")
  }

  function SlotCount(startHour: nat, endHour: nat): nat
  {
    if startHour < endHour then 2 * (endHour - startHour) else 0
  }

  /** The slots offered between two hours, as a closed formula. */
  function SlotsBetween(startHour: nat, endHour: nat): seq<string>
  {
    seq(SlotCount(startHour, endHour), SlotFn(startHour))
  }

  /** `SlotAt` for a fixed starting hour, as the generator of the slot
      sequence. */
  function SlotFn(startHour: nat): int --> string
  {
    (i: int) requires 0 <= i => SlotAt(startHour, i)
  }

  /** The two slots of `hour` sit at positions `2 * (hour - startHour)`
      and the one after. */
  lemma {:induction false} HourPair(startHour: nat, hour: nat, i: nat)
    requires startHour <= hour && i == 2 * (hour - startHour)
    ensures SlotAt(startHour, i) == HourLabel(hour) + ":00"
    ensures SlotAt(startHour, i + 1) == HourLabel(hour) + ":30"
  {
    Halves(i, hour - startHour);
    OnTheHourAt(startHour, i, hour);
    HalfPastAt(startHour, i + 1, hour);
  }

  lemma {:induction false} OnTheHourAt(startHour: nat, i: nat, hour: nat)
    requires startHour + i / 2 == hour && i % 2 == 0
    ensures SlotAt(startHour, i) == HourLabel(hour) + ":00"
  {
  }

  lemma {:induction false} HalfPastAt(startHour: nat, i: nat, hour: nat)
    requires startHour + i / 2 == hour && i % 2 == 1
    ensures SlotAt(startHour, i) == HourLabel(hour) + ":30"
  {
  }

  lemma {:induction false} Halves(i: nat, k: nat)
    requires i == 2 * k
    ensures i / 2 == k && i % 2 == 0
    ensures (i + 1) / 2 == k && (i + 1) % 2 == 1
  {
  }

  /** One more hour adds its `:00` and `:30` slots at the end. */
  lemma {:induction false} SlotsBetweenStep(startHour: nat, hour: nat)
    requires startHour <= hour
    ensures SlotsBetween(startHour, hour + 1)
         == SlotsBetween(startHour, hour) + [HourLabel(hour) + ":00", HourLabel(hour) + ":30"]
  {
    var i := 2 * (hour - startHour);
    HourPair(startHour, hour, i);
    SlotsGrow(startHour, hour, i, HourLabel(hour) + ":00", HourLabel(hour) + ":30");
  }

  lemma {:induction false} SlotsGrow(startHour: nat, hour: nat, i: nat, a: string, b: string)
    requires startHour <= hour && i == 2 * (hour - startHour)
    requires a == SlotAt(startHour, i) && b == SlotAt(startHour, i + 1)
    ensures SlotsBetween(startHour, hour + 1) == SlotsBetween(startHour, hour) + [a, b]
  {
    var f := SlotFn(startHour);
    assert SlotCount(startHour, hour) == i && SlotCount(startHour, hour + 1) == i + 2;
    assert SlotsBetween(startHour, hour) == seq(i, f);
    assert SlotsBetween(startHour, hour + 1) == seq(i + 2, f);
    assert f(i) == a && f(i + 1) == b;
    SeqGrowsByTwo(i, f);
  }

  /** The loop of `generateTimeSlots`:
      `for (hour = start; hour < end; hour++)` pushing `HH:00` and `HH:30`. */
  method HalfHourSlots(startHour: nat, endHour: nat) returns (slots: seq<string>)
    ensures |slots| == SlotCount(startHour, endHour)
    ensures forall i :: 0 <= i < |slots| ==> slots[i] == SlotAt(startHour, i)
    ensures slots == SlotsBetween(startHour, endHour)
  {
    slots := [];
    var hour := startHour;
    while hour < endHour
      invariant startHour <= hour
      invariant hour <= endHour || hour == startHour
      invariant slots == SlotsBetween(startHour, hour)
    {
      SlotsBetweenStep(startHour, hour);
      slots := slots + [HourLabel(hour) + ":00", HourLabel(hour) + ":30"];
      hour := hour + 1;
    }
  }

  /** The time of day, in minutes, of an `HH:MM` string: both parts
      non-empty digit strings around a single ':'. */
  function SlotMinutes(t: string): Option<nat>
  {
    var p := Split(t, ':');
    if |p| == 2 && AllDigits(p[0]) && AllDigits(p[1]) && p[0] != [] && p[1] != []
    then Some(60 * DigitsValue(p[0]) + DigitsValue(p[1]))
    else None
  }

  lemma {:induction false} MinuteTexts()
    ensures AllDigits("00") && DigitsValue("00") == 0
    ensures AllDigits("30") && DigitsValue("30") == 30
  {
  }

  lemma {:induction false} SlotTextMinutes(hh: string, mm: string)
    requires AllDigits(hh) && AllDigits(mm) && hh != [] && mm != [] && ':' !in mm
    ensures SlotMinutes(hh + [':'] + mm) == Some(60 * DigitsValue(hh) + DigitsValue(mm))
  {
    assert ':' !in hh by {
      forall k | 0 <= k < |hh| ensures hh[k] != ':' { assert IsDigit(hh[k]); }
    }
    SplitAfterPiece(hh, ':', mm);
    SplitWithoutSeparator(mm, ':');
    var p := Split(hh + [':'] + mm, ':');
    assert p == [hh, mm];
    assert p[0] == hh && p[1] == mm;
  }

  lemma {:induction false} LabelledMinutes(hh: string, h: nat, mm: string, m: nat)
    requires AllDigits(hh) && hh != [] && DigitsValue(hh) == h
    requires (mm == "00" && m == 0) || (mm == "30" && m == 30)
    ensures SlotMinutes(hh + [':'] + mm) == Some(60 * h + m)
  {
    MinuteTexts();
    SlotTextMinutes(hh, mm);
  }

  /** Reading an `HH:00` or `HH:30` label back. */
  lemma {:induction false} LabelledSlotMinutes(hh: string, h: nat, t: string, half: bool)
    requires AllDigits(hh) && hh != [] && DigitsValue(hh) == h
    requires t == hh + (if half then ":30" else ":00")
    ensures SlotMinutes(t) == Some(60 * h + if half then 30 else 0)
  {
    var mm: string := if half then "30" else "00";
    assert t == hh + [':'] + mm;
    LabelledMinutes(hh, h, mm, if half then 30 else 0);
  }

  /** Reading a generated slot back gives its time: the `i`-th slot from
      `startHour` is `30 * i` minutes after `startHour:00`. */
  lemma {:induction false} SlotAtMinutes(startHour: nat, i: nat)
    ensures SlotMinutes(SlotAt(startHour, i)) == Some(60 * startHour + 30 * i)
  {
    var h := startHour + i / 2;
    var half := i % 2 == 1;
    assert 60 * h + (if half then 30 else 0) == 60 * startHour + 30 * i;
    assert SlotAt(startHour, i) == HourLabel(h) + (if half then ":30" else ":00");
    HourLabelValue(h);
    LabelledSlotMinutes(HourLabel(h), h, SlotAt(startHour, i), half);
  }

  /** Slot `i` is at `startHour:00` plus `30 * i` minutes, so the slots are
      half an hour apart and lie within `[startHour:00, endHour:00)`. */
  lemma {:induction false} SlotTimes(startHour: nat, endHour: nat)
    ensures var s := SlotsBetween(startHour, endHour);
      forall i :: 0 <= i < |s| ==>
        SlotMinutes(s[i]) == Some(60 * startHour + 30 * i) && 30 * i < 60 * (endHour - startHour)
  {
    var s := SlotsBetween(startHour, endHour);
    forall i | 0 <= i < |s|
      ensures SlotMinutes(s[i]) == Some(60 * startHour + 30 * i)
    {
      assert s[i] == SlotAt(startHour, i);
      SlotAtMinutes(startHour, i);
    }
  }

  /** Strictly ascending in time. */
  lemma {:induction false} SlotsStrictlyIncreasing(startHour: nat, endHour: nat, i: nat, j: nat)
    requires i < j < |SlotsBetween(startHour, endHour)|
    ensures var s := SlotsBetween(startHour, endHour);
      SlotMinutes(s[i]).Some? && SlotMinutes(s[j]).Some?
      && SlotMinutes(s[i]).value < SlotMinutes(s[j]).value
  {
    var s := SlotsBetween(startHour, endHour);
    assert s[i] == SlotAt(startHour, i) && s[j] == SlotAt(startHour, j);
    SlotAtMinutes(startHour, i);
    SlotAtMinutes(startHour, j);
  }

  /** The end hour is exclusive: `endHour:00` is never offered. */
  lemma {:induction false} EndHourNotOffered(startHour: nat, endHour: nat)
    ensures HourLabel(endHour) + ":00" !in SlotsBetween(startHour, endHour)
  {
    var s := SlotsBetween(startHour, endHour);
    var t := HourLabel(endHour) + ":00";
    SlotAtMinutes(endHour, 0);
    assert SlotAt(endHour, 0) == t;
    forall i | 0 <= i < |s| ensures s[i] != t {
      SlotAtMinutes(startHour, i);
    }
  }

  /** The `i`-th slot ends in `:00` for even `i` and `:30` for odd. */
  lemma {:induction false} SlotSuffix(startHour: nat, i: nat)
    ensures var t := SlotAt(startHour, i);
      |t| >= 3 && t[|t| - 3..] == (if i % 2 == 0 then ":00" else ":30")
  {
    var hh := HourLabel(startHour + i / 2);
    var mm := if i % 2 == 0 then ":00" else ":30";
    assert (hh + mm)[|hh + mm| - 3..] == mm;
  }

  /** The generated slots alternate `:00` and `:30`. */
  lemma {:induction false} SlotsAlternate(startHour: nat, endHour: nat)
    ensures var s := SlotsBetween(startHour, endHour);
      forall i :: 0 <= i < |s| ==> |s[i]| >= 3 && s[i][|s[i]| - 3..] == (if i % 2 == 0 then ":00" else ":30")
  {
    var s := SlotsBetween(startHour, endHour);
    forall i | 0 <= i < |s|
      ensures |s[i]| >= 3 && s[i][|s[i]| - 3..] == (if i % 2 == 0 then ":00" else ":30")
    {
      assert s[i] == SlotAt(startHour, i);
      SlotSuffix(startHour, i);
    }
  }

  lemma {:induction false} SlotsBetweenAt(startHour: nat, endHour: nat, i: nat)
    requires i < SlotCount(startHour, endHour)
    ensures |SlotsBetween(startHour, endHour)| == SlotCount(startHour, endHour)
    ensures SlotsBetween(startHour, endHour)[i] == SlotAt(startHour, i)
  {
    var f := SlotFn(startHour);
    assert f(i) == SlotAt(startHour, i);
  }

  /** The first slot is `startHour:00`. */
  lemma {:induction false} FirstSlot(startHour: nat, endHour: nat)
    requires startHour < endHour
    ensures |SlotsBetween(startHour, endHour)| == 2 * (endHour - startHour)
    ensures SlotsBetween(startHour, endHour)[0] == HourLabel(startHour) + ":00"
  {
    SlotsBetweenAt(startHour, endHour, 0);
    HourPair(startHour, startHour, 0);
  }

  /** The last slot is `lastHour:30`, `lastHour` being the hour before
      `endHour`. */
  lemma {:induction false} LastSlot(startHour: nat, endHour: nat, lastHour: nat)
    requires startHour <= lastHour && lastHour + 1 == endHour
    ensures |SlotsBetween(startHour, endHour)| == 2 * (lastHour - startHour) + 2
    ensures SlotsBetween(startHour, endHour)[2 * (lastHour - startHour) + 1] == HourLabel(lastHour) + ":30"
  {
    var i := 2 * (lastHour - startHour);
    SlotsBetweenAt(startHour, endHour, i + 1);
    HourPair(startHour, lastHour, i);
  }

  /** `"09:00-17:00"` reads as the hours 9 and 17. */
  lemma {:induction false} NineToFiveHours()
    ensures ParseHours("09:00-17:00") == Some((Some(9), Some(17)))
  {
    ParseHoursOfRange("09", "00", "17", "00");
    assert DigitsValue("09") == 9 && DigitsValue("17") == 17;
    assert "09" + ":" + "00" + "-" + "17" + ":" + "00" == "09:00-17:00";
  }

  /** Hours 9 to 17 give sixteen slots, from `"09:00"` to `"16:30"`. */
  lemma {:induction false} NineToFiveSlots(startHour: nat, endHour: nat)
    requires startHour == 9 && endHour == 17
    ensures var s := SlotsBetween(startHour, endHour);
      |s| == 16 && s[0] == "09:00" && s[15] == "16:30"
  {
    FirstSlot(startHour, endHour);
    LastSlot(startHour, endHour, 16);
    LabelNine(startHour);
    LabelSixteen(16);
    OnTheHourLabel(HourLabel(startHour));
    HalfPastLabel(HourLabel(16));
  }

  lemma {:induction false} LabelNine(n: nat)
    requires n == 9
    ensures HourLabel(n) == "09"
  {
    assert Decimal(n) == [DigitChar(9)];
    assert DigitChar(9) == '9';
  }

  lemma {:induction false} LabelSixteen(n: nat)
    requires n == 16
    ensures HourLabel(n) == "16"
  {
    assert n / 10 == 1 && n % 10 == 6;
    assert Decimal(n) == [DigitChar(1), DigitChar(6)];
    var d := Decimal(n);
    assert d == "16";
  }

  lemma {:induction false} OnTheHourLabel(t: string)
    requires t == "09"
    ensures t + ":00" == "09:00"
  {
  }

  lemma {:induction false} HalfPastLabel(t: string)
    requires t == "16"
    ensures t + ":30" == "16:30"
  {
  }

  // ------------------------------------------------------ the operation

  /** What `generateTimeSlots` shows. */
  datatype SlotOutcome =
    | SelectDateFirst          // no date chosen, or no doctor in the session
    | NotAvailable(day: string) // the doctor does not work on that weekday
    | HoursUnreadable          // `available_hours` missing or without '-': a TypeError is thrown
    | Offered(slots: seq<string>)

  predicate AvailableOn(d: Doctor, dayName: string)
  {
    d.availableDays.Some? && dayName in d.availableDays.value
  }

  /** The slots for parsed hours; an hour that reads as `NaN` makes the loop
      condition false at once. */
  function SlotsForHours(h: (Option<nat>, Option<nat>)): seq<string>
  {
    if h.0.Some? && h.1.Some? then SlotsBetween(h.0.value, h.1.value) else []
  }

  /** The hours read from a doctor's record: `None` when there is no
      `available_hours` (`undefined.split` throws) or it has no '-'. */
  function HoursOf(d: Doctor): (r: Option<(Option<nat>, Option<nat>)>)
    ensures r.None? <==> d.availableHours.None? || '-' !in d.availableHours.value
  {
    if d.availableHours.None? then None
    else
      ParseHoursNeedsDash(d.availableHours.value);
      ParseHours(d.availableHours.value)
  }

  /** `generateTimeSlots` for the session's doctor, the date input's value
      and the weekday name of that date. */
  method GenerateTimeSlots(doctor: Option<Doctor>, dateValue: string, dayName: string)
    returns (outcome: SlotOutcome)
    ensures dateValue == "" || doctor.None? ==> outcome == SelectDateFirst
    ensures dateValue != "" && doctor.Some? && !AvailableOn(doctor.value, dayName)
            ==> outcome == NotAvailable(dayName)
    ensures dateValue != "" && doctor.Some? && AvailableOn(doctor.value, dayName)
            ==> match HoursOf(doctor.value)
                case None => outcome == HoursUnreadable
                case Some(h) => outcome == Offered(SlotsForHours(h))
  {
    if dateValue == "" || doctor.None? {
      return SelectDateFirst;
    }
    var d := doctor.value;
    if !AvailableOn(d, dayName) {
      return NotAvailable(dayName);
    }
    if d.availableHours.None? {
      return HoursUnreadable;
    }
    var hours := ParseHours(d.availableHours.value);
    if hours.None? {
      return HoursUnreadable;
    }
    var (start, end) := hours.value;
    if start.None? || end.None? {
      return Offered([]);
    }
    var slots := HalfHourSlots(start.value, end.value);
    return Offered(slots);
  }

  /** A start hour at or after the end hour offers no slot, which is a
      different outcome from an unavailable day. */
  lemma {:induction false} EmptyRangeIsNotUnavailable(d: Doctor, dayName: string, a: string, m1: string, b: string, m2: string)
    requires AvailableOn(d, dayName)
    requires AllDigits(a) && AllDigits(b) && '-' !in m1 && '-' !in m2
    requires d.availableHours == Some(a + ":" + m1 + "-" + b + ":" + m2)
    requires DigitsValue(a) >= DigitsValue(b)
    ensures HoursOf(d).Some?
    ensures SlotsForHours(HoursOf(d).value) == []
  {
    ParseHoursOfRange(a, m1, b, m2);
  }
}

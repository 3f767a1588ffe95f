/**
 * Time slots of the weekly timetable: the day, the start time in minutes
 * since midnight, whether games or practices are played in it, and the most
 * and fewest events it should hold.
 */
module Slots {
  import opened Common

  /** Minutes after midnight of "11:00", the league-wide admin meeting. */
  const MeetingTime: int := 660
  /** Minutes after midnight of "18:00", where the evening starts. */
  const EveningStart: int := 1080

  const IntMin: int := -0x8000_0000
  const IntMax: int := 0x7FFF_FFFF

  /** Java `int` arithmetic: the value moved by multiples of 2^32 into the signed 32-bit range. */
  function Int32(x: int): (r: int)
    ensures IntMin <= r <= IntMax
    ensures IntMin <= x <= IntMax ==> r == x
  {
    if IntMin <= x <= IntMax then x else (x - IntMin) % 0x1_0000_0000 + IntMin
  }

  /** A slot. `startTime` is already in minutes; `max` is the stored capacity. */
  datatype Slot = Slot(id: string, isGameSlot: bool, day: string, startTime: int, max: int, min: int)

  // ---------------------------------------------------------------------
  // Parsing "HH:MM"
  // ---------------------------------------------------------------------

  /** Every piece of `s` between occurrences of `c`, empty pieces included. */
  function Pieces(s: string, c: char): (r: seq<string>)
    ensures |r| >= 1
  {
    if |s| == 0 then [""]
    else if s[0] == c then [""] + Pieces(s[1..], c)
    else
      var rest := Pieces(s[1..], c);
      [[s[0]] + rest[0]] + rest[1..]
  }

  /** Drops empty strings from the end of a sequence, as a zero-limit split does. */
  function DropTrailingEmpty(ps: seq<string>): (r: seq<string>)
    ensures |r| <= |ps| && r == ps[..|r|]
    ensures |r| > 0 ==> r[|r| - 1] != ""
    ensures forall i :: |r| <= i < |ps| ==> ps[i] == ""
  {
    if |ps| > 0 && ps[|ps| - 1] == "" then DropTrailingEmpty(ps[..|ps| - 1]) else ps
  }

  /**
   * `s.split(c)` for a single non-meta character: the whole string when `c`
   * does not occur, otherwise the pieces with trailing empty ones removed.
   */
  function SplitOn(s: string, c: char): seq<string> {
    if c !in s then [s] else DropTrailingEmpty(Pieces(s, c))
  }

  predicate IsDigit(ch: char) { '0' as int <= ch as int <= '9' as int }

  function DigitsValue(s: string): (r: int)
    requires forall i :: 0 <= i < |s| ==> IsDigit(s[i])
    ensures r >= 0
  {
    if |s| == 0 then 0
    else
      assert IsDigit(s[|s| - 1]);
      DigitsValue(s[..|s| - 1]) * 10 + (s[|s| - 1] as int - '0' as int)
  }

  /** The message of the `NumberFormatException` that `Integer.parseInt(s)` throws. */
  function NotANumber(s: string): string {
    "For input string: \"" + s + "\""
  }

  /**
   * `Integer.parseInt` in radix 10 over ASCII digits: an optional sign, at
   * least one digit, and a value inside the 32-bit range.
   */
  function ParseInt(s: string): (r: Result<int, string>)
    ensures r.Success? ==> IntMin <= r.value <= IntMax
    ensures r.Failure? ==> r.error == NotANumber(s)
  {
    var neg := |s| > 0 && s[0] == '-';
    var digits := if |s| > 0 && (s[0] == '-' || s[0] == '+') then s[1..] else s;
    if |digits| == 0 then Failure(NotANumber(s))
    else if !(forall i :: 0 <= i < |digits| ==> IsDigit(digits[i])) then Failure(NotANumber(s))
    else
      var v := if neg then 0 - DigitsValue(digits) else DigitsValue(digits);
      if v < IntMin || v > IntMax then Failure(NotANumber(s)) else Success(v)
  }

  /** `Slot.timeToMin`: splits on ':' and reads hours and minutes. */
  function TimeToMin(time: string): Result<int, string> {
    TimeOfParts(SplitOn(time, ':'))
  }

  /** The message of the `ArrayIndexOutOfBoundsException` for `parts[i]` of an array of `i` pieces. */
  const NoHourPiece := "Index 0 out of bounds for length 0"
  const NoMinutePiece := "Index 1 out of bounds for length 1"

  /**
   * Hours from the first piece, then minutes from the second, in that
   * order: a missing piece is an exception once it is read, and the sum is
   * `int` arithmetic.
   */
  function TimeOfParts(parts: seq<string>): Result<int, string> {
    if |parts| == 0 then Failure(NoHourPiece)
    else match ParseInt(parts[0])
      case Failure(e) => Failure(e)
      case Success(hour) =>
        if |parts| < 2 then Failure(NoMinutePiece)
        else match ParseInt(parts[1])
          case Failure(e) => Failure(e)
          case Success(minute) => Success(Int32(hour * 60 + minute))
  }

  predicate NoChar(s: string, c: char) { forall i :: 0 <= i < |s| ==> s[i] != c }

  lemma {:induction false} PiecesOfTwo(h: string, m: string, c: char)
    requires NoChar(h, c) && NoChar(m, c)
    ensures Pieces(h + [c] + m, c) == [h, m]
  {
    if |h| == 0 {
      assert h + [c] + m == [c] + m;
      PiecesOfOne(m, c);
    } else {
      PiecesOfTwo(h[1..], m, c);
      assert (h + [c] + m)[1..] == h[1..] + [c] + m;
      assert [h[0]] + h[1..] == h;
    }
  }

  lemma {:induction false} PiecesOfOne(m: string, c: char)
    requires NoChar(m, c)
    ensures Pieces(m, c) == [m]
  {
    if |m| > 0 {
      PiecesOfOne(m[1..], c);
      assert [m[0]] + m[1..] == m;
    }
  }

  function Pow10(n: nat): nat { if n == 0 then 1 else 10 * Pow10(n - 1) }

  lemma {:induction false} DigitsBoundedBy(s: string)
    requires forall i :: 0 <= i < |s| ==> IsDigit(s[i])
    ensures DigitsValue(s) < Pow10(|s|)
  {
    if |s| > 0 {
      DigitsBoundedBy(s[..|s| - 1]);
    }
  }

  /** The hours numeral times sixty plus the minutes numeral, before any 32-bit wrap. */
  function ClockMinutes(h: string, m: string): int
    requires forall i :: 0 <= i < |h| ==> IsDigit(h[i])
    requires forall i :: 0 <= i < |m| ==> IsDigit(m[i])
  {
    DigitsValue(h) * 60 + DigitsValue(m)
  }

  /** An unsigned numeral of at most nine ASCII digits parses to its value. */
  lemma ParseIntOfDigits(s: string)
    requires 0 < |s| <= 9
    requires forall i :: 0 <= i < |s| ==> IsDigit(s[i])
    ensures ParseInt(s) == Success(DigitsValue(s))
  {
    DigitsBoundedBy(s);
    Pow10Le(|s|);
  }

  lemma SplitOfTwo(h: string, m: string, c: char)
    requires 0 < |m|
    requires NoChar(h, c) && NoChar(m, c)
    ensures SplitOn(h + [c] + m, c) == [h, m]
  {
    PiecesOfTwo(h, m, c);
    assert (h + [c] + m)[|h|] == c;
  }

  /**
   * A time written as two unsigned ASCII numerals around a colon reads as
   * hours times sixty plus minutes, taken as a 32-bit `int`.
   */
  lemma TimeToMinOfClock(h: string, m: string)
    requires 0 < |h| <= 9 && 0 < |m| <= 9
    requires forall i :: 0 <= i < |h| ==> IsDigit(h[i])
    requires forall i :: 0 <= i < |m| ==> IsDigit(m[i])
    ensures TimeToMin(h + ":" + m) == Success(Int32(ClockMinutes(h, m)))
  {
    ClockSplits(h, m);
    ParseIntOfDigits(h);
    ParseIntOfDigits(m);
    TimeOfReadParts([h, m], DigitsValue(h), DigitsValue(m));
    TimeViaParts(h + ":" + m, [h, m]);
  }

  /** With hours of at most seven digits nothing wraps: the time is hours times sixty plus minutes. */
  lemma TimeToMinNoWrap(h: string, m: string)
    requires 0 < |h| <= 7 && 0 < |m| <= 9
    requires forall i :: 0 <= i < |h| ==> IsDigit(h[i])
    requires forall i :: 0 <= i < |m| ==> IsDigit(m[i])
    ensures TimeToMin(h + ":" + m) == Success(ClockMinutes(h, m))
  {
    TimeToMinOfClock(h, m);
    DigitsBoundedBy(h);
    DigitsBoundedBy(m);
    Pow10Le7(|h|);
    Pow10Le(|m|);
    Int32Within(DigitsValue(h), DigitsValue(m));
  }

  /** Two pieces that read as numbers give hours times sixty plus minutes, as an `int`. */
  lemma TimeOfReadParts(parts: seq<string>, hour: int, minute: int)
    requires |parts| >= 2 && ParseInt(parts[0]) == Success(hour) && ParseInt(parts[1]) == Success(minute)
    ensures TimeOfParts(parts) == Success(Int32(hour * 60 + minute))
  {
  }

  /** Hours below 10^7 and minutes of at most nine digits sum inside the 32-bit range. */
  lemma Int32Within(hour: int, minute: int)
    requires 0 <= hour < 10_000_000 && 0 <= minute < 1_000_000_000
    ensures Int32(hour * 60 + minute) == hour * 60 + minute
  {
    assert hour * 60 < 600_000_000;
  }

  /** A value past the 32-bit maximum by at most 2^32 wraps once. */
  lemma Int32WrapsOnce(x: int)
    requires IntMax < x <= IntMax + 0x1_0000_0000
    ensures Int32(x) == x - 0x1_0000_0000
  {
  }

  /**
   * A time whose hours and minutes parse, but whose `hour * 60 + minute` is
   * beyond the 32-bit range, reads as the wrapped value: "35791395:0" gives
   * `35791395 * 60 - 2^32`, a negative minute.
   */
  lemma TimeToMinWraps(h: string, m: string)
    requires 0 < |h| <= 9 && 0 < |m| <= 9
    requires forall i :: 0 <= i < |h| ==> IsDigit(h[i])
    requires forall i :: 0 <= i < |m| ==> IsDigit(m[i])
    requires IntMax < ClockMinutes(h, m) <= IntMax + 0x1_0000_0000
    ensures TimeToMin(h + ":" + m) == Success(ClockMinutes(h, m) - 0x1_0000_0000)
  {
    TimeToMinOfClock(h, m);
    Int32WrapsOnce(ClockMinutes(h, m));
  }

  /**
   * The order of the reads: a time without a colon fails on its hours when
   * they are no number, and only then on the missing minutes.
   */
  lemma TimeReadsHoursFirst(s: string)
    requires ':' !in s
    ensures ParseInt(s).Failure? ==> TimeToMin(s) == Failure(NotANumber(s))
    ensures ParseInt(s).Success? ==> TimeToMin(s) == Failure(NoMinutePiece)
  {
  }

  lemma TimeViaParts(s: string, parts: seq<string>)
    requires SplitOn(s, ':') == parts
    ensures TimeToMin(s) == TimeOfParts(parts)
  {
  }

  lemma ClockSplits(h: string, m: string)
    requires 0 < |m|
    requires forall i :: 0 <= i < |h| ==> IsDigit(h[i])
    requires forall i :: 0 <= i < |m| ==> IsDigit(m[i])
    ensures SplitOn(h + ":" + m, ':') == [h, m]
  {
    assert NoChar(h, ':') by {
      forall i | 0 <= i < |h| ensures h[i] != ':' { assert IsDigit(h[i]); }
    }
    assert NoChar(m, ':') by {
      forall i | 0 <= i < |m| ensures m[i] != ':' { assert IsDigit(m[i]); }
    }
    assert h + ":" + m == h + [':'] + m;
    SplitOfTwo(h, m, ':');
  }

  lemma {:induction false} Pow10Le(n: nat)
    requires n <= 9
    decreases 9 - n
    ensures Pow10(n) <= 1_000_000_000
  {
    if n < 9 {
      Pow10Le(n + 1);
      assert Pow10(n + 1) == 10 * Pow10(n);
    } else {
      assert Pow10(1) == 10 && Pow10(2) == 100 && Pow10(3) == 1000;
      assert Pow10(6) == 1000 * Pow10(3);
      assert Pow10(9) == 1000 * Pow10(6);
    }
  }

  lemma {:induction false} Pow10Le7(n: nat)
    requires n <= 7
    decreases 7 - n
    ensures Pow10(n) <= 10_000_000
  {
    if n < 7 {
      Pow10Le7(n + 1);
      assert Pow10(n + 1) == 10 * Pow10(n);
    } else {
      assert Pow10(1) == 10 && Pow10(2) == 100 && Pow10(3) == 1000;
      assert Pow10(6) == 1000 * Pow10(3);
      assert Pow10(7) == 10 * Pow10(6);
    }
  }

  /** The clock time "hh:mm" written with two-digit hours and minutes. */
  function Clock(h1: char, h2: char, m1: char, m2: char): string {
    [h1, h2] + ":" + [m1, m2]
  }

  /** The value of a two-digit numeral. */
  lemma TwoDigitsValue(a: char, b: char)
    requires IsDigit(a) && IsDigit(b)
    ensures DigitsValue([a, b]) == (a as int - '0' as int) * 10 + (b as int - '0' as int)
  {
    var s := [a, b];
    assert s[..|s| - 1] == [a];
    assert [a][..0] == [];
    assert DigitsValue([a]) == a as int - '0' as int;
  }

  /** Two-digit hours and minutes around a colon read as hours times sixty plus minutes. */
  lemma ClockValue(h1: char, h2: char, m1: char, m2: char)
    requires IsDigit(h1) && IsDigit(h2) && IsDigit(m1) && IsDigit(m2)
    ensures TimeToMin(Clock(h1, h2, m1, m2)) ==
      Success(((h1 as int - '0' as int) * 10 + (h2 as int - '0' as int)) * 60
              + (m1 as int - '0' as int) * 10 + (m2 as int - '0' as int))
  {
    TwoDigitsValue(h1, h2);
    TwoDigitsValue(m1, m2);
    TimeToMinNoWrap([h1, h2], [m1, m2]);
  }

  lemma MeetingTimeValue()
    ensures TimeToMin("11:00") == Success(MeetingTime)
  {
    ClockValue('1', '1', '0', '0');
    assert Clock('1', '1', '0', '0') == "11:00";
  }

  lemma EveningStartValue()
    ensures TimeToMin("18:00") == Success(EveningStart)
  {
    ClockValue('1', '8', '0', '0');
    assert Clock('1', '8', '0', '0') == "18:00";
  }

  // ---------------------------------------------------------------------
  // Construction and queries
  // ---------------------------------------------------------------------

  function SlotId(day: string, time: string, isGameSlot: bool): string {
    day + " " + time + " " + (if isGameSlot then "game" else "practice")
  }

  /**
   * The `Slot` constructor: the id joins day, time text and kind; a start
   * time that does not parse is an exception; a Tuesday game slot written
   * as "11:00" gets capacity 0.
   */
  function NewSlot(isGameSlot: bool, day: string, startTime: string, max: int, min: int): (r: Result<Slot, string>)
    ensures r.Success? <==> TimeToMin(startTime).Success?
    ensures r.Success? ==>
      r.value.id == SlotId(day, startTime, isGameSlot)
      && r.value.day == day && r.value.isGameSlot == isGameSlot && r.value.min == min
      && r.value.startTime == TimeToMin(startTime).value
    ensures r.Success? ==> r.value.max == (if isGameSlot && day == "TU" && startTime == "11:00" then 0 else max)
    ensures r.Failure? ==> r.error == TimeToMin(startTime).error
  {
    match TimeToMin(startTime)
    case Failure(e) => Failure(e)
    case Success(t) =>
      var cap := if isGameSlot && day == "TU" && startTime == "11:00" then 0 else max;
      Success(Slot(SlotId(day, startTime, isGameSlot), isGameSlot, day, t, cap, min))
  }

  /** Minutes a slot lasts: 90 for Tuesday games, 120 for Friday practices, 60 otherwise. */
  function Duration(s: Slot): (r: int)
    ensures r > 0
  {
    if s.day == "TU" && s.isGameSlot then 90
    else if s.day == "FR" && !s.isGameSlot then 120
    else 60
  }

  function EndTime(s: Slot): int { s.startTime + Duration(s) }

  /** The effective capacity: no games at all during the Tuesday 11:00 meeting. */
  function GetMax(s: Slot): int {
    if s.isGameSlot && s.day == "TU" && s.startTime == MeetingTime then 0 else s.max
  }

  /** Days that count as overlapping: equal days, and a Monday practice with a Friday. */
  predicate DaysOverlap(a: Slot, b: Slot) {
    a.day == b.day
    || (a.day == "MO" && !a.isGameSlot && b.day == "FR")
    || (b.day == "MO" && !b.isGameSlot && a.day == "FR")
  }

  /** `Slot.overlaps` with a non-null argument. */
  predicate Overlaps(a: Slot, b: Slot) {
    if a == b then true
    else
      var timeOverlaps :=
        (b.startTime <= a.startTime && a.startTime < EndTime(b))
        || (a.startTime <= b.startTime && b.startTime < EndTime(a));
      DaysOverlap(a, b) && timeOverlaps
  }

  /** `Slot.overlaps` where the argument may be null: null never overlaps. */
  predicate OverlapsOpt(a: Slot, b: Option<Slot>) {
    b.Some? && Overlaps(a, b.value)
  }

  predicate IsEvening(s: Slot) { s.startTime >= EveningStart }

  /** The Tuesday practice slot reserved for the special practices (the code tests 11:00). */
  predicate IsSpecialPracticeSlot(s: Slot) {
    s.day == "TU" && !s.isGameSlot && s.startTime == MeetingTime
  }

  // ---------------------------------------------------------------------
  // Properties
  // ---------------------------------------------------------------------

  /**
   * Two slots overlap exactly when their days overlap and their half-open
   * intervals [start, end) intersect. In particular every slot overlaps
   * itself, so the identity shortcut changes nothing.
   */
  lemma OverlapsMeansIntersecting(a: Slot, b: Slot)
    ensures Overlaps(a, b) <==>
      DaysOverlap(a, b) && a.startTime < EndTime(b) && b.startTime < EndTime(a)
  {
  }

  lemma OverlapsSymmetric(a: Slot, b: Slot)
    ensures Overlaps(a, b) == Overlaps(b, a)
  {
    OverlapsMeansIntersecting(a, b);
    OverlapsMeansIntersecting(b, a);
  }

  lemma OverlapsReflexive(a: Slot)
    ensures Overlaps(a, a)
  {
  }

  /** Slots on different days never overlap, except a Monday practice with a Friday slot. */
  lemma DifferentDaysApart(a: Slot, b: Slot)
    requires a.day != b.day
    requires !(a.day == "MO" && !a.isGameSlot && b.day == "FR")
    requires !(b.day == "MO" && !b.isGameSlot && a.day == "FR")
    ensures !Overlaps(a, b)
  {
  }

  /** A slot lasts 90 minutes exactly when it is a Tuesday game slot, 120 exactly when it is a Friday practice slot, and 60 otherwise. */
  lemma Lengths(s: Slot)
    ensures EndTime(s) - s.startTime in {60, 90, 120}
    ensures EndTime(s) == s.startTime + 90 <==> s.day == "TU" && s.isGameSlot
    ensures EndTime(s) == s.startTime + 120 <==> s.day == "FR" && !s.isGameSlot
  {
  }

  /** A Tuesday game slot built from "11:00" can hold no game, whatever its declared maximum. */
  lemma MeetingSlotHasNoRoom(day: string, max: int, min: int)
    requires day == "TU"
    ensures NewSlot(true, day, "11:00", max, min).Success?
    ensures GetMax(NewSlot(true, day, "11:00", max, min).value) == 0
  {
    MeetingTimeValue();
  }

  /**
   * The effective capacity of a new slot: 0 for a Tuesday game slot whose
   * time reads as minute 660, however it is written, and the declared
   * maximum for every other slot.
   */
  lemma GetMaxOfNewSlot(isGameSlot: bool, day: string, startTime: string, max: int, min: int)
    requires NewSlot(isGameSlot, day, startTime, max, min).Success?
    ensures GetMax(NewSlot(isGameSlot, day, startTime, max, min).value) ==
      if isGameSlot && day == "TU" && TimeToMin(startTime).value == MeetingTime then 0 else max
  {
    MeetingTimeValue();
  }

  /** `getMax`: 0 for a Tuesday game slot that starts when "11:00" reads, the stored maximum otherwise. */
  lemma GetMaxMeans(s: Slot)
    ensures GetMax(s) ==
      if s.isGameSlot && s.day == "TU" && TimeToMin("11:00") == Success(s.startTime) then 0 else s.max
  {
    MeetingTimeValue();
  }

  /** `isEvening`: the slot starts at or after the minute "18:00" reads as. */
  lemma EveningMeans(s: Slot)
    ensures IsEvening(s) <==> TimeToMin("18:00").Success? && s.startTime >= TimeToMin("18:00").value
  {
    EveningStartValue();
  }

  /** `isSpecialPracticeSlot`: a Tuesday practice slot that starts when "11:00" reads. */
  lemma SpecialPracticeSlotMeans(s: Slot)
    ensures IsSpecialPracticeSlot(s) <==>
      s.day == "TU" && !s.isGameSlot && TimeToMin("11:00") == Success(s.startTime)
  {
    MeetingTimeValue();
  }

  /** A missing slot overlaps nothing; a present one overlaps as `Overlaps` says. */
  lemma OverlapsOptMeans(a: Slot, b: Option<Slot>)
    ensures OverlapsOpt(a, b) <==>
      b.Some? && DaysOverlap(a, b.value) && a.startTime < EndTime(b.value) && b.value.startTime < EndTime(a)
  {
    if b.Some? {
      OverlapsMeansIntersecting(a, b.value);
    }
  }

  /** Any Tuesday game slot whose time reads as 660 minutes has effective capacity 0. */
  lemma MeetingTimeHasNoRoom(s: Slot)
    requires s.isGameSlot && s.day == "TU" && s.startTime == MeetingTime
    ensures GetMax(s) == 0
  {
  }
}

/**
 * The request-time diagnostic: `pad`, `formatOffset` and `formatDate`.
 * The clock is not read here; the fields a JavaScript `Date` would report
 * (local time, month counted from 0, `getTimezoneOffset()` in minutes) are
 * passed in.
 */
module Dates {
  import opened Text
  import opened Results
  import opened Decimal

  /** What `getFullYear`, `getMonth`, `getDate`, `getHours`, `getMinutes`, `getSeconds` and `getTimezoneOffset` return. */
  datatype DateFields = DateFields(
    year: int, monthIndex: int, day: int,
    hours: int, minutes: int, seconds: int,
    offset: int)

  /** The ranges a `Date` reports its fields in; the offset bound keeps hours of offset below 100. */
  predicate ValidFields(f: DateFields) {
    0 <= f.monthIndex < 12 && 1 <= f.day <= 31
    && 0 <= f.hours < 24 && 0 <= f.minutes < 60 && 0 <= f.seconds < 60
    && -6000 < f.offset < 6000
  }

  /** Prefixes a `0` when the decimal text of `v` has exactly one character. */
  function Pad(v: int): (r: string)
    ensures r == (if 0 <= v < 10 then "0" else "") + IntToString(v)
  {
    (if |IntToString(v)| == 1 then "0" else "") + IntToString(v)
  }

  /** Every value in 0..99 becomes exactly two digits that denote it. */
  lemma PadTwoDigits(v: int)
    requires 0 <= v < 100
    ensures |Pad(v)| == 2 && AllDigits(Pad(v)) && DigitsValue(Pad(v)) == v
  {
    NatToStringRoundTrip(v);
    if v < 10 {
      DigitsValueLeadingZero(NatToString(v));
    }
  }

  /**
   * `getTimezoneOffset()` counts minutes from local time to UTC, so a zone
   * east of Greenwich has a negative offset and is written with `+`. The
   * text has six characters and reads back as local time minus UTC, which
   * is minus the offset, whenever the offset is under 100 hours.
   */
  function FormatOffset(offset: int): (r: string)
    ensures r != [] && r[0] == (if offset < 0 then '+' else '-')
    ensures -6000 < offset < 6000 ==> |r| == 6 && ParseUtcOffset(r) == Some(-offset)
  {
    var a := if offset < 0 then -offset else offset;
    var sign := if offset < 0 then '+' else '-';
    SignedClockRoundTrip(sign, a);
    [sign] + Pad(a / 60) + ":" + Pad(a % 60)
  }

  /** Reads `±HH:MM` back as the signed distance of local time from UTC, in minutes. */
  function ParseUtcOffset(s: string): Option<int> {
    if |s| == 6 && (s[0] == '+' || s[0] == '-') && s[3] == ':' && Field(s, 1).Some? && Field(s, 4).Some?
    then
      var minutes := Field(s, 1).value * 60 + Field(s, 4).value;
      Some(if s[0] == '+' then minutes else -minutes)
    else None
  }

  /** A sign, padded hours and padded minutes of `a` minutes read back as `a` with that sign. */
  lemma SignedClockRoundTrip(sign: char, a: int)
    requires sign == '+' || sign == '-'
    requires 0 <= a
    ensures var r := [sign] + Pad(a / 60) + ":" + Pad(a % 60);
      a < 6000 ==> |r| == 6 && ParseUtcOffset(r) == Some(if sign == '+' then a else -a)
  {
    if a < 6000 {
      PaddedClockParse(sign, a / 60, a % 60);
    }
  }

  /** A sign, then padded hours and minutes in 0..99, read back as that many minutes. */
  lemma PaddedClockParse(sign: char, hv: int, mv: int)
    requires sign == '+' || sign == '-'
    requires 0 <= hv < 100 && 0 <= mv < 100
    ensures var r := [sign] + Pad(hv) + ":" + Pad(mv);
      |r| == 6 && ParseUtcOffset(r) == Some(if sign == '+' then hv * 60 + mv else -(hv * 60 + mv))
  {
    var r := [sign] + Pad(hv) + ":" + Pad(mv);
    PadTwoDigits(hv);
    PadTwoDigits(mv);
    ClockSlices(sign, Pad(hv), Pad(mv));
    FieldOfPad(r, 1, hv);
    FieldOfPad(r, 4, mv);
  }

  /** Where the parts of `±HH:MM` sit. */
  lemma ClockSlices(sign: char, h: string, m: string)
    requires |h| == 2 && |m| == 2
    ensures var r := [sign] + h + ":" + m;
      |r| == 6 && r[0] == sign && r[3] == ':' && r[1..3] == h && r[4..6] == m
  {
  }

  /**
   * `Y-MM-DDTHH:MM:SS±HH:MM`; the year is written unpadded. For fields in the
   * ranges a `Date` reports, the text is the year's text plus 21 characters
   * and determines every field it was made from.
   */
  function FormatDate(f: DateFields): (r: string)
    ensures ValidFields(f) ==> |r| == |IntToString(f.year)| + 21 && ParseDate(r) == Some(f)
  {
    YearAndTailRoundTrip(f);
    IntToString(f.year) + DateTail(f)
  }

  /** Everything `FormatDate` writes after the year: five separated two-digit fields and the offset. */
  function DateTail(f: DateFields): string {
    Part('-', f.monthIndex + 1) + DayTail(f)
  }

  /** From the day on. */
  function DayTail(f: DateFields): string {
    Part('-', f.day) + (Part('T', f.hours) + ClockTail(f))
  }

  /** From the minutes on. */
  function ClockTail(f: DateFields): string {
    Part(':', f.minutes) + (Part(':', f.seconds) + FormatOffset(f.offset))
  }

  /** A separator followed by a padded value. */
  function Part(sep: char, v: int): string {
    [sep] + Pad(v)
  }

  /** Reads a two-digit field at index `i`. */
  function Field(s: string, i: nat): Option<nat>
    requires i + 2 <= |s|
  {
    if AllDigits(s[i..i + 2]) then Some(DigitsValue(s[i..i + 2])) else None
  }

  /** Reads the 21 characters after the year; the year field of the result is 0. */
  function ParseDateTail(t: string): Option<DateFields> {
    if |t| != 21 then None
    else
      var month := Field(t, 1);
      var day := Field(t, 4);
      var hours := Field(t, 7);
      var minutes := Field(t, 10);
      var seconds := Field(t, 13);
      var utc := ParseUtcOffset(t[15..]);
      if t[0] == '-' && t[3] == '-' && t[6] == 'T' && t[9] == ':' && t[12] == ':'
        && month.Some? && 1 <= month.value && day.Some? && hours.Some?
        && minutes.Some? && seconds.Some? && utc.Some?
      then Some(DateFields(0, month.value - 1, day.value, hours.value,
                           minutes.value, seconds.value, -utc.value))
      else None
  }

  /** Reads `FormatDate`'s layout back: everything before the last 21 characters is the year. */
  function ParseDate(s: string): Option<DateFields> {
    if |s| < 22 then None
    else
      var year := ParseInt(s[..|s| - 21]);
      var tail := ParseDateTail(s[|s| - 21..]);
      if year.Some? && tail.Some? then Some(tail.value.(year := year.value)) else None
  }

  /** A padded value in 0..99 reads back as a field. */
  lemma FieldOfPad(t: string, i: nat, v: int)
    requires 0 <= v < 100 && i + 2 <= |t| && t[i..i + 2] == Pad(v)
    ensures Field(t, i) == Some(v)
  {
    PadTwoDigits(v);
  }

  /** Splits a part off the front of the text that follows it. */
  lemma SplitPart(sep: char, v: int, rest: string)
    requires 0 <= v < 100
    ensures (Part(sep, v) + rest)[0] == sep
    ensures (Part(sep, v) + rest)[1..3] == Pad(v)
    ensures (Part(sep, v) + rest)[3..] == rest
  {
    PadTwoDigits(v);
  }

  /** Two parts in front of any text: where each separator and padded value sits. */
  lemma TwoPartsLayout(sep1: char, v1: int, sep2: char, v2: int, c: string)
    requires 0 <= v1 < 100 && 0 <= v2 < 100
    ensures var d := Part(sep1, v1) + (Part(sep2, v2) + c);
      |d| == 6 + |c| && d[0] == sep1 && d[1..3] == Pad(v1) && d[3] == sep2
      && d[4..6] == Pad(v2) && d[6..] == c
  {
    var t := Part(sep2, v2) + c;
    var d := Part(sep1, v1) + t;
    SplitPart(sep2, v2, c);
    SplitPart(sep1, v1, t);
    assert d[3..] == t;
    assert d[4..6] == t[1..3];
    assert d[6..] == t[3..];
  }

  lemma ClockTailLayout(f: DateFields)
    requires ValidFields(f)
    ensures var c := ClockTail(f);
      |c| == 12 && c[0] == ':' && c[1..3] == Pad(f.minutes) && c[3] == ':'
      && c[4..6] == Pad(f.seconds) && c[6..] == FormatOffset(f.offset)
  {
    TwoPartsLayout(':', f.minutes, ':', f.seconds, FormatOffset(f.offset));
  }

  lemma DayTailLayout(f: DateFields)
    requires ValidFields(f)
    ensures var d := DayTail(f);
      |d| == 18 && d[0] == '-' && d[1..3] == Pad(f.day) && d[3] == 'T'
      && d[4..6] == Pad(f.hours) && d[6..] == ClockTail(f)
  {
    ClockTailLayout(f);
    TwoPartsLayout('-', f.day, 'T', f.hours, ClockTail(f));
  }

  /** Where `FormatDate` puts each separator and each padded field after the year. */
  predicate LaidOut(t: string, f: DateFields) {
    |t| == 21 && t[0] == '-' && t[3] == '-' && t[6] == 'T' && t[9] == ':' && t[12] == ':'
    && t[1..3] == Pad(f.monthIndex + 1) && t[4..6] == Pad(f.day) && t[7..9] == Pad(f.hours)
    && t[10..12] == Pad(f.minutes) && t[13..15] == Pad(f.seconds) && t[15..] == FormatOffset(f.offset)
  }

  /** The text after the year is laid out field by field. */
  lemma DateTailLayout(f: DateFields)
    requires ValidFields(f)
    ensures LaidOut(DateTail(f), f)
  {
    var c := ClockTail(f);
    var d := DayTail(f);
    var t := DateTail(f);
    ClockTailLayout(f);
    DayTailLayout(f);
    SplitPart('-', f.monthIndex + 1, d);
    ShiftedFields(t, d, c);
  }

  /** Positions in the whole text after the year, read from the day part and the clock part. */
  lemma ShiftedFields(t: string, d: string, c: string)
    requires |t| == 21 && t[3..] == d && |d| == 18 && d[6..] == c
    ensures t[3] == d[0] && t[4..6] == d[1..3] && t[6] == d[3] && t[7..9] == d[4..6]
    ensures t[9] == c[0] && t[10..12] == c[1..3] && t[12] == c[3] && t[13..15] == c[4..6] && t[15..] == c[6..]
  {
    assert t[9..] == c;
  }

  /** The fields `ParseDateTail` reads from a text, each as `f` has it. */
  predicate ReadsAs(t: string, f: DateFields) {
    |t| == 21 && t[0] == '-' && t[3] == '-' && t[6] == 'T' && t[9] == ':' && t[12] == ':'
    && 0 <= f.monthIndex && Field(t, 1) == Some(f.monthIndex + 1) && Field(t, 4) == Some(f.day)
    && Field(t, 7) == Some(f.hours) && Field(t, 10) == Some(f.minutes) && Field(t, 13) == Some(f.seconds)
    && ParseUtcOffset(t[15..]) == Some(-f.offset)
  }

  /** `ParseDateTail` accepts a text whose separators and fields are in place. */
  lemma ParseDateTailOf(t: string, f: DateFields)
    requires ReadsAs(t, f)
    ensures ParseDateTail(t) == Some(f.(year := 0))
  {
  }

  /** A text laid out as `FormatDate` lays out the part after the year reads back as those fields. */
  lemma ParseLaidOutTail(t: string, f: DateFields)
    requires ValidFields(f) && LaidOut(t, f)
    ensures ParseDateTail(t) == Some(f.(year := 0))
  {
    LaidOutFields(t, f);
    ParseDateTailOf(t, f);
  }

  /** Every field of such a text reads back. */
  lemma LaidOutFields(t: string, f: DateFields)
    requires ValidFields(f) && LaidOut(t, f)
    ensures ReadsAs(t, f)
  {
    LaidOutDay(t, f);
    LaidOutClock(t, f);
    LaidOutOffset(t, f);
  }

  /** Month, day and hours read back. */
  lemma LaidOutDay(t: string, f: DateFields)
    requires ValidFields(f) && LaidOut(t, f)
    ensures Field(t, 1) == Some(f.monthIndex + 1) && Field(t, 4) == Some(f.day) && Field(t, 7) == Some(f.hours)
  {
    FieldOfPad(t, 1, f.monthIndex + 1);
    FieldOfPad(t, 4, f.day);
    FieldOfPad(t, 7, f.hours);
  }

  /** Minutes and seconds read back. */
  lemma LaidOutClock(t: string, f: DateFields)
    requires ValidFields(f) && LaidOut(t, f)
    ensures Field(t, 10) == Some(f.minutes) && Field(t, 13) == Some(f.seconds)
  {
    FieldOfPad(t, 10, f.minutes);
    FieldOfPad(t, 13, f.seconds);
  }

  /** The offset reads back as minus the offset. */
  lemma LaidOutOffset(t: string, f: DateFields)
    requires ValidFields(f) && LaidOut(t, f)
    ensures ParseUtcOffset(t[15..]) == Some(-f.offset)
  {
  }

  lemma DateTailRoundTrip(f: DateFields)
    requires ValidFields(f)
    ensures |DateTail(f)| == 21
    ensures ParseDateTail(DateTail(f)) == Some(f.(year := 0))
  {
    DateTailLayout(f);
    ParseLaidOutTail(DateTail(f), f);
  }

  /** The year's text followed by the rest of the layout reads back as every field. */
  lemma YearAndTailRoundTrip(f: DateFields)
    ensures var s := IntToString(f.year) + DateTail(f);
      ValidFields(f) ==> |s| == |IntToString(f.year)| + 21 && ParseDate(s) == Some(f)
  {
    if ValidFields(f) {
      var y := IntToString(f.year);
      var s := y + DateTail(f);
      DateTailRoundTrip(f);
      IntToStringRoundTrip(f.year);
      assert s[..|s| - 21] == y;
      assert s[|s| - 21..] == DateTail(f);
    }
  }
}

/**
 * The date-entry field: conversions between the stored `yyyy-mm-dd` value and
 * the displayed `dd/mm/yyyy` text, the calendar-validity check, and the typing
 * mask applied on every change and on blur.
 */
module DateInput {
  import opened Wrappers
  import opened Calendar
  import opened JsStrings

  /** A missing destructured element prints as "undefined" in a template string. */
  function Part(parts: seq<string>, i: nat): string {
    if i < |parts| then parts[i] else "undefined"
  }

  /** `yyyy-mm-dd` to `dd/mm/yyyy`; the empty value shows as empty text. */
  function IsoToDisplay(iso: string): (display: string)
    ensures iso == "" ==> display == ""
    ensures forall y, m, d :: '-' !in y && '-' !in m && '-' !in d && iso == y + "-" + m + "-" + d
                ==> display == d + "/" + m + "/" + y
  {
    if iso == "" then ""
    else
      SplitsOfThree(iso, '-');
      var parts := Split(iso, '-');
      Part(parts, 2) + "/" + Part(parts, 1) + "/" + Part(parts, 0)
  }

  lemma SplitsOfThree(s: string, sep: char)
    ensures forall a, b, c :: sep !in a && sep !in b && sep !in c && s == a + [sep] + b + [sep] + c
                ==> Split(s, sep) == [a, b, c]
  {
    forall a, b, c | sep !in a && sep !in b && sep !in c && s == a + [sep] + b + [sep] + c
      ensures Split(s, sep) == [a, b, c]
    {
      SplitThree(a, b, c, sep);
    }
  }

  /**
   * `dd/mm/yyyy` to `yyyy-mm-dd`, padding day and month with '0' to two
   * characters; "" unless the text has exactly three non-empty '/'-separated parts.
   */
  function DisplayToIso(display: string): (iso: string)
    ensures iso != "" <==> ThreeNonEmptyParts(Split(display, '/'))
    ensures iso != "" ==>
      var p := Split(display, '/');
      iso == p[2] + "-" + PadStart(p[1], 2, '0') + "-" + PadStart(p[0], 2, '0')
  {
    if display == "" then ""
    else
      var parts := Split(display, '/');
      if |parts| != 3 then ""
      else
        var day, month, year := parts[0], parts[1], parts[2];
        if day == "" || month == "" || year == "" then ""
        else year + "-" + PadStart(month, 2, '0') + "-" + PadStart(day, 2, '0')
  }

  predicate ThreeNonEmptyParts(parts: seq<string>) {
    |parts| == 3 && parts[0] != "" && parts[1] != "" && parts[2] != ""
  }

  /** The three fields of a `yyyy-mm-dd` string whose month and day have two characters. */
  predicate IsIsoShaped(iso: string) {
    |iso| == 10 && iso[4] == '-' && iso[7] == '-'
    && AllDigits(iso[..4]) && AllDigits(iso[5..7]) && AllDigits(iso[8..])
  }

  /** Showing a stored value and reading it back gives the stored value. */
  lemma IsoDisplayRoundTrip(y: string, m: string, d: string)
    requires y != "" && |m| == 2 && |d| == 2
    requires '-' !in y && '-' !in m && '-' !in d && '/' !in y && '/' !in m && '/' !in d
    ensures DisplayToIso(IsoToDisplay(y + "-" + m + "-" + d)) == y + "-" + m + "-" + d
  {
    SplitThree(d, m, y, '/');
  }

  /** Reading a `dd/mm/yyyy` text and showing the result gives the text back. */
  lemma DisplayIsoRoundTrip(d: string, m: string, y: string)
    requires y != "" && |m| == 2 && |d| == 2
    requires '-' !in y && '-' !in m && '-' !in d && '/' !in y && '/' !in m && '/' !in d
    ensures IsoToDisplay(DisplayToIso(d + "/" + m + "/" + y)) == d + "/" + m + "/" + y
  {
    SplitThree(d, m, y, '/');
  }

  // ---------------------------------------------------------------------------
  // Validity

  /** The (day, month, year) numbers of a text of three numeric '/'-separated parts. */
  function DisplayFields(display: string): (r: Option<Date>)
    ensures r.Some? <==> (|Split(display, '/')| == 3
                          && forall i :: 0 <= i < 3 ==> AllDigits(Split(display, '/')[i]))
    ensures r.Some? ==>
      var p := Split(display, '/');
      && ParseNumber(p[0]) == Some(r.value.day)
      && ParseNumber(p[1]) == Some(r.value.month)
      && ParseNumber(p[2]) == Some(r.value.year)
  {
    var parts := Split(display, '/');
    if |parts| != 3 then None
    else
      var day, month, year := ParseNumber(parts[0]), ParseNumber(parts[1]), ParseNumber(parts[2]);
      if day.None? || month.None? || year.None? then None
      else Some(Date(year.value, month.value, day.value))
  }

  /**
   * The fields `new Date(year, monthIndex, day)` reads back, with `month` 0-based
   * as `getMonth` returns it: a day past the end of the month rolls into the next.
   */
  function JsDateFields(year: int, monthIndex: int, day: int): (r: Date)
    requires 0 <= monthIndex <= 11 && 1 <= day <= 31
    ensures r.year == year && r.month == monthIndex && r.day == day <==> day <= DaysInMonth(year, monthIndex + 1)
  {
    var n := DaysInMonth(year, monthIndex + 1);
    if day <= n then Date(year, monthIndex, day)
    else if monthIndex == 11 then Date(year + 1, 0, day - n)
    else Date(year, monthIndex + 1, day - n)
  }

  /**
   * A `dd/mm/yyyy` text names a real day between the years 1900 and 2100:
   * three numeric parts, and the day exists in that month of that year.
   */
  function IsValidDisplayDate(display: string): (b: bool)
    ensures b <==> DisplayFields(display).Some?
                   && 1900 <= DisplayFields(display).value.year <= 2100
                   && ValidDate(DisplayFields(display).value)
  {
    if display == "" then false
    else
      var parts := Split(display, '/');
      if |parts| != 3 then false
      else
        var fields := DisplayFields(display);
        if fields.None? then false
        else
          var day, month, year := fields.value.day, fields.value.month, fields.value.year;
          if day < 1 || day > 31 then false
          else if month < 1 || month > 12 then false
          else if year < 1900 || year > 2100 then false
          else
            var date := JsDateFields(year, month - 1, day);
            date.year == year && date.month == month - 1 && date.day == day
  }

  // ---------------------------------------------------------------------------
  // Typing mask

  /** What a change of the text leads to: the ISO value is reported, or the text is kept as partial input. */
  datatype TextChangeEffect = EmitIso(iso: string) | StorePartial(text: string)

  /**
   * The mask for text typed without slashes: a slash after the day digits,
   * another after the month digits, at most ten characters.
   */
  function AutoSlashed(digits: string): (text: string)
    ensures |text| <= 10
    ensures 8 <= |digits| ==> text == digits[..2] + "/" + digits[2..4] + "/" + digits[4..8]
    ensures |digits| >= 2 ==> |text| > 2 && text[2] == '/'
    ensures |digits| >= 4 ==> |text| > 5 && text[5] == '/'
    ensures AllDigits(digits) ==> Digits(text) == Take(digits, 8)
    ensures AllDigits(digits) ==>
      Count(text, '/') == if |digits| >= 4 then 2 else if |digits| >= 2 then 1 else 0
  {
    var text := Take(SlashesInserted(digits), 10);
    AutoSlashedCounts(digits, text);
    text
  }

  /** The digits and slashes of the mask: at most eight digits, in typing order, and one slash per group boundary. */
  lemma AutoSlashedCounts(d: string, text: string)
    requires text == Take(SlashesInserted(d), 10)
    ensures AllDigits(d) ==> Digits(text) == Take(d, 8)
    ensures AllDigits(d) ==> Count(text, '/') == if |d| >= 4 then 2 else if |d| >= 2 then 1 else 0
  {
    if AllDigits(d) {
      if |d| < 2 {
        DigitString(d);
      } else if |d| < 4 {
        DayGroupTyped(d);
      } else {
        MonthGroupTyped(d, Take(d[4..], 4));
      }
    }
  }

  lemma DayGroupTyped(d: string)
    requires AllDigits(d) && 2 <= |d| < 4
    ensures Digits(d[..2] + "/" + d[2..]) == d
    ensures Count(d[..2] + "/" + d[2..], '/') == 1
  {
    SlashJoined(d[..2], d[2..]);
    DigitString(d[..2]);
    DigitString(d[2..]);
    assert d[..2] + d[2..] == d;
  }

  lemma MonthGroupTyped(d: string, c: string)
    requires AllDigits(d) && |d| >= 4 && c == Take(d[4..], 4)
    ensures Take(SlashesInserted(d), 10) == d[..2] + "/" + d[2..4] + "/" + c
    ensures Digits(d[..2] + "/" + d[2..4] + "/" + c) == Take(d, 8)
    ensures Count(d[..2] + "/" + d[2..4] + "/" + c, '/') == 2
  {
    SlashJoined(d[..2] + "/" + d[2..4], c);
    SlashJoined(d[..2], d[2..4]);
    DigitString(d[..2]);
    DigitString(d[2..4]);
    DigitString(c);
    assert d[..2] + d[2..4] == d[..4];
    if |d| >= 8 {
      assert d[..4] + d[4..8] == d[..8];
    } else {
      assert d[..4] + d[4..] == d;
    }
  }

  /** A digit string is its own digits and holds no slash. */
  lemma DigitString(a: string)
    requires AllDigits(a)
    ensures Digits(a) == a && Count(a, '/') == 0
  {
    DigitsOfDigits(a);
    CountAbsent(a, '/');
  }

  /** Joining two texts with a slash adds one slash and no digit. */
  lemma SlashJoined(a: string, b: string)
    ensures Digits(a + "/" + b) == Digits(a) + Digits(b)
    ensures Count(a + "/" + b, '/') == Count(a, '/') + 1 + Count(b, '/')
  {
    SlashJoinedDigits(a, b);
    SlashJoinedCount(a, b);
  }

  lemma SlashJoinedDigits(a: string, b: string)
    ensures Digits(a + "/" + b) == Digits(a) + Digits(b)
  {
    assert Digits("/") == "";
    DigitsConcat(a + "/", b);
    DigitsConcat(a, "/");
  }

  lemma SlashJoinedCount(a: string, b: string)
    ensures Count(a + "/" + b, '/') == Count(a, '/') + 1 + Count(b, '/')
  {
    assert Count("/", '/') == 1;
    CountConcat(a + "/", b, '/');
    CountConcat(a, "/", '/');
  }

  /** The slashes of the mask, before the length limit. */
  function SlashesInserted(digits: string): string {
    if |digits| < 2 then digits
    else if |digits| < 4 then digits[..2] + "/" + digits[2..]
    else digits[..2] + "/" + digits[2..4] + "/" + digits[4..]
  }

  /**
   * Normalise the typed text and decide what to report: only digits and '/'
   * remain, slashes are inserted as the digits are typed, at most ten
   * characters are kept, and the ISO value is reported only for a complete
   * valid date.
   */
  method HandleTextChange(value: string) returns (text: string, effect: TextChangeEffect)
    ensures OnlyDigitsAndSlashes(text)
    ensures |text| <= 10
    ensures Digits(text) <= Digits(value)
    ensures '/' !in value && |Digits(value)| <= 8 ==> Digits(text) == Digits(value)
    ensures '/' !in value ==> text == AutoSlashed(Digits(value))
    ensures Count(value, '/') == 1 ==>
      var kept := KeepDigitsAndSlashes(value);
      var p := Split(kept, '/');
      text == Take(if |Digits(kept)| >= 4 then p[0] + "/" + Take(p[1], 2) + "/" + Drop(p[1], 2) else kept, 10)
    ensures Count(value, '/') >= 2 ==> text == Take(KeepDigitsAndSlashes(value), 10)
    ensures OnlyDigitsAndSlashes(value) && |value| == 10 && IsValidDisplayDate(value) ==>
      text == value && effect == EmitIso(DisplayToIso(value))
    ensures effect.EmitIso? <==> |text| == 10 && IsValidDisplayDate(text)
    ensures effect.EmitIso? ==> effect.iso == DisplayToIso(text)
    ensures effect.StorePartial? ==> effect.text == text
  {
    var input := KeepDigitsAndSlashes(value);
    ghost var kept := input;
    var digits := Digits(input);
    if |digits| >= 2 && '/' !in input {
      input := digits[..2] + "/" + digits[2..];
    }
    if |digits| >= 4 && |Split(input, '/')| < 3 {
      var parts := Split(input, '/');
      if |parts| == 2 {
        input := parts[0] + "/" + Take(parts[1], 2) + "/" + Drop(parts[1], 2);
      }
    }
    assert input == Masked(kept);
    if |input| > 10 {
      input := input[..10];
    }
    text := input;
    MaskedText(value, text);

    if |input| == 10 && IsValidDisplayDate(input) {
      effect := EmitIso(DisplayToIso(input));
    } else {
      assert |input| < 10 || !IsValidDisplayDate(input);
      effect := StorePartial(input);
    }
  }

  /** The mask before the length limit: a slash after the day digits, then one after the month digits. */
  function Masked(kept: string): string {
    var digits := Digits(kept);
    var slashed := if |digits| >= 2 && '/' !in kept then digits[..2] + "/" + digits[2..] else kept;
    var parts := Split(slashed, '/');
    if |digits| >= 4 && |parts| < 3 && |parts| == 2
    then parts[0] + "/" + Take(parts[1], 2) + "/" + Drop(parts[1], 2)
    else slashed
  }

  /** The mask keeps the filtered text's digits and adds only slashes. */
  lemma MaskedShape(kept: string)
    requires OnlyDigitsAndSlashes(kept)
    ensures OnlyDigitsAndSlashes(Masked(kept))
    ensures Digits(Masked(kept)) == Digits(kept)
  {
    var digits := Digits(kept);
    var slashed := if |digits| >= 2 && '/' !in kept then digits[..2] + "/" + digits[2..] else kept;
    if |digits| >= 2 && '/' !in kept {
      SlashInserted(digits, 2);
    }
    var parts := Split(slashed, '/');
    if |digits| >= 4 && |parts| < 3 && |parts| == 2 {
      JoinSplit(slashed, '/');
      MaskParts(parts[0], parts[1]);
    }
  }

  /** What the field shows for typed text, case by case. */
  lemma MaskedText(value: string, text: string)
    requires text == Take(Masked(KeepDigitsAndSlashes(value)), 10)
    ensures OnlyDigitsAndSlashes(text)
    ensures |text| <= 10
    ensures Digits(text) <= Digits(value)
    ensures '/' !in value && |Digits(value)| <= 8 ==> Digits(text) == Digits(value)
    ensures '/' !in value ==> text == AutoSlashed(Digits(value))
    ensures Count(value, '/') == 1 ==>
      var kept := KeepDigitsAndSlashes(value);
      var p := Split(kept, '/');
      text == Take(if |Digits(kept)| >= 4 then p[0] + "/" + Take(p[1], 2) + "/" + Drop(p[1], 2) else kept, 10)
    ensures Count(value, '/') >= 2 ==> text == Take(KeepDigitsAndSlashes(value), 10)
    ensures OnlyDigitsAndSlashes(value) && |value| == 10 && IsValidDisplayDate(value) ==> text == value
  {
    var kept := KeepDigitsAndSlashes(value);
    var digits := Digits(kept);
    var slashed := if |digits| >= 2 && '/' !in kept then digits[..2] + "/" + digits[2..] else kept;
    var masked := Masked(kept);
    MaskedShape(kept);
    if |masked| > 10 {
      Truncated(masked);
    }
    if |digits| >= 2 && '/' !in kept {
      SlashInserted(digits, 2);
    }
    SlashFreeTyping(value, kept, slashed);
    SecondSlash(value, slashed, masked);
    MaskOfSlashFreeText(value, text);
    SlashedTyping(value, kept, slashed, masked);
    if OnlyDigitsAndSlashes(value) && |value| == 10 && IsValidDisplayDate(value) {
      CompleteDateKept(value);
    }
  }

  /**
   * Text typed with slashes keeps them: with two or more, the filtered text is
   * left as it is; with one, a second slash goes after the month digits once
   * four digits are typed.
   */
  lemma SlashedTyping(value: string, kept: string, slashed: string, masked: string)
    requires kept == KeepDigitsAndSlashes(value)
    requires slashed == if |Digits(kept)| >= 2 && '/' !in kept
                        then Digits(kept)[..2] + "/" + Digits(kept)[2..] else kept
    requires
      var parts := Split(slashed, '/');
      masked == if |Digits(kept)| >= 4 && |parts| < 3 && |parts| == 2
                then parts[0] + "/" + Take(parts[1], 2) + "/" + Drop(parts[1], 2) else slashed
    ensures Count(value, '/') == 1 ==>
      var p := Split(kept, '/');
      masked == if |Digits(kept)| >= 4 then p[0] + "/" + Take(p[1], 2) + "/" + Drop(p[1], 2) else kept
    ensures Count(value, '/') >= 2 ==> masked == kept
  {
    if Count(value, '/') >= 1 {
      CountPositive(kept, '/');
    }
  }

  /** A complete valid date made of digits and slashes passes the filter unchanged. */
  lemma CompleteDateKept(value: string)
    requires OnlyDigitsAndSlashes(value) && |value| == 10 && IsValidDisplayDate(value)
    ensures KeepDigitsAndSlashes(value) == value && Count(value, '/') == 2
  {
  }

  /** After the first slash is inserted: text typed without slashes is `dd/` followed by the rest. */
  lemma SlashFreeTyping(value: string, typed: string, slashed: string)
    requires typed == KeepDigitsAndSlashes(value)
    requires slashed == if |Digits(typed)| >= 2 && '/' !in typed
                        then Digits(typed)[..2] + "/" + Digits(typed)[2..] else typed
    ensures '/' !in value ==> slashed == if |Digits(value)| >= 2 then Digits(value)[..2] + "/" + Digits(value)[2..] else Digits(value)
  {
    if '/' !in value {
      DigitsOfDigits(typed);
    }
  }

  /**
   * After the second slash is inserted the text still holds only digits and
   * slashes and the same digits; text typed without slashes is `dd/mm/` followed by the rest.
   */
  lemma SecondSlash(value: string, slashed: string, input: string)
    requires '/' !in value ==> slashed == if |Digits(value)| >= 2 then Digits(value)[..2] + "/" + Digits(value)[2..] else Digits(value)
    requires Digits(slashed) == Digits(value)
    requires
      var parts := Split(slashed, '/');
      input == if |Digits(slashed)| >= 4 && |parts| < 3 && |parts| == 2
               then parts[0] + "/" + Take(parts[1], 2) + "/" + Drop(parts[1], 2) else slashed
    ensures '/' !in value ==> input == SlashesInserted(Digits(value))
  {
    var d := Digits(value);
    if '/' !in value && |d| >= 4 {
      SplitAfterDayDigits(d);
    }
  }

  /** Typed digits with the first slash inserted split into the day digits and the rest. */
  lemma SplitAfterDayDigits(d: string)
    requires AllDigits(d) && |d| >= 4
    ensures Split(d[..2] + "/" + d[2..], '/') == [d[..2], d[2..]]
    ensures Take(d[2..], 2) == d[2..4] && Drop(d[2..], 2) == d[4..]
  {
    assert '/' !in d[..2] && '/' !in d[2..];
    SplitConcat(d[..2], d[2..], '/');
    SplitNoSeparator(d[2..], '/');
  }

  lemma Truncated(input: string)
    requires |input| > 10 && OnlyDigitsAndSlashes(input)
    ensures OnlyDigitsAndSlashes(input[..10])
    ensures Digits(input[..10]) <= Digits(input)
  {
    DigitsConcat(input[..10], input[10..]);
    assert input == input[..10] + input[10..];
  }

  lemma MaskOfSlashFreeText(value: string, text: string)
    requires '/' !in value ==> text == Take(SlashesInserted(Digits(value)), 10)
    ensures '/' !in value ==> text == AutoSlashed(Digits(value))
  {
  }

  lemma SlashInserted(digits: string, k: nat)
    requires AllDigits(digits) && k <= |digits|
    ensures OnlyDigitsAndSlashes(digits[..k] + "/" + digits[k..])
    ensures Digits(digits[..k] + "/" + digits[k..]) == digits
  {
    SlashInsertedShape(digits[..k], digits[k..]);
    SlashJoinedDigits(digits[..k], digits[k..]);
    DigitString(digits[..k]);
    DigitString(digits[k..]);
    assert digits[..k] + digits[k..] == digits;
  }

  lemma SlashInsertedShape(a: string, b: string)
    requires AllDigits(a) && AllDigits(b)
    ensures OnlyDigitsAndSlashes(a + "/" + b)
  {
    assert OnlyDigitsAndSlashes(a) && OnlyDigitsAndSlashes(b) && OnlyDigitsAndSlashes("/");
    OnlyDigitsAndSlashesConcat(a + "/", b);
    OnlyDigitsAndSlashesConcat(a, "/");
  }

  lemma MaskParts(a: string, b: string)
    requires OnlyDigitsAndSlashes(a + "/" + b)
    ensures OnlyDigitsAndSlashes(a + "/" + Take(b, 2) + "/" + Drop(b, 2))
    ensures Digits(a + "/" + Take(b, 2) + "/" + Drop(b, 2)) == Digits(a + "/" + b)
  {
    var t, u := Take(b, 2), Drop(b, 2);
    assert b == t + u;
    OnlyDigitsAndSlashesConcat(a + "/", b);
    OnlyDigitsAndSlashesConcat(t, u);
    OnlyDigitsAndSlashesConcat(a + "/", t);
    OnlyDigitsAndSlashesConcat(a + "/" + t, "/");
    OnlyDigitsAndSlashesConcat(a + "/" + t + "/", u);
    MaskPartsDigits(a, t, u);
  }

  lemma MaskPartsDigits(a: string, t: string, u: string)
    ensures Digits(a + "/" + t + "/" + u) == Digits(a + "/" + (t + u))
  {
    assert Digits("/") == "";
    DigitsConcat(a + "/" + t + "/", u);
    DigitsConcat(a + "/" + t, "/");
    DigitsConcat(a + "/", t);
    DigitsConcat(a + "/", t + u);
    DigitsConcat(t, u);
  }

  /** On leaving the field, the ISO value is reported only for a complete valid date. */
  function HandleBlur(value: string): (emitted: Option<string>)
    ensures emitted.Some? <==> |value| == 10 && IsValidDisplayDate(value)
    ensures emitted.Some? ==> emitted.value == DisplayToIso(value)
  {
    if |value| == 10 && IsValidDisplayDate(value) then Some(DisplayToIso(value)) else None
  }

  /** The date a `yyyy-mm-dd` string names. */
  function IsoFields(iso: string): Date
    requires IsIsoShaped(iso)
  {
    Date(DigitsValue(iso[..4]), DigitsValue(iso[5..7]), DigitsValue(iso[8..]))
  }

  /**
   * Leaving the field with the text it shows for a stored date between 1900
   * and 2100 reports that same stored value.
   */
  lemma BlurKeepsStoredValue(iso: string)
    requires IsIsoShaped(iso) && ValidDate(IsoFields(iso)) && 1900 <= IsoFields(iso).year <= 2100
    ensures HandleBlur(IsoToDisplay(iso)) == Some(iso)
  {
    var y, m, d := iso[..4], iso[5..7], iso[8..];
    assert forall c :: c in y ==> IsDigit(c) by {
      forall c | c in y ensures IsDigit(c) { var i :| 0 <= i < |y| && y[i] == c; }
    }
    assert forall c :: c in m ==> IsDigit(c) by {
      forall c | c in m ensures IsDigit(c) { var i :| 0 <= i < |m| && m[i] == c; }
    }
    assert forall c :: c in d ==> IsDigit(c) by {
      forall c | c in d ensures IsDigit(c) { var i :| 0 <= i < |d| && d[i] == c; }
    }
    assert iso == y + "-" + m + "-" + d;
    SplitThree(y, m, d, '-');
    var display := d + "/" + m + "/" + y;
    assert IsoToDisplay(iso) == display;
    SplitThree(d, m, y, '/');
    assert Split(display, '/') == [d, m, y];
    assert DisplayFields(display) == Some(IsoFields(iso));
    assert IsValidDisplayDate(display);
    assert |display| == 10;
    IsoDisplayRoundTrip(y, m, d);
    assert DisplayToIso(display) == iso;
  }

  /**
   * A valid ten-character text need not have two-digit day and month and a
   * four-digit year, so the reported value need not be `yyyy-mm-dd`.
   */
  lemma ReportedValueMayNotBeIsoShaped()
    ensures HandleBlur("01/1/02000") == Some("02000-01-01")
    ensures !IsIsoShaped("02000-01-01")
  {
    DigitsValueExamples();
    assert AllDigits("1") && AllDigits("01") && AllDigits("02000");
    assert PadStart("1", 2, '0') == "01" && PadStart("01", 2, '0') == "01";
    assert "01" + "/" + "1" + "/" + "02000" == "01/1/02000";
    assert "02000" + "-" + "01" + "-" + "01" == "02000-01-01";
    PaddedNumberAccepted("01", "1", "02000", Date(2000, 1, 1));
  }

  lemma DigitsValueExamples()
    ensures DigitsValue("1") == 1 && DigitsValue("01") == 1 && DigitsValue("02000") == 2000
  {
    assert "1"[..0] == "" && "0"[..0] == "";
    assert "01"[..1] == "0" && "02"[..1] == "0";
    assert "020"[..2] == "02" && "0200"[..3] == "020" && "02000"[..4] == "0200";
    assert DigitsValue("0") == 0 && DigitsValue("02") == 2 && DigitsValue("020") == 20;
    assert DigitsValue("0200") == 200;
  }

  lemma PaddedNumberAccepted(d: string, m: string, y: string, date: Date)
    requires '/' !in d && '/' !in m && '/' !in y && d != "" && m != "" && y != ""
    requires |d + "/" + m + "/" + y| == 10
    requires ParseNumber(d) == Some(date.day) && ParseNumber(m) == Some(date.month)
    requires ParseNumber(y) == Some(date.year)
    requires ValidDate(date) && 1900 <= date.year <= 2100
    ensures HandleBlur(d + "/" + m + "/" + y) == Some(y + "-" + PadStart(m, 2, '0') + "-" + PadStart(d, 2, '0'))
  {
    SplitThree(d, m, y, '/');
    assert DisplayFields(d + "/" + m + "/" + y) == Some(date);
  }
}

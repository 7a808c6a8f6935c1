/** The validated fields of a contact: `Phone` (exactly ten digits) and
    `Birthday` (a date read with `strptime(value, '%d.%m.%Y')`). */
module Fields {
  import opened Exceptions
  import opened Seqs
  import opened Text
  import opened Calendar

  const PhoneError := "Phone number must contain exactly 10 digits."
  const DateError := "Invalid date format. Use DD.MM.YYYY"

  /** What `re.match(r"^\d{10}$", value)` accepts. */
  predicate IsPhone(s: string)
  {
    |s| == 10 && AllDigits(s)
  }

  /** `Phone(value)`: keeps the text unchanged if it is ten digits, raises
      otherwise. */
  function NewPhone(s: string): (r: Outcome<string>)
    ensures r.Returned? <==> |s| == 10 && forall i :: 0 <= i < |s| ==> '0' <= s[i] <= '9'
    ensures r.Returned? ==> r.value == s
    ensures r.Raised? ==> r.exc == ValueError(PhoneError)
  {
    if IsPhone(s) then Returned(s) else Raised(ValueError(PhoneError))
  }

  /** The `%d` directive: `3[01]|[12]\d|0[1-9]|[1-9]| [1-9]`. */
  function DayField(t: string): (r: Option<int>)
    ensures r.Some? ==> 1 <= r.value <= 31
  {
    if |t| == 2 && AllDigits(t)
       && ((t[0] == '3' && (t[1] == '0' || t[1] == '1'))
           || t[0] == '1' || t[0] == '2'
           || (t[0] == '0' && t[1] != '0'))
    then Some(10 * DigitValue(t[0]) + DigitValue(t[1]))
    else if |t| == 1 && IsDigit(t[0]) && t[0] != '0' then Some(DigitValue(t[0]))
    else if |t| == 2 && t[0] == ' ' && IsDigit(t[1]) && t[1] != '0' then Some(DigitValue(t[1]))
    else None
  }

  /** The `%m` directive: `1[0-2]|0[1-9]|[1-9]`. */
  function MonthField(t: string): (r: Option<int>)
    ensures r.Some? ==> 1 <= r.value <= 12
  {
    if |t| == 2 && AllDigits(t)
       && ((t[0] == '1' && '0' <= t[1] <= '2') || (t[0] == '0' && t[1] != '0'))
    then Some(10 * DigitValue(t[0]) + DigitValue(t[1]))
    else if |t| == 1 && IsDigit(t[0]) && t[0] != '0' then Some(DigitValue(t[0]))
    else None
  }

  /** `datetime.strptime(s, '%d.%m.%Y').date()`, or None where it raises: the
      text must be a day, a dot, a month, a dot and four digits of year, and
      name a date that exists. */
  function ParseDate(s: string): (r: Option<Date>)
    ensures r.Some? ==> ValidDate(r.value)
  {
    match FirstIndex(s, '.')
    case None => None
    case Some(i) =>
      var rest := s[i + 1..];
      match FirstIndex(rest, '.')
      case None => None
      case Some(j) =>
        var yearText := rest[j + 1..];
        if |yearText| != 4 || !AllDigits(yearText) then None
        else
          match (DayField(s[..i]), MonthField(rest[..j]))
          case (Some(day), Some(month)) =>
            var d := Date(DigitsValue(yearText), month, day);
            if ValidDate(d) then Some(d) else None
          case _ => None
  }

  /** `Birthday(value)`: the parsed date, or the ValueError it re-raises. */
  function NewBirthday(s: string): (r: Outcome<Date>)
    ensures r.Returned? <==> ParseDate(s).Some?
    ensures r.Returned? ==> ValidDate(r.value) && Some(r.value) == ParseDate(s)
    ensures r.Raised? ==> r.exc == ValueError(DateError)
  {
    match ParseDate(s)
    case Some(d) => Returned(d)
    case None => Raised(ValueError(DateError))
  }

  /** `d.strftime('%d.%m.%Y')`: two-digit day and month, four-digit year. */
  function FormatDate(d: Date): (r: string)
    requires ValidDate(d)
    ensures |r| == 10 && r[2] == '.' && r[5] == '.'
    ensures IsDigit(r[0]) && IsDigit(r[9])
  {
    PadDigits(d.day, 2) + "." + PadDigits(d.month, 2) + "." + PadDigits(d.year, 4)
  }

  /** Reading back a formatted date gives the same date: what `show-birthday`
      and `all` print is accepted by `add-birthday` and means the same day. */
  lemma FormatParse(d: Date)
    requires ValidDate(d)
    ensures ParseDate(FormatDate(d)) == Some(d)
  {
    ParseParts(PadDigits(d.day, 2), PadDigits(d.month, 2), PadDigits(d.year, 4));
    PaddedDay(d.day);
    PaddedMonth(d.month);
  }

  /** A number below 100 written with two digits is its tens digit followed
      by its units digit. */
  lemma TwoDigits(n: nat)
    requires n < 100
    ensures PadDigits(n, 2) == [Digit(n / 10), Digit(n % 10)]
  {
    assert PadDigits(n / 10, 1) == PadDigits(n / 100, 0) + [Digit(n / 10 % 10)];
  }

  /** `%d` reads back every day of the month written with two digits. */
  lemma PaddedDay(n: nat)
    requires 1 <= n <= 31
    ensures DayField(PadDigits(n, 2)) == Some(n)
  {
    TwoDigits(n);
    var t := PadDigits(n, 2);
    assert DigitValue(t[0]) == n / 10 && DigitValue(t[1]) == n % 10;
    assert t[0] == '3' <==> n / 10 == 3;
    assert t[0] == '0' <==> n / 10 == 0;
    assert t[1] == '0' <==> n % 10 == 0;
  }

  /** `%m` reads back every month written with two digits. */
  lemma PaddedMonth(n: nat)
    requires 1 <= n <= 12
    ensures MonthField(PadDigits(n, 2)) == Some(n)
  {
    TwoDigits(n);
    var t := PadDigits(n, 2);
    assert DigitValue(t[0]) == n / 10 && DigitValue(t[1]) == n % 10;
    assert t[0] == '1' <==> n / 10 == 1;
    assert t[0] == '0' <==> n / 10 == 0;
    assert t[1] == '0' <==> n % 10 == 0;
  }

  /** A text made of two digits, a dot, two digits, a dot and four digits is
      split at its dots into day, month and year fields. */
  lemma ParseParts(dd: string, mm: string, yy: string)
    requires |dd| == 2 && |mm| == 2 && |yy| == 4 && AllDigits(dd) && AllDigits(mm) && AllDigits(yy)
    ensures ParseDate(dd + "." + mm + "." + yy) ==
              match (DayField(dd), MonthField(mm))
              case (Some(day), Some(month)) =>
                if ValidDate(Date(DigitsValue(yy), month, day)) then Some(Date(DigitsValue(yy), month, day)) else None
              case _ => None
  {
    var s := dd + "." + mm + "." + yy;
    assert s[..2] == dd;
    assert '.' !in dd && '.' !in mm by {
      assert forall i :: 0 <= i < 2 ==> dd[i] != '.' && mm[i] != '.';
    }
    FirstIndexAt(s, '.', 2);
    var rest := s[3..];
    assert rest == mm + "." + yy;
    assert rest[..2] == mm by {
      assert forall i :: 0 <= i < 2 ==> rest[i] == mm[i];
    }
    FirstIndexAt(rest, '.', 2);
    assert rest[3..] == yy;
  }
}

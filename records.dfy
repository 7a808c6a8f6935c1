/** One contact: the `Record` class with its ordered phone list and optional
    birthday, the operations that change them in place, and the value-level
    functions that specify those operations. */
module Records {
  import opened Exceptions
  import opened Seqs
  import opened Text
  import opened Calendar
  import opened Fields

  /** The state of a record apart from its name (its key in the book). */
  datatype RecordVal = RecordVal(phones: seq<string>, birthday: Option<Date>)

  /** What the constructors guarantee of a record: every stored phone passed
      validation and a stored birthday is a real date. */
  predicate ValidRecord(r: RecordVal)
  {
    (forall i :: 0 <= i < |r.phones| ==> IsPhone(r.phones[i]))
    && (r.birthday.Some? ==> ValidDate(r.birthday.value))
  }

  /** The outcome of an operation on a phone list, with the list it leaves. */
  datatype PhonesChange<T> = PhonesChange(out: Outcome<T>, phones: seq<string>)

  /** `edit_phone(old, new)` on a phone list: the first entry equal to `old` is
      removed, and only then is `new` validated and appended. */
  function EditPhones(phones: seq<string>, oldPhone: string, newPhone: string): (r: PhonesChange<bool>)
    ensures oldPhone !in phones ==> r == PhonesChange(Returned(false), phones)
    ensures oldPhone in phones && IsPhone(newPhone) ==>
              r.out == Returned(true) && r.phones == RemoveFirst(phones, oldPhone) + [newPhone]
              && |r.phones| == |phones| && r.phones[|r.phones| - 1] == newPhone
              && multiset(r.phones) == multiset(phones) - multiset{oldPhone} + multiset{newPhone}
    ensures oldPhone in phones && !IsPhone(newPhone) ==>
              r.out == Raised(ValueError(PhoneError)) && r.phones == RemoveFirst(phones, oldPhone)
              && |r.phones| == |phones| - 1
  {
    if oldPhone !in phones then PhonesChange(Returned(false), phones)
    else
      var rest := RemoveFirst(phones, oldPhone);
      RemoveFirstMeaning(phones, oldPhone);
      match NewPhone(newPhone)
      case Raised(e) => PhonesChange(Raised(e), rest)
      case Returned(p) => PhonesChange(Returned(true), rest + [p])
  }

  /** Editing a list of valid phones leaves only valid phones. */
  lemma EditKeepsValid(phones: seq<string>, oldPhone: string, newPhone: string)
    requires forall i :: 0 <= i < |phones| ==> IsPhone(phones[i])
    ensures forall i :: 0 <= i < |EditPhones(phones, oldPhone, newPhone).phones| ==>
              IsPhone(EditPhones(phones, oldPhone, newPhone).phones[i])
  {
    if oldPhone in phones {
      var i := FirstIndex(phones, oldPhone).value;
      var rest := RemoveFirst(phones, oldPhone);
      forall j | 0 <= j < |rest| ensures IsPhone(rest[j]) {
        RemovedAt(phones, i, j);
      }
    }
  }

  /** Does (m1, d1) come before (m2, d2) in the calendar year? */
  predicate EarlierInYear(m1: int, d1: int, m2: int, d2: int)
  {
    m1 < m2 || (m1 == m2 && d1 < d2)
  }

  /** `days_to_birthday` once a birthday `b` is set: this year's occurrence if
      it is not before `today`, otherwise next year's, counted in days from
      `today`; each `replace(year=...)` may raise. */
  function DaysUntil(b: Date, today: Date): Outcome<int>
    requires ValidDate(b) && ValidDate(today)
  {
    match ReplaceYear(b, today.year)
    case Raised(e) => Raised(e)
    case Returned(next) =>
      if Precedes(next, today) then
        match ReplaceYear(b, today.year + 1)
        case Raised(e) => Raised(e)
        case Returned(later) => Returned(Ordinal(later) - Ordinal(today))
      else
        Returned(Ordinal(next) - Ordinal(today))
  }

  /** The days to a birthday, read off the calendar: the next occurrence is in
      this year unless its month and day are already behind `today`'s. It
      raises exactly when this year's or that occurrence does not exist (29
      February outside a leap year, or year 10000); otherwise the count is never
      negative and is zero exactly on the birthday itself. */
  lemma DaysUntilMeaning(b: Date, today: Date)
    requires ValidDate(b) && ValidDate(today)
    ensures var y := if EarlierInYear(b.month, b.day, today.month, today.day)
                     then today.year + 1 else today.year;
            var occurrence := Date(y, b.month, b.day);
            && (DaysUntil(b, today).Raised? <==>
                  !ValidDate(Date(today.year, b.month, b.day)) || !ValidDate(occurrence))
            && (DaysUntil(b, today).Returned? ==>
                  DaysUntil(b, today).value == Ordinal(occurrence) - Ordinal(today)
                  && DaysUntil(b, today).value >= 0
                  && (DaysUntil(b, today).value == 0 <==> b.month == today.month && b.day == today.day))
  {
    var next := Date(today.year, b.month, b.day);
    if ValidDate(next) {
      OrdinalOrder(next, today);
      var later := Date(today.year + 1, b.month, b.day);
      if Precedes(next, today) && ValidDate(later) {
        OrdinalOrder(later, today);
        assert Precedes(today, later);
      }
    }
  }

  /** The test `get_upcoming_birthdays` applies to one birthday `b`, with the
      window's last day given by its day number `lastDay`: this year's
      occurrence in [today, last day], or, when this year's is before today,
      next year's in that window. */
  function InWindow(b: Date, today: Date, lastDay: int): Outcome<bool>
    requires ValidDate(b) && ValidDate(today)
  {
    match ReplaceYear(b, today.year)
    case Raised(e) => Raised(e)
    case Returned(next) =>
      if !Precedes(next, today) && Ordinal(next) <= lastDay then Returned(true)
      else if Precedes(next, today) then
        match ReplaceYear(b, today.year + 1)
        case Raised(e) => Raised(e)
        case Returned(later) => Returned(!Precedes(later, today) && Ordinal(later) <= lastDay)
      else Returned(false)
  }

  /** The window test and `days_to_birthday` agree: a birthday is in the window
      of `days` days exactly when the days to it are at most `days`, and one
      raises exactly when the other does, with the same exception. */
  lemma InWindowDays(b: Date, today: Date, days: int)
    requires ValidDate(b) && ValidDate(today)
    ensures InWindow(b, today, Ordinal(today) + days) ==
            match DaysUntil(b, today)
            case Raised(e) => Raised(e)
            case Returned(n) => Returned(n <= days)
  {
    var next := Date(today.year, b.month, b.day);
    if ValidDate(next) {
      OrdinalOrder(next, today);
      var later := Date(today.year + 1, b.month, b.day);
      if Precedes(next, today) && ValidDate(later) {
        OrdinalOrder(later, today);
      }
    }
  }

  /** `birthday.value.strftime('%d.%m.%Y') if birthday else "N/A"`. */
  function BirthdayText(b: Option<Date>): string
    requires b.Some? ==> ValidDate(b.value)
  {
    match b
    case Some(d) => FormatDate(d)
    case None => "N/A"
  }

  /** `str(record)`: one line naming the contact, its phones joined by "; " and
      its birthday. */
  function Summary(name: string, r: RecordVal): string
    requires ValidRecord(r)
  {
    "Contact name: " + name + ", phones: " + Join(r.phones, "; ") + ", birthday: "
    + BirthdayText(r.birthday)
  }

  /** The summary opens with the contact's name and closes with its birthday,
      and so has no whitespace at either end. */
  lemma SummaryShape(name: string, r: RecordVal)
    requires ValidRecord(r)
    ensures Trimmed(Summary(name, r))
    ensures "Contact name: " + name + ", phones: " <= Summary(name, r)
    ensures var t := BirthdayText(r.birthday);
            |t| <= |Summary(name, r)| && Summary(name, r)[|Summary(name, r)| - |t|..] == t
  {
  }

  /** The "; "-joined text of valid phones can be cut back into them: phone `k`
      sits at offset 12 * k, so the text lists every phone, in list order. */
  lemma {:induction false} PhonesText(phones: seq<string>, k: nat)
    requires forall i :: 0 <= i < |phones| ==> IsPhone(phones[i])
    requires k < |phones|
    ensures |Join(phones, "; ")| == 12 * |phones| - 2
    ensures Join(phones, "; ")[12 * k..12 * k + 10] == phones[k]
    decreases |phones|
  {
    var n := |phones|;
    if n > 1 {
      var front := phones[..n - 1];
      PhonesText(front, if k < n - 1 then k else 0);
      var j := Join(front, "; ");
      assert Join(phones, "; ") == j + "; " + phones[n - 1];
      if k < n - 1 {
        assert (j + "; " + phones[n - 1])[12 * k..12 * k + 10] == j[12 * k..12 * k + 10];
      }
    }
  }

  /** A contact as Python holds it: the name fixed at creation, a list of
      phones and an optional birthday that its methods change in place. */
  class Record {
    const name: string
    var phones: seq<string>
    var birthday: Option<Date>

    function Val(): RecordVal
      reads this
    {
      RecordVal(phones, birthday)
    }

    ghost predicate Valid()
      reads this
    {
      ValidRecord(Val())
    }

    /** `Record(name)`: no phones and no birthday yet. */
    constructor (name: string)
      ensures this.name == name && phones == [] && birthday == None
      ensures Valid()
    {
      this.name := name;
      phones := [];
      birthday := None;
    }

    /** `add_phone`: a valid phone is appended as the last entry; an invalid
        one raises before the list is touched. */
    method AddPhone(phone: string) returns (o: Outcome<()>)
      requires Valid()
      modifies this
      ensures Valid()
      ensures IsPhone(phone) ==> o == Returned(()) && phones == old(phones) + [phone]
      ensures !IsPhone(phone) ==> o == Raised(ValueError(PhoneError)) && phones == old(phones)
      ensures birthday == old(birthday)
    {
      var p := NewPhone(phone);
      match p
      case Raised(e) =>
        o := Raised(e);
      case Returned(v) =>
        phones := phones + [v];
        o := Returned(());
    }

    /** `remove_phone`: deletes the first entry equal to `phone` and says
        whether there was one. */
    method RemovePhone(phone: string) returns (removed: bool)
      requires Valid()
      modifies this
      ensures Valid()
      ensures removed == (phone in old(phones))
      ensures phones == RemoveFirst(old(phones), phone)
      ensures birthday == old(birthday)
    {
      var i := 0;
      while i < |phones|
        invariant 0 <= i <= |phones|
        invariant phone !in phones[..i]
      {
        if phones[i] == phone {
          FirstIndexAt(phones, phone, i);
          phones := phones[..i] + phones[i + 1..];
          return true;
        }
        assert phones[..i + 1] == phones[..i] + [phones[i]];
        i := i + 1;
      }
      assert phones[..i] == phones;
      return false;
    }

    /** `edit_phone`: removes the first entry equal to `old`, then validates
        `new` and appends it; with no such entry it changes nothing. */
    method EditPhone(oldPhone: string, newPhone: string) returns (o: Outcome<bool>)
      requires Valid()
      modifies this
      ensures Valid()
      ensures PhonesChange(o, phones) == EditPhones(old(phones), oldPhone, newPhone)
      ensures birthday == old(birthday)
    {
      var i := 0;
      while i < |phones|
        invariant 0 <= i <= |phones|
        invariant oldPhone !in phones[..i]
        invariant phones == old(phones)
      {
        if phones[i] == oldPhone {
          FirstIndexAt(phones, oldPhone, i);
          phones := phones[..i] + phones[i + 1..];
          var p := NewPhone(newPhone);
          match p
          case Raised(e) =>
            return Raised(e);
          case Returned(v) =>
            phones := phones + [v];
            return Returned(true);
        }
        assert phones[..i + 1] == phones[..i] + [phones[i]];
        i := i + 1;
      }
      assert phones[..i] == phones;
      return Returned(false);
    }

    /** `find_phone`: the first entry equal to `phone`, given by its position. */
    function FindPhone(phone: string): (r: Option<nat>)
      reads this
      ensures r.None? <==> phone !in phones
      ensures r.Some? ==> r.value < |phones| && phones[r.value] == phone
                          && forall j :: 0 <= j < r.value ==> phones[j] != phone
    {
      var r := FirstIndex(phones, phone);
      assert r.Some? ==> forall j :: 0 <= j < r.value ==> phones[j] == phones[..r.value][j];
      r
    }

    /** `add_birthday`: a valid date replaces any earlier birthday; an invalid
        text raises and leaves the birthday as it was. */
    method AddBirthday(text: string) returns (o: Outcome<()>)
      requires Valid()
      modifies this
      ensures Valid()
      ensures ParseDate(text).Some? ==> o == Returned(()) && birthday == ParseDate(text)
      ensures ParseDate(text).None? ==> o == Raised(ValueError(DateError)) && birthday == old(birthday)
      ensures phones == old(phones)
    {
      var b := NewBirthday(text);
      match b
      case Raised(e) =>
        o := Raised(e);
      case Returned(d) =>
        birthday := Some(d);
        o := Returned(());
    }

    /** `days_to_birthday`, with the clock reading `today` passed in: None
        without a birthday, else the days to its next occurrence. */
    function DaysToBirthday(today: Date): (r: Outcome<Option<int>>)
      reads this
      requires Valid() && ValidDate(today)
      ensures birthday.None? ==> r == Returned(None)
      ensures birthday.Some? ==>
                r == match DaysUntil(birthday.value, today)
                     case Raised(e) => Raised(e)
                     case Returned(n) => Returned(Some(n))
      ensures r.Returned? && r.value.Some? ==>
                birthday.Some? && r.value.value >= 0
                && (r.value.value == 0 <==> today.month == birthday.value.month && today.day == birthday.value.day)
    {
      match birthday
      case None => Returned(None)
      case Some(b) =>
        DaysUntilMeaning(b, today);
        match DaysUntil(b, today)
        case Raised(e) => Raised(e)
        case Returned(n) => Returned(Some(n))
    }

    /** `__str__`. */
    function ToString(): (s: string)
      reads this
      requires Valid()
      ensures Trimmed(s) && "Contact name: " + name + ", phones: " <= s
    {
      SummaryShape(name, Val());
      Summary(name, Val())
    }
  }
}

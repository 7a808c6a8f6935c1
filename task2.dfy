/** The command handlers of `task2.py`: the same commands, whose bodies raise
    on a bad call and are each wrapped by the `input_error` decorator, which
    turns the exceptions it catches into messages. A body is specified by a
    function on the contents of the book giving its outcome; a decorated
    handler is a method proved against that function passed through
    `InputError`. */
module Task2 {
  import opened Exceptions
  import opened Text
  import opened Calendar
  import opened Fields
  import opened Records
  import opened Book
  import opened Handlers

  /** What `input_error` returns for an IndexError. */
  const ArgsMissing := "Not enough arguments, try again."

  /** `input_error(func)` applied to what `func` did: a returned value passes
      through, a ValueError becomes its message, an IndexError and a KeyError
      become fixed messages, and every other exception escapes unchanged. */
  function InputError(o: Outcome<string>): (r: Outcome<string>)
    ensures o.Returned? ==> r == o
    ensures o.Raised? && o.exc.ValueError? ==> r == Returned(o.exc.msg)
    ensures o == Raised(IndexError) ==> r == Returned(ArgsMissing)
    ensures o == Raised(KeyError) ==> r == Returned(NotFound)
    ensures r.Raised? <==> o.Raised? && o.exc.OverflowError?
    ensures r.Raised? ==> r == o
  {
    match o
    case Returned(_) => o
    case Raised(ValueError(m)) => Returned(m)
    case Raised(IndexError) => Returned(ArgsMissing)
    case Raised(KeyError) => Returned(NotFound)
    case Raised(OverflowError(_)) => o
  }

  /** A decorated handler's effect: the body's outcome through `InputError`,
      on the book the body left. */
  function Guarded(e: Effect<Outcome<string>>): Effect<Outcome<string>>
  {
    Effect(InputError(e.result), e.after)
  }

  /** The body of `add_contact` on the contents: a ValueError for a missing
      phone; otherwise the record is found or filed, and the phones are
      appended until one raises, which escapes. */
  function AddContactBody(args: seq<string>, b: BookVal): (e: Effect<Outcome<string>>)
    requires ValidBook(b)
    ensures ValidBook(e.after)
  {
    if |args| < 2 then Effect(Raised(ValueError(AddUsage)), b)
    else
      var name := args[0];
      var phones := args[1..];
      var start := if name in b.recs then b.recs[name] else RecordVal([], None);
      var n := ValidPrefix(phones);
      var r := RecordVal(start.phones + phones[..n], start.birthday);
      PutKeeps(b, name, r);
      Effect(if n < |phones| then Raised(ValueError(PhoneError))
             else Returned(if name in b.recs then Updated else Added),
             Put(b, name, r))
  }

  /** The body of `change_contact`: a ValueError for the wrong number of
      arguments, a KeyError for an unknown name, and what `edit_phone`
      raises. */
  function ChangeContactBody(args: seq<string>, b: BookVal): (e: Effect<Outcome<string>>)
    requires ValidBook(b)
    ensures ValidBook(e.after)
  {
    if |args| != 3 then Effect(Raised(ValueError(ChangeUsage)), b)
    else if args[0] !in b.recs then Effect(Raised(KeyError), b)
    else
      var r := b.recs[args[0]];
      var c := EditPhones(r.phones, args[1], args[2]);
      EditKeepsValid(r.phones, args[1], args[2]);
      PutKeeps(b, args[0], RecordVal(c.phones, r.birthday));
      Effect(if c.out.Raised? then Raised(c.out.exc) else Returned(Updated),
             Put(b, args[0], RecordVal(c.phones, r.birthday)))
  }

  /** The body of `add_birthday`: usage and unknown name raise, and so does a
      text that is not a date. */
  function AddBirthdayBody(args: seq<string>, b: BookVal): (e: Effect<Outcome<string>>)
    requires ValidBook(b)
    ensures ValidBook(e.after)
  {
    if |args| != 2 then Effect(Raised(ValueError(AddBirthdayUsage)), b)
    else if args[0] !in b.recs then Effect(Raised(KeyError), b)
    else
      match NewBirthday(args[1])
      case Raised(x) => Effect(Raised(x), b)
      case Returned(d) =>
        PutKeeps(b, args[0], RecordVal(b.recs[args[0]].phones, Some(d)));
        Effect(Returned(BirthdayAdded), Put(b, args[0], RecordVal(b.recs[args[0]].phones, Some(d))))
  }

  /** The body of `get_phone`: it only reads the book. */
  function GetPhoneBody(args: seq<string>, b: BookVal): Outcome<string>
    requires ValidBook(b)
  {
    if |args| != 1 then Raised(ValueError(PhoneUsage))
    else if args[0] !in b.recs then Raised(KeyError)
    else Returned(Join(b.recs[args[0]].phones, "; "))
  }

  /** The body of `show_birthday`: it only reads the book. */
  function ShowBirthdayBody(args: seq<string>, b: BookVal): Outcome<string>
    requires ValidBook(b)
  {
    if |args| != 1 then Raised(ValueError(ShowBirthdayUsage))
    else if args[0] !in b.recs then Raised(KeyError)
    else
      match b.recs[args[0]].birthday
      case None => Returned(NoBirthday)
      case Some(d) => Returned(args[0] + "'s birthday is on " + FormatDate(d))
  }

  /** The body of `list_contacts`. */
  function ListContactsBody(args: seq<string>, b: BookVal): Outcome<string>
    requires ValidBook(b)
  {
    if |args| > 0 then Raised(ValueError(AllUsage))
    else if |b.recs| == 0 then Returned(EmptyBook)
    else Returned(Join(Summaries(b, b.order), "\n"))
  }

  /** The body of `birthdays` on the day `today`: what
      `get_upcoming_birthdays(7)` raises escapes the body. */
  function BirthdaysBody(args: seq<string>, b: BookVal, today: Date): Outcome<string>
    requires ValidBook(b) && ValidDate(today)
  {
    if |args| > 0 then Raised(ValueError(BirthdaysUsage))
    else
      UpcomingInBook(b, today, Window);
      match Upcoming(b, today, Window)
      case Raised(x) => Raised(x)
      case Returned(names) =>
        if names == [] then Returned(NoUpcoming) else Returned(Join(Summaries(b, names), "\n"))
  }

  /** The decorated `add_contact`. */
  method AddContact(args: seq<string>, book: AddressBook) returns (r: Outcome<string>)
    requires book.Valid()
    modifies book, book.data.Values
    ensures book.Valid()
    ensures Effect(r, book.View()) == Guarded(AddContactBody(args, old(book.View())))
  {
    if |args| < 2 {
      return InputError(Raised(ValueError(AddUsage)));
    }
    ghost var before := book.View();
    var name := args[0];
    var phones := args[1..];
    var record, msg := FindOrFile(book, name);
    ghost var start := record.Val();
    ghost var filed := book.View();
    var o := AddPhones(record, phones);
    r := InputError(if o.Raised? then Raised(o.exc) else Returned(msg));
    forall k | k in book.data && k != name ensures book.data[k].Val() == filed.recs[k] {
      assert book.data[k] != record;
    }
    RecordChanged(book, record, filed);
    PutPut(before, name, start, record.Val());
  }

  /** The decorated `change_contact`. */
  method ChangeContact(args: seq<string>, book: AddressBook) returns (r: Outcome<string>)
    requires book.Valid()
    modifies book.data.Values
    ensures book.Valid()
    ensures Effect(r, book.View()) == Guarded(ChangeContactBody(args, old(book.View())))
  {
    if |args| != 3 {
      return InputError(Raised(ValueError(ChangeUsage)));
    }
    var found := book.Find(args[0]);
    if found.None? {
      return InputError(Raised(KeyError));
    }
    var record := found.value;
    EditKeepsValid(record.phones, args[1], args[2]);
    var o := record.EditPhone(args[1], args[2]);
    RecordChanged(book, record, old(book.View()));
    r := InputError(if o.Raised? then Raised(o.exc) else Returned(Updated));
  }

  /** The decorated `add_birthday`. */
  method AddBirthday(args: seq<string>, book: AddressBook) returns (r: Outcome<string>)
    requires book.Valid()
    modifies book.data.Values
    ensures book.Valid()
    ensures Effect(r, book.View()) == Guarded(AddBirthdayBody(args, old(book.View())))
  {
    if |args| != 2 {
      return InputError(Raised(ValueError(AddBirthdayUsage)));
    }
    var found := book.Find(args[0]);
    if found.None? {
      return InputError(Raised(KeyError));
    }
    var record := found.value;
    ghost var start := record.Val();
    var o := record.AddBirthday(args[1]);
    RecordChanged(book, record, old(book.View()));
    PutPut(old(book.View()), args[0], start, start);
    r := InputError(if o.Raised? then Raised(o.exc) else Returned(BirthdayAdded));
  }

  /** The decorated `list_contacts`. */
  method ListContacts(args: seq<string>, book: AddressBook) returns (r: Outcome<string>)
    requires book.Valid()
    ensures r == InputError(ListContactsBody(args, old(book.View())))
  {
    if |args| > 0 {
      return InputError(Raised(ValueError(AllUsage)));
    }
    if |book.data| == 0 {
      return InputError(Returned(EmptyBook));
    }
    var records := seq(|book.order|, i requires 0 <= i < |book.order| && book.order[i] in book.data reads book =>
                         book.data[book.order[i]]);
    Looked(book, records, book.order);
    var text := ListRecords(records, book.View(), book.order);
    r := InputError(Returned(text));
  }

  /** The decorated `birthdays`, on the day `today`: a ValueError from a
      birthday is caught and its message returned, an OverflowError from the
      window escapes. */
  method Birthdays(args: seq<string>, book: AddressBook, today: Date) returns (r: Outcome<string>)
    requires book.Valid() && ValidDate(today)
    ensures r == InputError(BirthdaysBody(args, old(book.View()), today))
  {
    if |args| > 0 {
      return InputError(Raised(ValueError(BirthdaysUsage)));
    }
    ghost var v := book.View();
    ghost var spec := Upcoming(v, today, Window);
    UpcomingInBook(v, today, Window);
    var upcoming := book.GetUpcomingBirthdays(today, Window);
    if upcoming.Raised? {
      assert spec.Raised?;
      r := InputError(Raised(upcoming.exc));
    } else if |upcoming.value| == 0 {
      assert spec.Returned? && spec.value == [];
      r := InputError(Returned(NoUpcoming));
    } else {
      var records := upcoming.value;
      assert spec.Returned? && |spec.value| == |records| > 0;
      ghost var names := spec.value;
      assert forall i :: 0 <= i < |names| ==>
               names[i] in v.recs && records[i].name == names[i] && records[i].Valid() && records[i].Val() == v.recs[names[i]] by {
        Looked(book, records, names);
      }
      var text := ListRecords(records, v, names);
      r := InputError(Returned(text));
    }
  }
}

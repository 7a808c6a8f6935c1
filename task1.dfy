/** The command handlers of `task1.py`, which report every error by returning
    its message. Each handler is specified by a function on the contents of
    the book; the handlers that change records or loop are methods proved
    against it, and the lemmas below say what the specifications promise. */
module Task1 {
  import opened Exceptions
  import opened Seqs
  import opened Text
  import opened Calendar
  import opened Fields
  import opened Records
  import opened Book
  import opened Handlers

  /** `add_contact(args, book)` on the contents: finds or files the record
      named `args[0]`, then appends the phones `args[1..]` until the first
      invalid one, whose message it returns. */
  function AddContactSpec(args: seq<string>, b: BookVal): (e: Effect<string>)
    requires ValidBook(b)
    ensures ValidBook(e.after)
  {
    if |args| < 2 then Effect(AddUsage, b)
    else
      var name := args[0];
      var phones := args[1..];
      var start := if name in b.recs then b.recs[name] else RecordVal([], None);
      var n := ValidPrefix(phones);
      var r := RecordVal(start.phones + phones[..n], start.birthday);
      PutKeeps(b, name, r);
      Effect(if n < |phones| then PhoneError else if name in b.recs then Updated else Added, Put(b, name, r))
  }

  /** `change_contact(args, book)` on the contents: `edit_phone` on the named
      record, reporting what it raises. */
  function ChangeContactSpec(args: seq<string>, b: BookVal): (e: Effect<string>)
    requires ValidBook(b)
    ensures ValidBook(e.after)
  {
    if |args| != 3 then Effect(ChangeUsage, b)
    else if args[0] !in b.recs then Effect(NotFound, b)
    else
      var r := b.recs[args[0]];
      var c := EditPhones(r.phones, args[1], args[2]);
      EditKeepsValid(r.phones, args[1], args[2]);
      PutKeeps(b, args[0], RecordVal(c.phones, r.birthday));
      Effect(if c.out.Raised? then Str(c.out.exc) else Updated, Put(b, args[0], RecordVal(c.phones, r.birthday)))
  }

  /** `add_birthday(args, book)` on the contents. */
  function AddBirthdaySpec(args: seq<string>, b: BookVal): (e: Effect<string>)
    requires ValidBook(b)
    ensures ValidBook(e.after)
  {
    if |args| != 2 then Effect(AddBirthdayUsage, b)
    else if args[0] !in b.recs then Effect(NotFound, b)
    else
      match NewBirthday(args[1])
      case Raised(x) => Effect(Str(x), b)
      case Returned(d) =>
        PutKeeps(b, args[0], RecordVal(b.recs[args[0]].phones, Some(d)));
        Effect(BirthdayAdded, Put(b, args[0], RecordVal(b.recs[args[0]].phones, Some(d))))
  }

  /** `get_phone(args, book)`: it only reads the book. */
  function GetPhone(args: seq<string>, b: BookVal): string
    requires ValidBook(b)
  {
    if |args| != 1 then PhoneUsage
    else if args[0] !in b.recs then NotFound
    else Join(b.recs[args[0]].phones, "; ")
  }

  /** `show_birthday(args, book)`: it only reads the book. The record's own
      name is its key. */
  function ShowBirthday(args: seq<string>, b: BookVal): string
    requires ValidBook(b)
  {
    if |args| != 1 then ShowBirthdayUsage
    else if args[0] !in b.recs then NotFound
    else
      match b.recs[args[0]].birthday
      case None => NoBirthday
      case Some(d) => args[0] + "'s birthday is on " + FormatDate(d)
  }

  /** `list_contacts(args, book)` on the contents. */
  function ListContactsSpec(args: seq<string>, b: BookVal): string
    requires ValidBook(b)
  {
    if |args| > 0 then AllUsage
    else if |b.recs| == 0 then EmptyBook
    else Join(Summaries(b, b.order), "\n")
  }

  /** `birthdays(args, book)` on the contents, on the day `today`: what
      `get_upcoming_birthdays(7)` raises escapes. */
  function BirthdaysSpec(args: seq<string>, b: BookVal, today: Date): Outcome<string>
    requires ValidBook(b) && ValidDate(today)
  {
    if |args| > 0 then Returned(BirthdaysUsage)
    else
      UpcomingInBook(b, today, Window);
      match Upcoming(b, today, Window)
      case Raised(x) => Raised(x)
      case Returned(names) =>
        if names == [] then Returned(NoUpcoming) else Returned(Join(Summaries(b, names), "\n"))
  }

  /** `add_contact`: files a new record before it adds the phones, then adds
      them to the record in place; an invalid one ends the loop and its
      message is returned. */
  method AddContact(args: seq<string>, book: AddressBook) returns (msg: string)
    requires book.Valid()
    modifies book, book.data.Values
    ensures book.Valid()
    ensures Effect(msg, book.View()) == AddContactSpec(args, old(book.View()))
  {
    if |args| < 2 {
      return AddUsage;
    }
    ghost var before := book.View();
    var name := args[0];
    var phones := args[1..];
    var record;
    record, msg := FindOrFile(book, name);
    ghost var start := record.Val();
    ghost var filed := book.View();
    var o := AddPhones(record, phones);
    if o.Raised? {
      msg := Str(o.exc);
    }
    forall k | k in book.data && k != name ensures book.data[k].Val() == filed.recs[k] {
      assert book.data[k] != record;
    }
    RecordChanged(book, record, filed);
    PutPut(before, name, start, record.Val());
  }

  /** `change_contact`: edits the found record in place. */
  method ChangeContact(args: seq<string>, book: AddressBook) returns (msg: string)
    requires book.Valid()
    modifies book.data.Values
    ensures book.Valid()
    ensures Effect(msg, book.View()) == ChangeContactSpec(args, old(book.View()))
  {
    if |args| != 3 {
      return ChangeUsage;
    }
    var found := book.Find(args[0]);
    if found.None? {
      return NotFound;
    }
    var record := found.value;
    EditKeepsValid(record.phones, args[1], args[2]);
    var o := record.EditPhone(args[1], args[2]);
    RecordChanged(book, record, old(book.View()));
    msg := if o.Raised? then Str(o.exc) else Updated;
  }

  /** `add_birthday`: sets the found record's birthday in place. */
  method AddBirthday(args: seq<string>, book: AddressBook) returns (msg: string)
    requires book.Valid()
    modifies book.data.Values
    ensures book.Valid()
    ensures Effect(msg, book.View()) == AddBirthdaySpec(args, old(book.View()))
  {
    if |args| != 2 {
      return AddBirthdayUsage;
    }
    var found := book.Find(args[0]);
    if found.None? {
      return NotFound;
    }
    var record := found.value;
    ghost var start := record.Val();
    var o := record.AddBirthday(args[1]);
    RecordChanged(book, record, old(book.View()));
    PutPut(old(book.View()), args[0], start, start);
    msg := if o.Raised? then Str(o.exc) else BirthdayAdded;
  }

  /** `list_contacts`: the records in insertion order, one line each. */
  method ListContacts(args: seq<string>, book: AddressBook) returns (msg: string)
    requires book.Valid()
    ensures msg == ListContactsSpec(args, old(book.View()))
  {
    if |args| > 0 {
      return AllUsage;
    }
    if |book.data| == 0 {
      return EmptyBook;
    }
    var records := seq(|book.order|, i requires 0 <= i < |book.order| && book.order[i] in book.data reads book =>
                         book.data[book.order[i]]);
    Looked(book, records, book.order);
    msg := ListRecords(records, book.View(), book.order);
  }

  /** `birthdays`: the records `get_upcoming_birthdays(7)` gives, one line
      each. */
  method Birthdays(args: seq<string>, book: AddressBook, today: Date) returns (r: Outcome<string>)
    requires book.Valid() && ValidDate(today)
    ensures r == BirthdaysSpec(args, old(book.View()), today)
  {
    if |args| > 0 {
      return Returned(BirthdaysUsage);
    }
    ghost var v := book.View();
    ghost var spec := Upcoming(v, today, Window);
    UpcomingInBook(v, today, Window);
    var upcoming := book.GetUpcomingBirthdays(today, Window);
    if upcoming.Raised? {
      assert spec.Raised?;
      r := Raised(upcoming.exc);
      assert r == BirthdaysSpec(args, v, today);
    } else if |upcoming.value| == 0 {
      assert spec.Returned? && spec.value == [];
      r := Returned(NoUpcoming);
      assert r == BirthdaysSpec(args, v, today);
    } else {
      var records := upcoming.value;
      assert spec.Returned? && |spec.value| == |records| > 0;
      ghost var names := spec.value;
      assert forall i :: 0 <= i < |names| ==>
               names[i] in v.recs && records[i].name == names[i] && records[i].Valid() && records[i].Val() == v.recs[names[i]] by {
        Looked(book, records, names);
      }
      var text := ListRecords(records, v, names);
      r := Returned(text);
      assert r == BirthdaysSpec(args, v, today);
    }
  }

  /** `add`: without a name and a phone nothing changes. Otherwise the named
      contact is in the book afterwards, and every other contact, the key
      order (a new name goes last) and the contact's birthday are kept. */
  lemma AddContactKeeps(args: seq<string>, b: BookVal)
    requires ValidBook(b)
    ensures |args| < 2 ==> AddContactSpec(args, b) == Effect(AddUsage, b)
    ensures |args| >= 2 ==>
              var e := AddContactSpec(args, b);
              var name := args[0];
              && e.after.recs.Keys == b.recs.Keys + {name}
              && e.after.order == (if name in b.recs then b.order else b.order + [name])
              && (forall k :: k in b.recs && k != name ==> e.after.recs[k] == b.recs[k])
              && e.after.recs[name].birthday == (if name in b.recs then b.recs[name].birthday else None)
  {
  }

  /** `add` with a name and phones: the contact's phones grow by a prefix of
      the given ones, all of them with the message "added" or "updated" when
      every one is valid, else those before the first invalid one, whose error
      message is returned. */
  lemma AddContactPhones(args: seq<string>, b: BookVal)
    requires ValidBook(b) && |args| >= 2
    ensures var e := AddContactSpec(args, b);
            var name := args[0];
            var was := if name in b.recs then b.recs[name].phones else [];
            var now := e.after.recs[name].phones;
            && was <= now
            && now[|was|..] <= args[1..]
            && ((exists p :: p in args[1..] && !IsPhone(p)) <==> e.result == PhoneError)
            && (e.result == PhoneError ==> |now| - |was| < |args| - 1 && !IsPhone(args[1..][|now| - |was|]))
            && (e.result != PhoneError ==> now == was + args[1..] && e.result == if name in b.recs then Updated else Added)
  {
    var phones := args[1..];
    var n := ValidPrefix(phones);
    ValidPrefixAll(phones);
    var was := if args[0] in b.recs then b.recs[args[0]].phones else [];
    var e := AddContactSpec(args, b);
    var now := e.after.recs[args[0]].phones;
    PhoneErrorDistinct();
    assert now == was + phones[..n];
    assert now[|was|..] == phones[..n];
    if n < |phones| {
      assert e.result == PhoneError && |now| - |was| == n;
    } else {
      assert phones[..n] == phones;
      assert e.result != PhoneError;
    }
  }

  /** `change`: the usage and not-found messages leave the book as it was,
      and so does an old phone the record lacks, which still reports
      "updated". */
  lemma ChangeContactMeaning(args: seq<string>, b: BookVal)
    requires ValidBook(b)
    ensures |args| != 3 ==> ChangeContactSpec(args, b) == Effect(ChangeUsage, b)
    ensures |args| == 3 && args[0] !in b.recs ==> ChangeContactSpec(args, b) == Effect(NotFound, b)
    ensures |args| == 3 && args[0] in b.recs && args[1] !in b.recs[args[0]].phones ==>
              ChangeContactSpec(args, b) == Effect(Updated, b)
  {
    if |args| == 3 && args[0] in b.recs && args[1] !in b.recs[args[0]].phones {
      var r := b.recs[args[0]];
      assert RecordVal(r.phones, r.birthday) == r;
      PutPut(b, args[0], r, r);
    }
  }

  /** `change` of a phone the record has: the old phone is removed even when
      the new one is invalid, whose error message is then returned, and a
      valid new phone is appended in its place at the end. */
  lemma ChangeContactEdit(args: seq<string>, b: BookVal)
    requires ValidBook(b) && |args| == 3 && args[0] in b.recs && args[1] in b.recs[args[0]].phones
    ensures var e := ChangeContactSpec(args, b);
            var r := b.recs[args[0]];
            var p := e.after.recs[args[0]].phones;
            && (IsPhone(args[2]) ==>
                  e.result == Updated && p == RemoveFirst(r.phones, args[1]) + [args[2]]
                  && |p| == |r.phones| && p[|p| - 1] == args[2]
                  && multiset(p) == multiset(r.phones) - multiset{args[1]} + multiset{args[2]})
            && (!IsPhone(args[2]) ==> e.result == PhoneError && p == RemoveFirst(r.phones, args[1]))
  {
  }

  /** `change` of a found contact keeps every other contact, the order and the
      contact's birthday. */
  lemma ChangeContactKeeps(args: seq<string>, b: BookVal)
    requires ValidBook(b) && |args| == 3 && args[0] in b.recs
    ensures var e := ChangeContactSpec(args, b);
            && e.after.order == b.order
            && e.after.recs.Keys == b.recs.Keys
            && (forall k :: k in b.recs && k != args[0] ==> e.after.recs[k] == b.recs[k])
            && e.after.recs[args[0]].birthday == b.recs[args[0]].birthday
  {
  }

  /** `add-birthday`: usage and not-found leave the book as it was; a text that
      does not read as an existing date gives the date error and changes
      nothing; otherwise only that contact's birthday is set, to the date the
      text names. */
  lemma AddBirthdayMeaning(args: seq<string>, b: BookVal)
    requires ValidBook(b)
    ensures |args| != 2 ==> AddBirthdaySpec(args, b) == Effect(AddBirthdayUsage, b)
    ensures |args| == 2 && args[0] !in b.recs ==> AddBirthdaySpec(args, b) == Effect(NotFound, b)
    ensures |args| == 2 && args[0] in b.recs && ParseDate(args[1]).None? ==>
              AddBirthdaySpec(args, b) == Effect(DateError, b)
    ensures |args| == 2 && args[0] in b.recs && ParseDate(args[1]).Some? ==>
              var e := AddBirthdaySpec(args, b);
              && e.result == BirthdayAdded
              && e.after.order == b.order
              && e.after.recs == b.recs[args[0] := RecordVal(b.recs[args[0]].phones, ParseDate(args[1]))]
  {
  }

  /** `phone`: the found contact's phones joined by "; ", in which phone `k`
      sits at offset 12 * k; usage and not-found otherwise. */
  lemma GetPhoneMeaning(args: seq<string>, b: BookVal, k: nat)
    requires ValidBook(b)
    ensures |args| != 1 ==> GetPhone(args, b) == PhoneUsage
    ensures |args| == 1 && args[0] !in b.recs ==> GetPhone(args, b) == NotFound
    ensures |args| == 1 && args[0] in b.recs && b.recs[args[0]].phones == [] ==> GetPhone(args, b) == ""
    ensures |args| == 1 && args[0] in b.recs && k < |b.recs[args[0]].phones| ==>
              var ps := b.recs[args[0]].phones;
              |GetPhone(args, b)| == 12 * |ps| - 2 && GetPhone(args, b)[12 * k..12 * k + 10] == ps[k]
  {
    if |args| == 1 && args[0] in b.recs && k < |b.recs[args[0]].phones| {
      PhonesText(b.recs[args[0]].phones, k);
    }
  }

  /** A phone added to a new contact is what `phone` then shows. */
  lemma AddThenPhone(name: string, phone: string, b: BookVal)
    requires ValidBook(b) && name !in b.recs && IsPhone(phone)
    ensures AddContactSpec([name, phone], b).result == Added
    ensures GetPhone([name], AddContactSpec([name, phone], b).after) == phone
  {
    assert [name, phone][1..] == [phone];
    assert ValidPrefix([phone]) == 1;
  }

  /** `show-birthday`: the found contact's birthday as DD.MM.YYYY, which
      `add-birthday` reads back as the same date; usage, not-found and "not
      set" otherwise. */
  lemma ShowBirthdayMeaning(args: seq<string>, b: BookVal)
    requires ValidBook(b)
    ensures |args| != 1 ==> ShowBirthday(args, b) == ShowBirthdayUsage
    ensures |args| == 1 && args[0] !in b.recs ==> ShowBirthday(args, b) == NotFound
    ensures |args| == 1 && args[0] in b.recs && b.recs[args[0]].birthday.None? ==> ShowBirthday(args, b) == NoBirthday
    ensures |args| == 1 && args[0] in b.recs && b.recs[args[0]].birthday.Some? ==>
              var s := ShowBirthday(args, b);
              var prefix := args[0] + "'s birthday is on ";
              |s| == |prefix| + 10 && prefix <= s && ParseDate(s[|prefix|..]) == b.recs[args[0]].birthday
  {
    if |args| == 1 && args[0] in b.recs && b.recs[args[0]].birthday.Some? {
      var d := b.recs[args[0]].birthday.value;
      FormatParse(d);
      var prefix := args[0] + "'s birthday is on ";
      assert (prefix + FormatDate(d))[|prefix|..] == FormatDate(d);
    }
  }

  /** Setting a birthday from a text and showing it gives back the same date. */
  lemma AddThenShowBirthday(name: string, text: string, b: BookVal)
    requires ValidBook(b) && name in b.recs && ParseDate(text).Some?
    ensures AddBirthdaySpec([name, text], b).result == BirthdayAdded
    ensures ShowBirthday([name], AddBirthdaySpec([name, text], b).after)
            == name + "'s birthday is on " + FormatDate(ParseDate(text).value)
  {
  }

  /** `all`: the usage message with arguments, the empty-book message for an
      empty book, and otherwise one trimmed summary per contact, in insertion
      order, each opening with the contact's name, joined by newlines. */
  lemma ListContactsMeaning(args: seq<string>, b: BookVal)
    requires ValidBook(b)
    ensures |args| > 0 ==> ListContactsSpec(args, b) == AllUsage
    ensures |args| == 0 && |b.recs| == 0 ==> ListContactsSpec(args, b) == EmptyBook
    ensures |args| == 0 && |b.recs| > 0 ==>
              var lines := Summaries(b, b.order);
              && |lines| == |b.order| == |b.recs|
              && ListContactsSpec(args, b) == Join(lines, "\n")
              && Trimmed(ListContactsSpec(args, b))
              && forall i :: 0 <= i < |lines| ==> "Contact name: " + b.order[i] + ", phones: " <= lines[i]
  {
    if |args| == 0 && |b.recs| > 0 {
      SummariesNames(b, b.order);
      OrderSize(b);
      SummariesTrimmed(b, b.order);
      JoinTrimmed(Summaries(b, b.order), "\n");
    }
  }

  /** `birthdays`: the usage message with arguments; otherwise the exceptions
      of `get_upcoming_birthdays(7)` escape (an OverflowError in the last week
      of year 9999, a ValueError when some birthday has no occurrence to test),
      and else the summaries of exactly the contacts whose birthday is at most
      seven days away, in insertion order, or the no-upcoming message when
      there are none. */
  lemma BirthdaysMeaning(args: seq<string>, b: BookVal, today: Date)
    requires ValidBook(b) && ValidDate(today)
    ensures |args| > 0 ==> BirthdaysSpec(args, b, today) == Returned(BirthdaysUsage)
    ensures |args| == 0 && WindowEnd(today, Window).Raised? ==>
              BirthdaysSpec(args, b, today).Raised? && BirthdaysSpec(args, b, today).exc.OverflowError?
    ensures |args| == 0 && WindowEnd(today, Window).Returned? && (exists k :: k in b.recs && Fails(b.recs[k], today)) ==>
              BirthdaysSpec(args, b, today).Raised? && BirthdaysSpec(args, b, today).exc.ValueError?
    ensures |args| == 0 && WindowEnd(today, Window).Returned? && (forall k :: k in b.recs ==> !Fails(b.recs[k], today)) ==>
              var due := DueKeys(b, b.order, today, Window);
              && (forall k :: k in due <==> k in b.recs && Due(b.recs[k], today, Window))
              && Subseq(due, b.order)
              && BirthdaysSpec(args, b, today) == Returned(if due == [] then NoUpcoming else Join(Summaries(b, due), "\n"))
  {
    UpcomingMeaning(b, today, Window);
  }
}

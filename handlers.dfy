/** What the command handlers of both versions share: their fixed messages,
    the shape of a handler's effect on the book, the phone loop of `add`, and
    the loop that lists records one per line. */
module Handlers {
  import opened Exceptions
  import opened Text
  import opened Fields
  import opened Records
  import opened Book

  const AddUsage := "Not enough arguments. Use: add <name> <phone>"
  const ChangeUsage := "Use: change <name> <old phone> <new phone>"
  const PhoneUsage := "Use: phone <name>"
  const AllUsage := "Use: all"
  const AddBirthdayUsage := "Use: add-birthday <name> <DD.MM.YYYY>"
  const ShowBirthdayUsage := "Use: show-birthday <name>"
  const BirthdaysUsage := "Use: birthdays"
  const NotFound := "Contact not found."
  const Added := "Contact added."
  const Updated := "Contact updated."
  const EmptyBook := "Contacts are empty."
  const BirthdayAdded := "Birthday added."
  const NoBirthday := "Birthday not set."
  const NoUpcoming := "No upcoming birthdays."

  /** The phone error is neither of the success messages of `add`. */
  lemma PhoneErrorDistinct()
    ensures PhoneError != Updated && PhoneError != Added
  {
    assert PhoneError[0] != Updated[0] && PhoneError[0] != Added[0];
  }

  /** The window `birthdays` asks `get_upcoming_birthdays` for. */
  const Window := 7

  /** What a handler gives back, and the contents of the book it leaves. */
  datatype Effect<T> = Effect(result: T, after: BookVal)

  /** How many of `phones`, from the front, pass validation before the first
      that does not: the phones `for phone in phones: record.add_phone(phone)`
      appends before `Phone` raises. */
  function ValidPrefix(phones: seq<string>): (n: nat)
    ensures n <= |phones|
    ensures forall i :: 0 <= i < n ==> IsPhone(phones[i])
    ensures n < |phones| ==> !IsPhone(phones[n])
    decreases |phones|
  {
    if phones == [] || !IsPhone(phones[0]) then 0 else 1 + ValidPrefix(phones[1..])
  }

  /** The position the phone loop stops at is the valid prefix: every phone
      before it is valid and it is the end or an invalid phone. */
  lemma ValidPrefixAt(phones: seq<string>, i: nat)
    requires i <= |phones| && forall j :: 0 <= j < i ==> IsPhone(phones[j])
    requires i < |phones| ==> !IsPhone(phones[i])
    ensures ValidPrefix(phones) == i
  {
  }

  /** The phone loop gets through all the phones exactly when none of them
      is invalid. */
  lemma ValidPrefixAll(phones: seq<string>)
    ensures ValidPrefix(phones) < |phones| <==> exists p :: p in phones && !IsPhone(p)
  {
    var n := ValidPrefix(phones);
    if n < |phones| {
      assert phones[n] in phones;
    }
  }

  /** `record = book.find(name)` and, when there is none, a new
      `Record(name)` filed with `add_record`; the message `add` reports if
      every phone is valid says which happened. */
  method FindOrFile(book: AddressBook, name: string) returns (record: Record, message: string)
    requires book.Valid()
    modifies book
    ensures book.Valid() && name in book.data && book.data[name] == record && record.name == name
    ensures record.Valid()
    ensures name in old(book.View()).recs ==> message == Updated && record.Val() == old(book.View()).recs[name]
    ensures name !in old(book.View()).recs ==> message == Added && record.Val() == RecordVal([], None)
    ensures book.View() == Put(old(book.View()), name, record.Val())
    ensures name in old(book.data) ==> record == old(book.data)[name]
    ensures name !in old(book.data) ==> fresh(record)
  {
    ghost var before := book.View();
    var found := book.Find(name);
    message := Updated;
    if found.None? {
      record := new Record(name);
      assert book.View() == before;
      book.AddRecord(record);
      message := Added;
    } else {
      record := found.value;
      PutPut(before, name, record.Val(), record.Val());
    }
  }

  /** `for phone in phones: record.add_phone(phone)`: appends the phones in
      order and stops at the first invalid one with what `add_phone` raised. */
  method AddPhones(record: Record, phones: seq<string>) returns (o: Outcome<()>)
    requires record.Valid()
    modifies record
    ensures record.Valid()
    ensures record.Val() == RecordVal(old(record.phones) + phones[..ValidPrefix(phones)], old(record.birthday))
    ensures o == if ValidPrefix(phones) < |phones| then Raised(ValueError(PhoneError)) else Returned(())
  {
    var i := 0;
    o := Returned(());
    while i < |phones|
      invariant 0 <= i <= |phones|
      invariant record.Valid()
      invariant record.Val() == RecordVal(old(record.phones) + phones[..i], old(record.birthday))
      invariant forall j :: 0 <= j < i ==> IsPhone(phones[j])
      invariant o == Returned(())
    {
      o := record.AddPhone(phones[i]);
      if o.Raised? {
        break;
      }
      assert phones[..i + 1] == phones[..i] + [phones[i]];
      i := i + 1;
    }
    ValidPrefixAt(phones, i);
  }

  /** The one-line summary of each record under `keys` is trimmed, so the
      text a handler builds line by line and then strips is exactly the
      summaries joined by newlines. */
  lemma SummariesText(b: BookVal, keys: seq<string>)
    requires ValidBook(b) && |keys| > 0 && forall k :: k in keys ==> k in b.recs
    ensures Strip(Lines(Summaries(b, keys))) == Join(Summaries(b, keys), "\n")
  {
    SummariesTrimmed(b, keys);
    StripLines(Summaries(b, keys));
  }

  /** `result = ''; for record in records: result += f'{record}\n'`, then
      `result.strip()`: the summaries of the book's records under `keys`, one
      per line. */
  method ListRecords(records: seq<Record>, ghost b: BookVal, ghost keys: seq<string>) returns (text: string)
    requires ValidBook(b) && |records| == |keys| > 0
    requires forall i :: 0 <= i < |keys| ==> keys[i] in b.recs
    requires forall i :: 0 <= i < |keys| ==> records[i].name == keys[i] && records[i].Valid() && records[i].Val() == b.recs[keys[i]]
    ensures text == Join(Summaries(b, keys), "\n")
  {
    var result := "";
    var i := 0;
    while i < |records|
      invariant 0 <= i <= |records|
      invariant result == Lines(Summaries(b, keys[..i]))
    {
      var line := records[i].ToString();
      SummariesNext(b, keys, i);
      result := result + line + "\n";
      i := i + 1;
    }
    assert keys[..i] == keys;
    SummariesText(b, keys);
    text := Strip(result);
  }
}

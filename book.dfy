/** The address book: a dictionary from names to records that keeps its keys
    in insertion order, with `add_record`, `find`, `delete` and
    `get_upcoming_birthdays`. */
module Book {
  import opened Exceptions
  import opened Seqs
  import opened Text
  import opened Calendar
  import opened Records

  /** The contents of a book: its keys in insertion order and the state of the
      record under each key. */
  datatype BookVal = BookVal(order: seq<string>, recs: map<string, RecordVal>)

  /** One entry per key, the order listing each key once, every record valid. */
  ghost predicate ValidBook(b: BookVal)
  {
    NoDup(b.order)
    && (forall k :: k in b.recs <==> k in b.order)
    && (forall k | k in b.recs :: ValidRecord(b.recs[k]))
  }

  /** `data[name] = record` on the contents: a new key goes last, an existing
      key keeps its place. */
  function Put(b: BookVal, name: string, r: RecordVal): BookVal
  {
    BookVal(if name in b.recs then b.order else b.order + [name], b.recs[name := r])
  }

  /** The key order lists every contact exactly once. */
  lemma OrderSize(b: BookVal)
    requires ValidBook(b)
    ensures |b.order| == |b.recs|
  {
    NoDupCard(b.order);
    assert (set x | x in b.order) == b.recs.Keys;
  }

  /** Storing a record under a name keeps the book well formed, gives that name
      exactly the new record, and leaves every other entry and the order of the
      earlier keys as they were. */
  lemma PutKeeps(b: BookVal, name: string, r: RecordVal)
    requires ValidBook(b) && ValidRecord(r)
    ensures ValidBook(Put(b, name, r))
    ensures Put(b, name, r).recs[name] == r
    ensures forall k :: k in b.recs && k != name ==> k in Put(b, name, r).recs && Put(b, name, r).recs[k] == b.recs[k]
    ensures Put(b, name, r).order[..|b.order|] == b.order
    ensures |Put(b, name, r).recs| == if name in b.recs then |b.recs| else |b.recs| + 1
  {
    var p := Put(b, name, r);
    if name !in b.recs {
      assert name !in b.order;
      forall i, j | 0 <= i < j < |p.order| ensures p.order[i] != p.order[j] {
        if j == |b.order| {
          assert p.order[i] == b.order[i];
        }
      }
    }
    assert p.order[..|b.order|] == b.order;
  }

  /** `del data[name]` on the contents, doing nothing when the name is absent. */
  function Drop(b: BookVal, name: string): BookVal
  {
    BookVal(RemoveFirst(b.order, name), b.recs - {name})
  }

  /** Removing a name keeps the book well formed, removes exactly that key
      from both the entries and the order. */
  lemma DropKeeps(b: BookVal, name: string)
    requires ValidBook(b)
    ensures ValidBook(Drop(b, name))
    ensures forall k :: k in Drop(b, name).order <==> k in b.order && k != name
  {
    DropKeys(b.order, b.recs.Keys, name);
  }

  /** The key-order invariant survives removing a key from both sides. */
  lemma DropKeys(order: seq<string>, keys: set<string>, name: string)
    requires NoDup(order) && forall k :: k in keys <==> k in order
    ensures NoDup(RemoveFirst(order, name))
    ensures forall k :: k in keys - {name} <==> k in RemoveFirst(order, name)
  {
    RemoveFirstNoDup(order, name);
    RemoveFirstMembers(order, name);
  }

  /** The key-order invariant survives storing under a name, new or not. */
  lemma PutKeys(order: seq<string>, keys: set<string>, name: string)
    requires NoDup(order) && forall k :: k in keys <==> k in order
    ensures var o := if name in keys then order else order + [name];
            NoDup(o) && forall k :: k in keys + {name} <==> k in o
  {
  }

  /** The summaries `str(record)` of the records under `keys`, in that order. */
  function Summaries(b: BookVal, keys: seq<string>): (s: seq<string>)
    requires ValidBook(b) && forall k :: k in keys ==> k in b.recs
    ensures |s| == |keys|
  {
    seq(|keys|, i requires 0 <= i < |keys| => Summary(keys[i], b.recs[keys[i]]))
  }

  /** The summary of each contact opens with its name. */
  lemma SummariesNames(b: BookVal, keys: seq<string>)
    requires ValidBook(b) && forall k :: k in keys ==> k in b.recs
    ensures forall i :: 0 <= i < |keys| ==> "Contact name: " + keys[i] + ", phones: " <= Summaries(b, keys)[i]
  {
    forall i | 0 <= i < |keys| ensures "Contact name: " + keys[i] + ", phones: " <= Summaries(b, keys)[i] {
      SummaryShape(keys[i], b.recs[keys[i]]);
    }
  }

  /** Every summary is trimmed. */
  lemma SummariesTrimmed(b: BookVal, keys: seq<string>)
    requires ValidBook(b) && forall k :: k in keys ==> k in b.recs
    ensures forall i :: 0 <= i < |keys| ==> Trimmed(Summaries(b, keys)[i])
  {
    forall i | 0 <= i < |keys| ensures Trimmed(Summaries(b, keys)[i]) {
      SummaryShape(keys[i], b.recs[keys[i]]);
    }
  }

  /** The summaries of one more key are those of the keys before it plus its
      own. */
  lemma SummariesNext(b: BookVal, keys: seq<string>, i: nat)
    requires ValidBook(b) && i < |keys| && forall k :: k in keys ==> k in b.recs
    ensures Summaries(b, keys[..i + 1]) == Summaries(b, keys[..i]) + [Summary(keys[i], b.recs[keys[i]])]
  {
    var a := Summaries(b, keys[..i + 1]);
    var c := Summaries(b, keys[..i]) + [Summary(keys[i], b.recs[keys[i]])];
    forall j | 0 <= j < |a| ensures a[j] == c[j] {
      if j < i {
        assert keys[..i + 1][j] == keys[..i][j];
      }
    }
  }

  /** `timedelta(days=days)` and `today + timedelta(...)` raise when the
      number of days or the last day of the window is out of range. */
  function WindowEnd(today: Date, days: int): (r: Outcome<int>)
    requires ValidDate(today)
    ensures r.Returned? <==> -999999999 <= days <= 999999999 && 1 <= Ordinal(today) + days <= MaxOrdinal
    ensures r.Returned? ==> r.value == Ordinal(today) + days
    ensures r.Raised? ==> r.exc.OverflowError?
  {
    if days < -999999999 || days > 999999999 then
      Raised(OverflowError("days=" + IntString(days) + "; must have magnitude <= 999999999"))
    else if Ordinal(today) + days < 1 || Ordinal(today) + days > MaxOrdinal then
      Raised(OverflowError("date value out of range"))
    else
      Returned(Ordinal(today) + days)
  }

  /** The scan of `get_upcoming_birthdays` over the remaining `keys`, with the
      names gathered so far in `acc`; an exception from a record ends it. */
  function Collect(b: BookVal, keys: seq<string>, today: Date, lastDay: int, acc: seq<string>): Outcome<seq<string>>
    requires ValidBook(b) && ValidDate(today) && forall k :: k in keys ==> k in b.recs
    decreases |keys|
  {
    if keys == [] then Returned(acc)
    else
      var r := b.recs[keys[0]];
      var here := if r.birthday.None? then Returned(false) else InWindow(r.birthday.value, today, lastDay);
      match here
      case Raised(e) => Raised(e)
      case Returned(listed) => Collect(b, keys[1..], today, lastDay, if listed then acc + [keys[0]] else acc)
  }

  /** `get_upcoming_birthdays(days)` on the contents, as the names of the
      records it lists. */
  function Upcoming(b: BookVal, today: Date, days: int): Outcome<seq<string>>
    requires ValidBook(b) && ValidDate(today)
  {
    match WindowEnd(today, days)
    case Raised(e) => Raised(e)
    case Returned(lastDay) => Collect(b, b.order, today, lastDay, [])
  }

  /** The record has a birthday at most `days` days away. */
  predicate Due(r: RecordVal, today: Date, days: int)
    requires ValidRecord(r) && ValidDate(today)
  {
    r.birthday.Some? && DaysUntil(r.birthday.value, today).Returned?
    && DaysUntil(r.birthday.value, today).value <= days
  }

  /** The record has a birthday whose days-to count raises. */
  predicate Fails(r: RecordVal, today: Date)
    requires ValidRecord(r) && ValidDate(today)
  {
    r.birthday.Some? && DaysUntil(r.birthday.value, today).Raised?
  }

  /** The keys whose records are due, in the order of `keys`: a reference
      definition of the upcoming list stated through `days_to_birthday`. */
  function DueKeys(b: BookVal, keys: seq<string>, today: Date, days: int): (r: seq<string>)
    requires ValidBook(b) && ValidDate(today) && forall k :: k in keys ==> k in b.recs
    ensures Subseq(r, keys)
    ensures forall k :: k in r <==> k in keys && Due(b.recs[k], today, days)
    decreases |keys|
  {
    if keys == [] then []
    else
      var rest := DueKeys(b, keys[1..], today, days);
      assert forall k :: k in keys <==> k == keys[0] || k in keys[1..];
      if Due(b.recs[keys[0]], today, days) then [keys[0]] + rest else rest
  }

  /** The scan gathers exactly the due keys, unless some record's birthday
      raises a ValueError, which then ends the scan. */
  lemma {:induction false} CollectDue(b: BookVal, keys: seq<string>, today: Date, days: int, acc: seq<string>)
    requires ValidBook(b) && ValidDate(today) && forall k :: k in keys ==> k in b.recs
    ensures (forall k :: k in keys ==> !Fails(b.recs[k], today)) ==>
              Collect(b, keys, today, Ordinal(today) + days, acc) == Returned(acc + DueKeys(b, keys, today, days))
    ensures (exists k :: k in keys && Fails(b.recs[k], today)) ==>
              Collect(b, keys, today, Ordinal(today) + days, acc).Raised?
              && Collect(b, keys, today, Ordinal(today) + days, acc).exc.ValueError?
    decreases |keys|
  {
    if keys != [] {
      var r := b.recs[keys[0]];
      assert forall k :: k in keys <==> k == keys[0] || k in keys[1..];
      if r.birthday.Some? {
        InWindowDays(r.birthday.value, today, days);
        ReplaceRaisesValueError(r.birthday.value, today);
      }
      var listed := Due(r, today, days);
      CollectDue(b, keys[1..], today, days, if listed then acc + [keys[0]] else acc);
      if listed {
        assert acc + [keys[0]] + DueKeys(b, keys[1..], today, days) == acc + ([keys[0]] + DueKeys(b, keys[1..], today, days));
      }
    } else {
      assert acc + [] == acc;
    }
  }

  /** What `replace(year=...)` raises is a ValueError. */
  lemma ReplaceRaisesValueError(b: Date, today: Date)
    requires ValidDate(b) && ValidDate(today)
    ensures DaysUntil(b, today).Raised? ==> DaysUntil(b, today).exc.ValueError?
  {
  }

  /** `get_upcoming_birthdays` lists, in book order and each at most once,
      exactly the records whose birthday is at most `days` days away, skipping
      records without one; it raises an OverflowError when the window leaves
      the representable dates and a ValueError when some record's birthday
      has no occurrence to test. */
  lemma UpcomingMeaning(b: BookVal, today: Date, days: int)
    requires ValidBook(b) && ValidDate(today)
    ensures WindowEnd(today, days).Raised? ==> Upcoming(b, today, days) == Raised(WindowEnd(today, days).exc)
                                               && Upcoming(b, today, days).exc.OverflowError?
    ensures WindowEnd(today, days).Returned? && (forall k :: k in b.recs ==> !Fails(b.recs[k], today)) ==>
              Upcoming(b, today, days) == Returned(DueKeys(b, b.order, today, days))
    ensures WindowEnd(today, days).Returned? && (exists k :: k in b.recs && Fails(b.recs[k], today)) ==>
              Upcoming(b, today, days).Raised? && Upcoming(b, today, days).exc.ValueError?
    ensures Upcoming(b, today, days).Returned? ==>
              var names := Upcoming(b, today, days).value;
              Subseq(names, b.order) && NoDup(names)
              && forall k :: k in names <==> k in b.recs && b.recs[k].birthday.Some? && Due(b.recs[k], today, days)
  {
    if WindowEnd(today, days).Returned? {
      assert Upcoming(b, today, days) == Collect(b, b.order, today, Ordinal(today) + days, []);
      CollectDue(b, b.order, today, days, []);
      if forall k :: k in b.recs ==> !Fails(b.recs[k], today) {
        assert forall k :: k in b.order ==> !Fails(b.recs[k], today);
        assert [] + DueKeys(b, b.order, today, days) == DueKeys(b, b.order, today, days);
        SubseqNoDup(DueKeys(b, b.order, today, days), b.order);
      }
    }
  }

  /** The names `get_upcoming_birthdays` lists are names in the book. */
  lemma UpcomingInBook(b: BookVal, today: Date, days: int)
    requires ValidBook(b) && ValidDate(today)
    ensures Upcoming(b, today, days).Returned? ==> forall k :: k in Upcoming(b, today, days).value ==> k in b.recs
  {
    UpcomingMeaning(b, today, days);
  }

  /** Two maps with the same keys and the same value under each key are equal. */
  lemma SameEntries(a: map<string, RecordVal>, b: map<string, RecordVal>)
    requires forall k :: k in a <==> k in b
    requires forall k | k in a :: a[k] == b[k]
    ensures a == b
  {
  }

  /** Storing twice under one name keeps only the second record, and
      storing a name's own record again changes nothing. */
  lemma PutPut(b: BookVal, name: string, r1: RecordVal, r2: RecordVal)
    ensures Put(Put(b, name, r1), name, r2) == Put(b, name, r2)
    ensures name in b.recs ==> Put(b, name, b.recs[name]) == b
  {
    if name in b.recs {
      assert b.recs[name := b.recs[name]] == b.recs;
    }
  }

  /** The address book as Python holds it: a dictionary from names to record
      objects, whose keys keep their insertion order. */
  class AddressBook {
    var data: map<string, Record>
    var order: seq<string>

    /** Keys listed once each, in `order`; each record filed under its own name
        (so distinct keys hold distinct records) and valid. */
    ghost predicate Valid()
      reads this, data.Values
    {
      NoDup(order)
      && (forall k :: k in data <==> k in order)
      && (forall k | k in data :: data[k].name == k && data[k].Valid())
    }

    /** The contents of the book. */
    function View(): (v: BookVal)
      reads this, data.Values
      ensures v.order == order && v.recs.Keys == data.Keys
      ensures Valid() ==> ValidBook(v)
    {
      BookVal(order, map k | k in data :: data[k].Val())
    }

    /** `AddressBook()`: empty. */
    constructor ()
      ensures Valid() && data == map[] && order == []
    {
      data := map[];
      order := [];
    }

    /** `add_record`: files the record under its name, replacing any record
        already there; a new name goes last in the order. */
    method AddRecord(record: Record)
      requires Valid() && record.Valid()
      modifies this
      ensures Valid()
      ensures data == old(data)[record.name := record]
      ensures order == if record.name in old(data) then old(order) else old(order) + [record.name]
      ensures View() == Put(old(View()), record.name, record.Val())
    {
      ghost var before := View().recs;
      if record.name !in data {
        order := order + [record.name];
      }
      data := data[record.name := record];
      assert Valid() by {
        PutKeys(old(order), old(data).Keys, record.name);
        forall k | k in data ensures data[k].name == k && data[k].Valid() {
          if k != record.name {
            assert data[k] == old(data)[k];
          }
        }
      }
      assert View().recs == before[record.name := record.Val()] by {
        forall k | k in data ensures data[k].Val() == before[record.name := record.Val()][k] {
          if k != record.name {
            assert data[k] == old(data)[k];
          }
        }
        SameEntries(View().recs, before[record.name := record.Val()]);
      }
    }

    /** `find`: the record filed under exactly this name, or None. */
    function Find(name: string): (r: Option<Record>)
      reads this, data.Values
      requires Valid()
      ensures r.Some? <==> name in View().recs
      ensures r.Some? ==> r.value.name == name && r.value.Val() == View().recs[name]
      ensures r.Some? ==> name in data && r.value == data[name]
    {
      if name in data then Some(data[name]) else None
    }

    /** `delete`: removes the entry for `name`, if there is one, and says
        whether there was. */
    method Delete(name: string) returns (removed: bool)
      requires Valid()
      modifies this
      ensures Valid()
      ensures removed == (name in old(data))
      ensures data == old(data) - {name}
      ensures View() == Drop(old(View()), name)
    {
      removed := name in data;
      ghost var before := View().recs;
      DropKeys(order, data.Keys, name);
      data := data - {name};
      order := RemoveFirst(order, name);
      assert View().recs == before - {name} by {
        SameEntries(View().recs, before - {name});
      }
    }

    /** `get_upcoming_birthdays`, with the clock reading `today` passed in: the
        records whose birthday falls in the next `days` days, in book order. */
    method GetUpcomingBirthdays(today: Date, days: int) returns (r: Outcome<seq<Record>>)
      requires Valid() && ValidDate(today)
      ensures Upcoming(View(), today, days).Raised? ==> r == Raised(Upcoming(View(), today, days).exc)
      ensures Upcoming(View(), today, days).Returned? ==>
                var names := Upcoming(View(), today, days).value;
                r.Returned? && |r.value| == |names|
                && forall i :: 0 <= i < |names| ==> names[i] in data && r.value[i] == data[names[i]]
    {
      var end := WindowEnd(today, days);
      if end.Raised? {
        return Raised(end.exc);
      }
      var lastDay := end.value;
      ghost var v := View();
      var upcoming: seq<Record> := [];
      ghost var names: seq<string> := [];
      var i := 0;
      assert order[i..] == order;
      while i < |order|
        invariant 0 <= i <= |order|
        decreases |order| - i
        invariant Upcoming(v, today, days) == Collect(v, order[i..], today, lastDay, names)
        invariant |upcoming| == |names|
        invariant forall j :: 0 <= j < |names| ==> names[j] in data && upcoming[j] == data[names[j]]
      {
        var name := order[i];
        var record := data[name];
        assert order[i..][1..] == order[i + 1..];
        assert v.recs[name] == record.Val();
        var here := if record.birthday.None? then Returned(false) else InWindow(record.birthday.value, today, lastDay);
        if here.Raised? {
          return Raised(here.exc);
        }
        if here.value {
          upcoming := upcoming + [record];
          names := names + [name];
        }
        i := i + 1;
      }
      r := Returned(upcoming);
    }
  }

  /** Changing one record of the book in place, and nothing else, changes the
      contents under that record's name only: the handlers that edit a found
      record rely on this. `before` is the contents before the change. */
  lemma RecordChanged(book: AddressBook, r: Record, before: BookVal)
    requires ValidBook(before) && book.order == before.order && book.data.Keys == before.recs.Keys
    requires forall k | k in book.data :: book.data[k].name == k
    requires r.name in book.data && book.data[r.name] == r && r.Valid()
    requires forall k | k in book.data && k != r.name :: book.data[k].Val() == before.recs[k]
    ensures book.Valid()
    ensures book.View() == Put(before, r.name, r.Val())
  {
    var after := before.recs[r.name := r.Val()];
    assert book.View().recs == after by {
      SameEntries(book.View().recs, after);
    }
  }

  /** Records looked up in a well-formed book under `keys` carry those names
      and the contents the book's view gives them. */
  lemma Looked(book: AddressBook, records: seq<Record>, keys: seq<string>)
    requires book.Valid() && |records| == |keys|
    requires forall i :: 0 <= i < |keys| ==> keys[i] in book.data && records[i] == book.data[keys[i]]
    ensures forall i :: 0 <= i < |keys| ==> keys[i] in book.View().recs
    ensures forall i :: 0 <= i < |keys| ==> records[i].name == keys[i] && records[i].Valid() && records[i].Val() == book.View().recs[keys[i]]
  {
  }
}

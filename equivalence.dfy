/** The two versions of the handlers side by side. Every decorated handler of
    `task2.py` returns what the same handler of `task1.py` returns and leaves
    the same book, with one exception: `birthdays`. There `task1.py` lets a
    ValueError from `get_upcoming_birthdays` escape, while the decorator of
    `task2.py` returns its message; an OverflowError escapes from both. */
module Equivalence {
  import opened Exceptions
  import opened Calendar
  import opened Fields
  import opened Records
  import opened Book
  import opened Handlers
  import Task1
  import Task2

  /** `add`: same message, same book. */
  lemma AddContactSame(args: seq<string>, b: BookVal)
    requires ValidBook(b)
    ensures Task2.Guarded(Task2.AddContactBody(args, b))
            == Effect(Returned(Task1.AddContactSpec(args, b).result), Task1.AddContactSpec(args, b).after)
  {
  }

  /** `change`: same message, same book; the KeyError for an unknown name
      becomes the same not-found message. */
  lemma ChangeContactSame(args: seq<string>, b: BookVal)
    requires ValidBook(b)
    ensures Task2.Guarded(Task2.ChangeContactBody(args, b))
            == Effect(Returned(Task1.ChangeContactSpec(args, b).result), Task1.ChangeContactSpec(args, b).after)
  {
  }

  /** `add-birthday`: same message, same book. */
  lemma AddBirthdaySame(args: seq<string>, b: BookVal)
    requires ValidBook(b)
    ensures Task2.Guarded(Task2.AddBirthdayBody(args, b))
            == Effect(Returned(Task1.AddBirthdaySpec(args, b).result), Task1.AddBirthdaySpec(args, b).after)
  {
  }

  /** `phone`, `show-birthday` and `all`: same text. */
  lemma ReadersSame(args: seq<string>, b: BookVal)
    requires ValidBook(b)
    ensures Task2.InputError(Task2.GetPhoneBody(args, b)) == Returned(Task1.GetPhone(args, b))
    ensures Task2.InputError(Task2.ShowBirthdayBody(args, b)) == Returned(Task1.ShowBirthday(args, b))
    ensures Task2.InputError(Task2.ListContactsBody(args, b)) == Returned(Task1.ListContactsSpec(args, b))
  {
  }

  /** `birthdays`: where `task1.py` returns, both return the same text; where
      it raises a ValueError, `task2.py` returns that error's message instead;
      an OverflowError escapes from both. */
  lemma BirthdaysCompared(args: seq<string>, b: BookVal, today: Date)
    requires ValidBook(b) && ValidDate(today)
    ensures Task1.BirthdaysSpec(args, b, today).Returned? ==>
              Task2.InputError(Task2.BirthdaysBody(args, b, today)) == Task1.BirthdaysSpec(args, b, today)
    ensures Task1.BirthdaysSpec(args, b, today).Raised? && Task1.BirthdaysSpec(args, b, today).exc.ValueError? ==>
              Task2.InputError(Task2.BirthdaysBody(args, b, today)) == Returned(Task1.BirthdaysSpec(args, b, today).exc.msg)
    ensures Task1.BirthdaysSpec(args, b, today).Raised? && Task1.BirthdaysSpec(args, b, today).exc.OverflowError? ==>
              Task2.InputError(Task2.BirthdaysBody(args, b, today)) == Task1.BirthdaysSpec(args, b, today)
  {
  }

  /** The versions do differ: with one contact born on 29 February 2000 and
      today 1 March 2023, this year's occurrence does not exist, so `task1.py`
      raises while `task2.py` answers with the error's message. */
  lemma BirthdaysDiffer()
    ensures var b := BookVal(["Ann"], map["Ann" := RecordVal([], Some(Date(2000, 2, 29)))]);
            var today := Date(2023, 3, 1);
            && ValidBook(b) && ValidDate(today)
            && Task1.BirthdaysSpec([], b, today) == Raised(ValueError("day is out of range for month"))
            && Task2.InputError(Task2.BirthdaysBody([], b, today)) == Returned("day is out of range for month")
  {
    var b := BookVal(["Ann"], map["Ann" := RecordVal([], Some(Date(2000, 2, 29)))]);
    var today := Date(2023, 3, 1);
    assert ValidDate(Date(2000, 2, 29)) by {
      assert IsLeap(2000);
    }
    assert ValidBook(b);
    assert !IsLeap(2023);
    assert ReplaceYear(Date(2000, 2, 29), 2023) == Raised(ValueError("day is out of range for month"));
    assert ["Ann"][1..] == [];
  }
}

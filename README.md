# Contact book assistant, modelled in Dafny

This project models the core of a small command-line contact book written in
Python. It comes in two versions, `task1.py` and `task2.py`. Both share the
same classes:

- `Phone` is a field holding exactly ten digits.
- `Birthday` is a field holding a date read as `DD.MM.YYYY`.
- `Record` is one contact: a name, an ordered list of phones and an optional
  birthday. Its methods change these in place.
- `AddressBook` is a dictionary from names to records. Its keys keep their
  insertion order, and it can list the contacts whose birthday falls within
  the next days.

On top of these, each version has command handlers: `add`, `change`, `phone`,
`all`, `add-birthday`, `show-birthday` and `birthdays`. In `task1.py` each
handler reports an error by returning its message. In `task2.py` the handlers
raise, and the `input_error` decorator turns what it catches into messages.

The modules follow that structure:

- `Exceptions`: Python exceptions as values. `Outcome<T>` is either
  `Returned(v)` or `Raised(e)`.
- `Seqs`: `list.remove` and linear search.
- `Text`: `str.join`, `str.strip`, decimal digits.
- `Calendar`: `datetime.date`, with day numbers, comparison and
  `replace(year=...)`.
- `Fields`: `Phone`, `Birthday`, `strptime` and `strftime` for `%d.%m.%Y`.
- `Records`: the `Record` class and the value functions that specify it.
- `Book`: the `AddressBook` class, plus its contents as a value `BookVal`
  (keys in order and a map to record values).
- `Handlers`: what both versions share.
- `Task1` and `Task2`: the two versions of the handlers.
- `Equivalence`: the two versions compared.

How the model is built:

- **Classes.** `Record` and `AddressBook` are classes whose methods update
  their fields.
- **Handlers.** Each handler is specified by a function on the book's
  contents that gives its message and the contents it leaves. The handlers
  that loop or change records are methods proved against those functions.
- **Lemmas.** They state what the specifications promise: the error cases
  leave the book unchanged, a phone that is added is what `phone` then shows,
  a birthday that is set is what `show-birthday` shows, `all` lists every
  contact in insertion order, and `birthdays` lists exactly the contacts that
  are due.
- **The clock.** `datetime.now().date()` is the parameter `today`.
- **Error texts.** `date.replace` raises "day is out of range for month"
  and "year N is out of range", and `timedelta` and date arithmetic raise
  their overflow messages. These are the wording of CPython 3.12's C
  `datetime` module. `birthdays` in `task2.py` shows the first of them to
  the user. Other Python versions may word them differently.

## Model

| member | source | states |
|---|---|---|
| `Seqs.FirstIndex` | task1.py:60-64 | The scan from the front finds `x` exactly when it is present, at a position holding `x` with no earlier occurrence. |
| `Seqs.RemoveFirst` | task1.py:48 | `list.remove(x)`, as a definition. Its meaning is stated by `Seqs.RemoveFirstMeaning` and `Seqs.RemoveFirstAround`. |
| `Seqs.RemoveFirstMeaning` | task1.py:45-50 | Removing an absent phone leaves the list unchanged. Removing a present one shortens the list by one and takes exactly one copy of it out of the multiset. |
| `Seqs.RemoveFirstAround` | task1.py:45-50 | The copy removed is the first one; the entries before it and after it keep their order. |
| `Seqs.RemoveFirstNoDup` | task1.py:93-97 | Deleting a key from a list without repetitions leaves a list without repetitions. |
| `Seqs.RemoveFirstMembers` | task1.py:93-97 | After deleting `x` from a list without repetitions, its members are exactly the old members other than `x`. |
| `Seqs.NoDupCard` | task1.py:86-88 | A list without repetitions has as many members as entries. |
| `Seqs.SubseqMembers` | task1.py:102-113 | Every element of a subsequence is an element of the sequence it was picked from. |
| `Seqs.SubseqNoDup` | task1.py:102-113 | A subsequence of a list without repetitions has no repetitions. |
| `Text.PadDigits` | task1.py:81-82 | A number written with a fixed width is that many decimal digits denoting the number. |
| `Text.NatString` | task1.py:72 | `str(n)` is a non-empty string of digits denoting `n`, with no leading zero unless it is "0". |
| `Text.Join` | task1.py:80 | `sep.join(xs)`, as a definition. Its meaning is stated by `Text.JoinTrimmed` and `Records.PhonesText`. |
| `Text.JoinTrimmed` | task1.py:166-169 | Joining trimmed pieces gives a trimmed text that starts with the first piece's first character. |
| `Text.LinesJoin` | task1.py:166-168 | Appending each piece and a newline gives the newline-joined text plus one final newline. |
| `Text.Lines` | task1.py:166-168 | The text the loop `result += f'{record}\n'` builds, as a definition. Its meaning is stated by `Text.LinesJoin`. |
| `Text.StripLines` | task1.py:166-169 | Stripping the line-by-line text of trimmed pieces gives exactly the pieces joined by newlines. |
| `Text.Strip` | task1.py:169 | `str.strip()`, as a definition. Its meaning is stated by `Text.StripLines`. |
| `Calendar.DaysInMonth` | task1.py:31 | A month has 28 to 31 days, and 29 exactly for February of a leap year. |
| `Calendar.OrdinalOrder` | task1.py:106 | Python's date comparison agrees with comparing day numbers, and equal day numbers mean equal dates. |
| `Calendar.Precedes` | task1.py:106 | Python's `<` on dates, as a definition. Its meaning is stated by `Calendar.OrdinalOrder`. |
| `Calendar.OrdinalRange` | task1.py:101 | Every representable date has a day number between 1 and that of 31 December 9999. |
| `Calendar.Ordinal` | task1.py:76 | `date.toordinal()`, through which `(next_birthday - today).days` and `today + timedelta(...)` are computed, as a definition. Its meaning is stated by `Calendar.OrdinalOrder` and `Calendar.OrdinalRange`. |
| `Calendar.ReplaceYear` | task1.py:72 | `replace(year=y)` succeeds exactly when the same month and day exist in year `y`, and then gives that date. Within years 1-9999 it fails only for 29 February in a common year. |
| `Fields.NewPhone` | task1.py:21-25 | A phone is created exactly when the text is ten digits, and keeps the text. Otherwise it raises a ValueError with the phone message. |
| `Fields.DayField` | task1.py:31 | `%d` reads only day numbers 1-31. |
| `Fields.MonthField` | task1.py:31 | `%m` reads only month numbers 1-12. |
| `Fields.ParseDate` | task1.py:31 | A text that `strptime` accepts denotes a valid date. |
| `Fields.NewBirthday` | task1.py:28-33 | A birthday is created exactly when the text parses, holding that date. Otherwise it raises a ValueError with the date-format message. |
| `Fields.FormatDate` | task1.py:81-82 | `strftime('%d.%m.%Y')` gives ten characters, with dots at positions 2 and 5. |
| `Fields.FormatParse` | task1.py:81-82 | A formatted birthday parses back to the same date. |
| `Fields.PaddedDay` | task1.py:31 | `%d` reads back every two-digit day. |
| `Fields.PaddedMonth` | task1.py:31 | `%m` reads back every two-digit month. |
| `Records.EditPhones` | task1.py:52-58 | Editing an absent phone returns False and changes nothing. Editing a present phone removes its first copy. A valid new phone is then appended at the end: the list is `RemoveFirst` of the old one plus the new phone, and the multiset changes by exactly that swap. An invalid one raises, and the list is left one shorter, as `RemoveFirst` leaves it. |
| `Records.EditKeepsValid` | task1.py:52-58 | Editing a list of valid phones leaves only valid phones. |
| `Records.DaysUntilMeaning` | task1.py:69-77 | The days to a birthday count from today to its next occurrence: this year's unless its month and day are already behind today's, otherwise next year's. It raises exactly when this year's date or that occurrence does not exist. Otherwise the count is never negative, and it is zero exactly on the birthday. |
| `Records.DaysUntil` | task1.py:69-77 | `days_to_birthday` once a birthday is set, as a definition. Its meaning is stated by `Records.DaysUntilMeaning`. |
| `Records.InWindowDays` | task1.py:104-112 | The window test of `get_upcoming_birthdays` holds exactly when `days_to_birthday` is at most the window, and both fail on the same birthdays. |
| `Records.InWindow` | task1.py:104-112 | The window test for one birthday, as a definition. Its meaning is stated by `Records.InWindowDays`. |
| `Records.SummaryShape` | task1.py:79-83 | `str(record)` is trimmed, opens with the contact's name and phones label, and ends with the birthday or `N/A`. |
| `Records.Summary` | task1.py:79-83 | `str(record)`, as a definition. Its shape is stated by `Records.SummaryShape`. |
| `Records.BirthdayText` | task1.py:81-82 | The birthday as DD.MM.YYYY, or "N/A", as a definition. Its meaning is stated by `Records.SummaryShape` and `Fields.FormatParse`. |
| `Records.PhonesText` | task1.py:80 | Valid phones joined by "; " can be cut back into the phones: phone `k` sits at characters `12k` to `12k+10`. |
| `Records.Record.constructor` | task1.py:37-40 | A new record has the given name, no phones and no birthday. |
| `Records.Record.AddPhone` | task1.py:42-43 | A valid phone is appended as the last entry. An invalid one raises and leaves the phones unchanged. The birthday is untouched. |
| `Records.Record.RemovePhone` | task1.py:45-50 | Returns whether the phone was present, and removes its first copy. |
| `Records.Record.EditPhone` | task1.py:52-58 | The phones and the outcome are what `EditPhones` specifies; the birthday is untouched. |
| `Records.Record.FindPhone` | task1.py:60-64 | Finds the phone exactly when it is present, and gives the first position holding it. |
| `Records.Record.AddBirthday` | task1.py:66-67 | A parsable text sets the birthday to its date. Otherwise it raises the date-format ValueError and keeps the old birthday. The phones are untouched. |
| `Records.Record.DaysToBirthday` | task1.py:69-77 | None without a birthday. Otherwise it is what `Records.DaysUntil` gives for the birthday: the same exception, or the same count wrapped in Some. That count is never negative, and it is zero exactly when today has the birthday's month and day. |
| `Records.Record.ToString` | task1.py:79-83 | The summary is trimmed and opens with the contact's name and phones label. |
| `Book.OrderSize` | task1.py:86-88 | A well-formed book lists each key once, so its order is as long as its number of entries. |
| `Book.PutKeeps` | task1.py:87-88 | Filing a record keeps the book well formed and stores the record under its name. Every other entry and the order of earlier keys stay as they were. The size grows only for a new name. |
| `Book.Put` | task1.py:88 | `data[name] = record` on the contents, as a definition. Its meaning is stated by `Book.PutKeeps` and `Book.PutPut`. |
| `Book.DropKeeps` | task1.py:93-97 | Deleting a name keeps the book well formed and takes exactly that key out of the order. |
| `Book.Drop` | task1.py:94-95 | `del data[name]` on the contents, as a definition. Its meaning is stated by `Book.DropKeeps`. |
| `Book.PutPut` | task1.py:87-88 | Filing twice under one name keeps only the second record. Refiling a contact's own record changes nothing. |
| `Book.SummariesNames` | task1.py:166-168 | Each line of the listing opens with the name of the contact it describes. |
| `Book.WindowEnd` | task1.py:101 | `timedelta(days)` and `today + timedelta(days)` succeed exactly when the days are within ±999999999 and the end date is representable. The result is then the day number `days` after today. Otherwise they raise an OverflowError. |
| `Book.DueKeys` | task1.py:103-112 | The due contacts, in book order: exactly the keys whose record has a birthday within the window. |
| `Book.CollectDue` | task1.py:103-112 | The scan returns exactly the due contacts when no birthday fails `replace`. Otherwise it raises a ValueError. |
| `Book.Collect` | task1.py:103-112 | The scan over the records, as a definition. Its meaning is stated by `Book.CollectDue`. |
| `Book.ReplaceRaisesValueError` | task1.py:105-110 | What `replace(year=...)` raises in the scan is a ValueError. |
| `Book.UpcomingMeaning` | task1.py:99-113 | An end date beyond 9999 raises OverflowError. A birthday that `replace` cannot move raises ValueError. Otherwise the result is exactly the due contacts, in book order, each once. |
| `Book.Upcoming` | task1.py:99-113 | `get_upcoming_birthdays` on the contents, as a definition. Its meaning is stated by `Book.UpcomingMeaning`. |
| `Book.UpcomingInBook` | task1.py:99-113 | Every contact listed is one of the book's contacts. |
| `Book.AddressBook.constructor` | task1.py:86 | A new book is empty and well formed. |
| `Book.AddressBook.AddRecord` | task1.py:87-88 | The record is filed under its name, replacing any earlier one. A new name goes last in the order. The contents become `Put` of the old contents. |
| `Book.AddressBook.Find` | task1.py:90-91 | Returns the record filed under exactly that name, or None when there is none. |
| `Book.AddressBook.Delete` | task1.py:93-97 | Returns whether the name was present, removes exactly that entry, and keeps the book well formed. |
| `Book.AddressBook.GetUpcomingBirthdays` | task1.py:99-113 | Raises what the specification raises. Otherwise returns the records of the upcoming contacts, in book order. |
| `Handlers.ValidPrefix` | task1.py:129-133 | Counts the phones from the front that are valid; the next one, if any, is invalid. |
| `Handlers.ValidPrefixAll` | task1.py:129-133 | The phone loop gets through all phones exactly when none is invalid. |
| `Handlers.FindOrFile` | task1.py:123-128 | Finds the named record, or files a new empty one. The message is "Contact updated." for an existing contact and "Contact added." for a new one. |
| `Handlers.AddPhones` | task2.py:143-144 | Appends the phones in order up to the first invalid one, and raises the phone ValueError there. |
| `Handlers.SummariesText` | task1.py:166-169 | Stripping the line-by-line listing gives the summaries joined by newlines. |
| `Handlers.ListRecords` | task1.py:166-169 | The loop over the records builds the summaries of those contacts joined by newlines. |
| `Task1.AddContactSpec` | task1.py:118-134 | `add` leaves a well-formed book. |
| `Task1.ChangeContactSpec` | task1.py:137-148 | `change` leaves a well-formed book. |
| `Task1.AddBirthdaySpec` | task1.py:172-183 | `add-birthday` leaves a well-formed book. |
| `Task1.GetPhone` | task1.py:151-158 | `get_phone`, as a definition. Its meaning is stated by `Task1.GetPhoneMeaning`. |
| `Task1.ShowBirthday` | task1.py:186-195 | `show_birthday`, as a definition. Its meaning is stated by `Task1.ShowBirthdayMeaning`. |
| `Task1.ListContactsSpec` | task1.py:161-169 | `list_contacts` on the contents, as a definition. Its meaning is stated by `Task1.ListContactsMeaning`. |
| `Task1.BirthdaysSpec` | task1.py:198-207 | `birthdays` on the contents, as a definition. Its meaning is stated by `Task1.BirthdaysMeaning`. |
| `Task1.AddContact` | task1.py:118-134 | The message and the new contents are those `AddContactSpec` gives for the old contents. |
| `Task1.ChangeContact` | task1.py:137-148 | The message and the new contents are those `ChangeContactSpec` gives. |
| `Task1.AddBirthday` | task1.py:172-183 | The message and the new contents are those `AddBirthdaySpec` gives. |
| `Task1.ListContacts` | task1.py:161-169 | The text is the one `ListContactsSpec` gives. |
| `Task1.Birthdays` | task1.py:198-207 | The outcome is the one `BirthdaysSpec` gives. |
| `Task1.AddContactKeeps` | task1.py:118-134 | Too few arguments give the usage message and leave the book as it was. Otherwise the contact ends up in the book, with its birthday and every other contact unchanged. |
| `Task1.AddContactPhones` | task1.py:118-134 | The contact's phones grow by a prefix of the given ones. The message is the phone error exactly when some phone is invalid, and then the next phone is invalid. Otherwise it says whether the contact was added or updated. |
| `Task1.ChangeContactMeaning` | task1.py:137-148 | A wrong argument count or an unknown name leaves the book unchanged and gives its message. An old phone the contact lacks also leaves the book unchanged, yet still reports "Contact updated.". |
| `Task1.ChangeContactEdit` | task1.py:137-148 | Changing a phone the contact has removes its first copy and keeps the other phones in order. A valid new phone is then appended at the end and "Contact updated." returned; an invalid one is reported and not appended. |
| `Task1.ChangeContactKeeps` | task1.py:137-148 | `change` keeps the order, the keys, every other contact and the contact's birthday. |
| `Task1.AddBirthdayMeaning` | task1.py:172-183 | Usage and not-found leave the book unchanged. An unparsable date gives the date error and changes nothing. A parsable one sets exactly that contact's birthday. |
| `Task1.GetPhoneMeaning` | task1.py:151-158 | Gives the usage or not-found message, or the contact's phones joined by "; ", in which phone `k` is found at its place. |
| `Task1.AddThenPhone` | task1.py:118-158 | After adding a new contact with one valid phone, `phone` shows exactly that phone. |
| `Task1.ShowBirthdayMeaning` | task1.py:186-195 | Gives the usage, not-found or no-birthday message. Otherwise it gives the contact's name and the birthday as DD.MM.YYYY, which parses back to the stored date. |
| `Task1.AddThenShowBirthday` | task1.py:172-195 | Setting a birthday from a text and showing it gives back the date that text denotes. |
| `Task1.ListContactsMeaning` | task1.py:161-169 | Gives the usage or empty-book message. Otherwise it gives a trimmed text: one summary per contact in insertion order, joined by newlines, each opening with that contact's name. |
| `Task1.BirthdaysMeaning` | task1.py:198-207 | Gives the usage message, or lets OverflowError and ValueError from the scan escape. Otherwise it gives the no-upcoming message or exactly the due contacts' lines in book order. |
| `Task2.InputError` | task2.py:118-128 | A return passes through. A ValueError becomes its message. An IndexError and a KeyError become their fixed messages. Only other exceptions escape. |
| `Exceptions.Str` | task1.py:147 | `str(e)` for a caught ValueError, as a definition. That it gives the error's message is stated by `Task1.ChangeContactEdit` (the phone message) and `Task1.AddBirthdayMeaning` (the date-format message). |
| `Task2.Guarded` | task2.py:131-218 | `@input_error` applied to a handler body, as a definition. Its meaning is stated by the `Equivalence` lemmas. |
| `Task2.AddContactBody` | task2.py:131-145 | The undecorated `add` leaves a well-formed book even when it raises partway. |
| `Task2.ChangeContactBody` | task2.py:148-157 | The undecorated `change` leaves a well-formed book. |
| `Task2.AddBirthdayBody` | task2.py:183-192 | The undecorated `add-birthday` leaves a well-formed book. |
| `Task2.GetPhoneBody` | task2.py:160-168 | The undecorated `get_phone`, as a definition. Through the decorator it equals `Task1.GetPhone` (`Equivalence.ReadersSame`). |
| `Task2.ShowBirthdayBody` | task2.py:195-205 | The undecorated `show_birthday`, as a definition. Through the decorator it equals `Task1.ShowBirthday` (`Equivalence.ReadersSame`). |
| `Task2.ListContactsBody` | task2.py:171-180 | The undecorated `list_contacts`, as a definition. Through the decorator it equals `Task1.ListContactsSpec` (`Equivalence.ReadersSame`). |
| `Task2.BirthdaysBody` | task2.py:208-218 | The undecorated `birthdays`, as a definition. Through the decorator it is compared with `Task1.BirthdaysSpec` by `Equivalence.BirthdaysCompared`. |
| `Task2.AddContact` | task2.py:131-145 | The result and the new contents are the body's, passed through the decorator. |
| `Task2.ChangeContact` | task2.py:148-157 | The result and the new contents are the body's, passed through the decorator. |
| `Task2.AddBirthday` | task2.py:183-192 | The result and the new contents are the body's, passed through the decorator. |
| `Task2.ListContacts` | task2.py:171-180 | The result is the body's, passed through the decorator. |
| `Task2.Birthdays` | task2.py:208-218 | The result is the body's, passed through the decorator. |
| `Equivalence.AddContactSame` | task2.py:131-145 | The decorated `add` of `task2.py` gives the same message and book as `add` of `task1.py`. |
| `Equivalence.ChangeContactSame` | task2.py:148-157 | The decorated `change` gives the same message and book as `task1.py`. |
| `Equivalence.AddBirthdaySame` | task2.py:183-192 | The decorated `add-birthday` gives the same message and book as `task1.py`. |
| `Equivalence.ReadersSame` | task2.py:160-205 | The decorated `phone`, `show-birthday` and `all` give the same text as `task1.py`. |
| `Equivalence.BirthdaysCompared` | task2.py:208-218 | `birthdays` agrees with `task1.py` where that one returns or raises OverflowError. Where `task1.py` raises ValueError, `task2.py` returns its message. |
| `Equivalence.BirthdaysDiffer` | task2.py:208-218 | Take a contact born 29 February 2000, on 1 March 2023. `task1.py` raises "day is out of range for month" while `task2.py` returns that text. |

## Left out

- The command loop: `main`, `parse_input`, `input()`, `print`, and the
  `hello` and `exit` commands are console I/O. The handlers take the
  argument list that `parse_input` would give.
- `datetime.now().date()` reads the clock. The handlers and methods that
  read it take the date `today` as a parameter instead.
- Fields are not modelled as objects. `Field`, `Name`, `Phone` and
  `Birthday` wrap a value, and the model keeps that value directly: a phone as
  its text, a birthday as a `Date`, a name as the record's key. `Field.__str__`
  is not modelled on its own.
- `Records.Record.FindPhone`: returns the position of the phone rather than
  the `Phone` object, since the list holds plain texts.
- The `UserDict` base of `AddressBook` is reduced to the `data` map and its
  key order. The other dictionary methods are not modelled.
- `Fields.NewPhone`: accepts only the ASCII digits 0-9. Python's `\d` also
  matches other Unicode decimal digits, and `$` also matches before a final
  newline. The handlers' arguments come from `str.split`, so they never hold
  a newline.
- `Fields.ParseDate`: reads only ASCII digits, where `strptime`'s `\d` also
  accepts other Unicode decimal digits.
- `Fields.FormatDate`: writes the year with four digits. For years below 1000,
  what Python's `strftime('%Y')` writes depends on the platform's C library.
  The round trips `Fields.FormatParse`, `Task1.ShowBirthdayMeaning` and
  `Task1.AddThenShowBirthday` rely on the four digits. On a platform that
  writes such a year unpadded, `%Y` would not read the shown date back.
- `Text.Strip`: its contract says only that the result does not start or end
  with whitespace, not that it is the original text with only whitespace cut
  off. The property the handlers rely on is proved as `Text.StripLines`.
- `Task1.GetPhone`, `Task1.ShowBirthday`, `Task2.GetPhoneBody` and
  `Task2.ShowBirthdayBody` are modelled as functions on the book's contents,
  with no method form. They only read the book and have no loop.
- `show_birthday` prints `record.name.value`. The model uses the looked-up
  key, which equals it because every record is filed under its own name.
- The `IndexError` branch of `input_error` is modelled, but no modelled
  handler body raises an IndexError.
- Exceptions other than ValueError, KeyError, IndexError and OverflowError
  cannot arise in the modelled code and are not represented.

# Contact book bot: a verified model

This project models the contact-book core of a small command-line assistant
bot (`BOT.py`). The bot keeps an address book of contacts. Each contact has a
name, an ordered list of ten-digit phone numbers, an email and an optional
birthday. The bot reads commands such as `add`, `change` and `add-birthday`,
and it reports whose birthday falls within the coming week.

The model has these parts, one module per file:

- `common.dfy` (`Common`): `Option`, `Result` and the errors the bot reports.
- `seqs.dfy` (`Seqs`): first index of a value, filtering a value out of a
  list, and `str.join`.
- `calendar.dfy` (`Calendar`): Python's proleptic Gregorian `date`. It covers
  valid dates, `toordinal`, `weekday`, comparison, and adding days.
- `fields.dfy` (`Fields`): the `Phone` and `Birthday` validators. It also has
  `strptime`/`strftime` with the format `%d.%m.%Y`.
- `schedule.dfy` (`Schedule`): the upcoming-birthday report as pure functions
  of the contacts and of today's date.
- `contacts.dfy` (`Contacts`): the classes `Record` and `AddressBook`, whose
  methods update their fields in place.
- `commands.dfy` (`Commands`): the `add`, `change` and `add-birthday` handlers.
- `input.dfy` (`Input`): `parse_input`, which splits the line into words and
  lower-cases the command.

The address book is a Python dict. Its report follows the dict's insertion
order, so the model keeps a `map` from names to records plus an `order`
sequence of the names. The invariant `Valid` says three things:

- every record is filed under its own name;
- `order` lists each key exactly once;
- `order` lists nothing else.

The report is specified by the function `Schedule.Upcoming`. The method
`AddressBook.GetUpcomingBirthdays` is proved equal to it. The properties of
the report are lemmas about `Upcoming`:

- soundness: each line is the one due for a distinct contact, taken in the
  book's order: the contact's birthday parses, its next occurrence is 0 to 7
  days away, and the line prints that date moved off the weekend;
- completeness: every birthday 0 to 7 days away is reported, moved off the
  weekend;
- order: the report splits over concatenation;
- worked examples.

The model follows the code on these points:

- A birthday is read the way `strptime("%d.%m.%Y")` reads it. One-digit days
  and months are accepted, and so is a day written with a leading space.
  The text is not restricted to two-digit fields.
- `edit_phone` stores the new phone without validating it.
- A wrong number of arguments to a handler is a `ValueError` raised by tuple
  unpacking ("not enough values to unpack" or "too many values to unpack").
  It is not the "provide all necessary arguments" reply.

## Model

| member | source | states |
|---|---|---|
| Fields.IsDigits | BOT.py:35 | `isdigit()` holds exactly for non-empty strings of (ASCII) digits |
| Fields.NewPhone | BOT.py:34-37 | a phone is accepted exactly when it is 10 characters, all digits; the stored value is the input; otherwise the phone error |
| Fields.ParseDate | BOT.py:43 | every date `strptime` accepts is a real calendar date in years 1..9999 |
| Fields.ParseDateMatches | BOT.py:43 | the parser returns `d` exactly when the text is day text, dot, month text, dot, four-digit year spelling the valid date `d` (so `31.02.2024` is rejected) |
| Fields.ParseDateExact | BOT.py:43 | a text parses exactly when it spells some valid date in the format |
| Fields.NewBirthday | BOT.py:40-46 | a birthday is accepted exactly when its text spells a valid date in `%d.%m.%Y`; the stored value is the text unchanged; otherwise the date error |
| Fields.FormatDate | BOT.py:126 | `strftime("%d.%m.%Y")` gives ten characters: digits with dots at positions 2 and 5 |
| Fields.FormatDateParses | BOT.py:110-126 | every date the report prints with `strftime` reads back with `strptime` as the same date |
| Fields.Digits4Number | BOT.py:126 | a four-digit zero-padded year is a year text and reads back as the same number |
| Calendar.DaysInMonth | BOT.py:111 | months have 28 to 31 days, and 29 exactly for February of a leap year |
| Calendar.Weekday | BOT.py:120 | `weekday()` is between 0 (Monday) and 6 (Sunday) |
| Calendar.NextDay | BOT.py:122 | the next day is a valid date whose day number is one more |
| Calendar.AddDays | BOT.py:122 | `d + timedelta(days=n)` is a valid date whose day number is `n` more |
| Calendar.YearLength | BOT.py:116 | consecutive years' day numbers differ by 365, or 366 in a leap year |
| Calendar.Ordinal | BOT.py:113-116 | `toordinal()` is a positive day number lying within the date's own year |
| Calendar.Before | BOT.py:113 | `a < b` on dates is strict, and a date in an earlier year always comes first |
| Calendar.YearsIncrease | BOT.py:113 | later years start on later day numbers |
| Calendar.BeforeIsOrdinalOrder | BOT.py:113 | comparing dates field by field agrees with comparing their day numbers, both ways |
| Calendar.OrdinalAtMostMax | BOT.py:122 | no valid date is after 31.12.9999 |
| Calendar.MaxDateIsFriday | BOT.py:120-122 | 31.12.9999 is day 3652059 and a Friday, so the weekend move never overflows |
| Schedule.Replace | BOT.py:111 | `replace(year=y)` succeeds exactly for years 1..9999, except moving 29 February to a common year; it keeps day and month; the errors are the year-out-of-range error and the day-out-of-range error |
| Schedule.NextOccurrence | BOT.py:111-114 | the result has the birthday's day and month, is not before today, is the earliest such date, and is in today's year or (when that has passed) the next; it fails exactly for 29 February in a common year, or a passed date that must move to year 10000 or to a common year |
| Schedule.DaysUntil | BOT.py:116 | `(d - today).days` is zero exactly on the day itself and negative exactly for dates before today |
| Schedule.WeekendShift | BOT.py:120-122 | the reported date is a weekday; weekdays stay; Saturday and Sunday move to the Monday, 2 and 1 days later |
| Schedule.EntryFor | BOT.py:109-127 | a contact without a birthday gives no line; any line given names the contact and a weekday date 0 to 9 days ahead that reads back as a date |
| Schedule.EntryForCases | BOT.py:110-127 | an unparsable stored birthday is the mismatch error; a failed year move is its error; a next occurrence 0 to 7 days ahead gives a line with the shifted date; a later one gives none |
| Schedule.MondayAfter | BOT.py:120-122 | from a Saturday or Sunday, adding 7 - weekday days lands on a Monday no later than 31.12.9999 |
| Schedule.Collect | BOT.py:108-129 | gathering the per-contact lines fails exactly when some contact's line is an error, and otherwise yields at most one entry per contact |
| Schedule.Lines | BOT.py:108-109 | there is one line per contact, and a contact without a birthday gives no entry |
| Schedule.LineAt | BOT.py:108-127 | line `i` of the report's lines is exactly what contact `i` gives |
| Schedule.Upcoming | BOT.py:104-129 | the report fails exactly when some contact's birthday is unparsable or cannot move to its next occurrence's year, and otherwise has at most one line per contact |
| Schedule.CollectStepErr | BOT.py:108-111 | a failing contact ends the report with its error, whatever was collected |
| Schedule.CollectStepNone | BOT.py:108-118 | a contact that gives no line leaves the collected lines as they are |
| Schedule.CollectStepSome | BOT.py:118-127 | a contact's line is appended after the lines collected so far |
| Schedule.CollectAppend | BOT.py:106-129 | collecting two runs of lines is collecting the first, then the second; the first error wins |
| Schedule.CollectSound | BOT.py:106-129 | each collected entry is the entry of a contact's line, and the contacts are taken in strictly increasing order, so each gives at most one entry |
| Schedule.CollectComplete | BOT.py:124-127 | every line a contact gives is collected |
| Schedule.CollectOne | BOT.py:106-129 | one contact's line collects into that entry, into nothing, or into its error |
| Schedule.LinesAppend | BOT.py:108 | the lines for two runs of contacts are the first run's lines followed by the second's |
| Schedule.UpcomingAppend | BOT.py:108-129 | the report for two runs of contacts is the first run's report followed by the second's, and the first error wins: the report follows the book's order |
| Schedule.UpcomingSound | BOT.py:104-129 | line `k` of the report belongs to contact `idx[k]`, with strictly increasing `idx`: that contact has a birthday that parses, whose next occurrence exists and is 0 to 7 days ahead, and the line is the contact's name with that occurrence moved off the weekend and printed as `%d.%m.%Y` (a weekday 0 to 9 days ahead) |
| Schedule.UpcomingComplete | BOT.py:104-129 | every contact whose next birthday is 0 to 7 days ahead is in the report with its weekend-shifted date |
| Schedule.NoBirthdayNotReported | BOT.py:109 | with distinct names, a contact without a birthday never appears in the report |
| Schedule.UpcomingSingle | BOT.py:108-129 | a single contact with a birthday at most a week ahead gives exactly its one line |
| Schedule.UpcomingSingleFails | BOT.py:111-114 | a single contact whose birthday cannot move to its next occurrence's year makes the report that error |
| Schedule.ExampleWeekdayBirthday | BOT.py:118-127 | on Monday 10.06.2024, a birthday on Wednesday 12.06 is reported unchanged |
| Schedule.ExampleSaturdayBirthday | BOT.py:120-122 | on Monday 10.06.2024, a birthday on Saturday 15.06 is reported as Monday 17.06.2024 |
| Schedule.ExampleRollover | BOT.py:113-114 | on 31.12.2024, a birthday on 02.01 is reported as 02.01.2025 |
| Schedule.ExampleLeapDayInCommonYear | BOT.py:111 | a 29.02 birthday makes the whole report fail in a common year |
| Seqs.IndexOf | BOT.py:74-78 | the first index holding the value, or none exactly when it does not occur |
| Seqs.Without | BOT.py:62 | the filtered list has no copy of the value and the same number of every other value |
| Seqs.WithoutAppend | BOT.py:62 | filtering distributes over concatenation, so relative order is kept |
| Seqs.WithoutAbsent | BOT.py:61-62 | removing an absent phone changes nothing |
| Seqs.WithoutIdempotent | BOT.py:61-62 | removing twice is removing once |
| Seqs.WithoutMembers | BOT.py:62 | a value survives filtering exactly when it was there and is not the one removed |
| Seqs.WithoutDistinct | BOT.py:100-102 | filtering a list without repeats leaves one without repeats |
| Contacts.Record.constructor | BOT.py:50-56 | a new record has the name, the email, no phones and no birthday |
| Contacts.Record.Create | BOT.py:50-56 | `Record(name, phone, email)` succeeds exactly when the phone is empty or valid; then it holds that one phone (or none), the email and no birthday |
| Contacts.Record.AddPhone | BOT.py:58-59 | a valid phone is appended; an invalid one is the phone error and changes nothing |
| Contacts.Record.RemovePhone | BOT.py:61-62 | the phones become exactly those whose value differs, in order; email and birthday unchanged |
| Contacts.Record.EditPhone | BOT.py:64-72 | the first phone equal to the old one takes the new, unchecked value and nothing else changes; without a match, the not-found error and no change |
| Contacts.Record.FindPhone | BOT.py:74-78 | a phone is found exactly when some phone has that value, and it has that value |
| Contacts.Record.AddBirthday | BOT.py:80-81 | the birthday is replaced exactly when the text parses as a date; otherwise the date error and no change |
| Contacts.Record.Render | BOT.py:83-87 | the text starts with "name: " and ends with ", birthday: …" when there is a birthday, else with ", email: …" when the email is not empty |
| Contacts.AddressBook.constructor | BOT.py:91-92 | a new book is empty and valid |
| Contacts.AddressBook.AddRecord | BOT.py:94-95 | the record is filed under its name, replacing any other; other keys untouched; a new name goes last in the order; `Find` then returns the record |
| Contacts.AddressBook.Find | BOT.py:97-98 | a record is found exactly when the name is a key, and it carries that name |
| Contacts.AddressBook.Delete | BOT.py:100-102 | only the name is removed, from the map and the order; an absent name changes nothing, so deleting is idempotent |
| Contacts.IndexedDelete | BOT.py:100-102 | removing a name from the map and the order keeps the book's invariant |
| Contacts.AddressBook.Contacts | BOT.py:108 | the contacts are listed in the book's order, one per name |
| Contacts.AddressBook.GetUpcomingBirthdays | BOT.py:104-129 | the loop returns exactly the report `Upcoming` for the book's contacts in order, or its first error, and changes nothing |
| Commands.AddContact | BOT.py:149-163 | fewer than two arguments is the unpacking error; a known name keeps its record, gains the phone if given and the email if not empty, "Contact updated."; an unknown name gets a fresh record appended to the order, "Contact added."; an invalid phone fails and changes nothing else; other records untouched |
| Commands.ChangeContact | BOT.py:166-173 | a count other than three is the unpacking error; an unknown name is the not-found error; otherwise the first matching phone is replaced, or the phone-not-found error; other records untouched |
| Commands.AddBirthday | BOT.py:191-198 | a count other than two is the unpacking error; an unknown name is the not-found error; otherwise the birthday is set when valid, "Birthday added for name." |
| Input.IsSpace | BOT.py:217-219 | space, tab, line feed and carriage return are whitespace, and every whitespace character is a control character or the space |
| Input.IsBlank | BOT.py:217 | `not s.strip()` holds exactly when the line splits into no words |
| Input.WordLength | BOT.py:219 | the first word runs up to the first whitespace character |
| Input.Split | BOT.py:219 | `split()` returns non-empty words without whitespace |
| Input.Lower | BOT.py:220 | `lower()` keeps the length, maps each capital letter to its small letter (code + 32), leaves no capital letters and keeps every other character |
| Input.ParseInput | BOT.py:216-220 | a blank line gives no command and no arguments; otherwise the first word of `split()` lower-cased, and the remaining words as the arguments |
| Input.BlankIsAllSpace | BOT.py:217 | a line is blank exactly when every character of it is whitespace |
| Input.SplitJoin | BOT.py:219 | words joined by single spaces split back into the same words |
| Input.SplitKeepsText | BOT.py:219 | the words run together are the line's non-whitespace characters in order |
| Input.SplitSqueezes | BOT.py:219 | the words joined by single spaces are the line with leading and trailing whitespace dropped and every inner run of whitespace squeezed to one space, and that squeezed line splits into the same words |
| Input.ParseInputOfWords | BOT.py:216-220 | a command typed as words comes back as its lower-cased first word and the other words unchanged |

## Left out

- Saving to and loading from the pickle file (`save_to_file`, `load_from_file`) are not modelled. They are file I/O.
- `main`, `clear_screen`, `print` and `input` are not modelled. They are terminal and OS plumbing.
- The handlers `show_phone`, `show_all_contacts`, `show_birthday` and `birthdays` are not modelled, and neither is `AddressBook.__repr__`. They only format text for display.
- The `input_error` wrapper is replaced by the `Result` type. The handlers return the error instead of its message string.
- The unpacking messages are not given word for word. `NotEnoughValues` and `TooManyValues` carry the counts that Python's messages print.
- `datetime.today()` is not modelled. Today's date is a parameter of the report.
- Unicode is not modelled: only ASCII digits, whitespace and capital letters are recognised. `str.isdigit`, `\d` in `strptime`, `str.split` and `str.lower` also act on other Unicode characters.
- `strptime` accepts a leading space in a day field only as `%d`'s single-space alternative. The model does not cover `strptime`'s other whitespace handling.
- `strftime` pads years below 1000 as the platform's C library does. The model always prints four digits, so those years are not covered.
- Contacts.Record.EditPhone: it replaces the phone value in the list. The Python code changes the shared `Phone` object, and aliasing through that object is not modelled.
- Contacts.Record.FindPhone: it returns a phone with the requested value, not the identical object.
- Contacts.Record.Render: its contract states the name prefix and the email and birthday suffixes. It does not state the "; "-joined phone list between them.
- Calendar arithmetic is modelled only within years 1..9999. Outside that range the model returns an error where Python raises `ValueError`/`OverflowError`.

/** The upcoming-birthday report as pure functions of the contacts and of
    today's date: for each contact with a birthday, its next occurrence (this
    year, or next year if this year's has passed), kept when it is at most a
    week away, and moved from a Saturday or Sunday to the following Monday. */
module Schedule {
  import opened Common
  import opened Calendar
  import opened Fields

  /** One line of the report: whom to greet, and on which date (day.month.year). */
  datatype Entry = Entry(name: string, birthday: string)

  predicate IsLeapDay(d: Date) {
    d.month == 2 && d.day == 29
  }

  /** `d.replace(year=y)`: the same day and month in year `y`. Within the
      representable years the only date that cannot move is 29 February, onto
      a common year. */
  function Replace(d: Date, y: int): (r: Result<Date>)
    requires ValidDate(d)
    ensures r.Ok? <==> MinYear <= y <= MaxYear && !(IsLeapDay(d) && !IsLeap(y))
    ensures r.Ok? ==> r.value == Date(y, d.month, d.day) && ValidDate(r.value)
    ensures r.Err? && (y < MinYear || y > MaxYear) ==> r.error == YearOutOfRange(y)
    ensures r.Err? && MinYear <= y <= MaxYear ==> r.error == DayOutOfRange
  {
    if y < MinYear || y > MaxYear then Err(YearOutOfRange(y))
    else if d.day > DaysInMonth(y, d.month) then Err(DayOutOfRange)
    else Ok(Date(y, d.month, d.day))
  }

  /** The first day on or after `today` that falls on the birthday's day and
      month, looked for in today's year and then in the next one. */
  function NextOccurrence(b: Date, today: Date): (r: Result<Date>)
    requires ValidDate(b) && ValidDate(today)
    ensures r.Ok? ==> ValidDate(r.value) && r.value.month == b.month && r.value.day == b.day
    ensures r.Ok? ==> !Before(r.value, today)
    ensures r.Ok? ==> forall c :: ValidDate(c) && c.month == b.month && c.day == b.day && !Before(c, today)
                         ==> !Before(c, r.value)
    ensures r.Ok? ==> r.value.year == today.year
                      || (r.value.year == today.year + 1 && Before(Date(today.year, b.month, b.day), today))
    ensures r.Err? <==> (IsLeapDay(b) && !IsLeap(today.year))
                        || (Before(Date(today.year, b.month, b.day), today) && (today.year == MaxYear || IsLeapDay(b)))
  {
    match Replace(b, today.year)
    case Err(e) => Err(e)
    case Ok(thisYear) =>
      if Before(thisYear, today) then Replace(thisYear, today.year + 1) else Ok(thisYear)
  }

  /** Whole days from `today` to `d` (`(d - today).days`): zero on the day
      itself and negative exactly for the days before it. */
  function DaysUntil(d: Date, today: Date): (r: int)
    requires ValidDate(d) && ValidDate(today)
    ensures r == 0 <==> d == today
    ensures r < 0 <==> Before(d, today)
  {
    BeforeIsOrdinalOrder(d, today);
    Ordinal(d) - Ordinal(today)
  }

  /** The date to report for a birthday on `d`: a Saturday or a Sunday moves
      forward to the next Monday (7 - weekday days), any other day stays.
      The move never leaves the representable dates, because 31 December 9999
      is a Friday. */
  function WeekendShift(d: Date): (r: Date)
    requires ValidDate(d)
    ensures ValidDate(r) && Weekday(r) < 5
    ensures Weekday(d) < 5 ==> r == d
    ensures Weekday(d) >= 5 ==> Weekday(r) == 0 && DaysUntil(r, d) == 7 - Weekday(d)
  {
    var w := Weekday(d);
    if w >= 5 then
      OrdinalAtMostMax(d);
      MaxDateIsFriday();
      MondayAfter(Ordinal(d), w);
      AddDays(d, 7 - w)
    else d
  }

  /** From day number `o`, a Saturday or a Sunday, the next Monday is
      7 - weekday days on, and no later than 31 December 9999 (a Friday). */
  lemma MondayAfter(o: int, w: int)
    requires 1 <= o <= 3652059 && w == (o + 6) % 7 && w >= 5
    ensures o + 7 - w <= 3652059 && (o + 7 - w + 6) % 7 == 0
  {
    var q := (o + 6) / 7;
    assert o + 6 == 7 * q + w;
    assert o + 7 - w + 6 == 7 * (q + 1);
  }

  /** What the report says about `e`: it names `name` and a weekday date that
      reads back from its text and lies 0 to 9 days after `today`. */
  ghost predicate Reports(e: Entry, name: string, today: Date)
    requires ValidDate(today)
  {
    && e.name == name
    && ParseDate(e.birthday).Some?
    && var d := ParseDate(e.birthday).value;
       Weekday(d) < 5 && 0 <= DaysUntil(d, today) <= 9
  }

  /** `e` is the line due for the contact `name` with birthday `b`: the
      birthday parses, its next occurrence exists and is 0 to 7 days after
      `today`, and `e` gives that occurrence moved off the weekend. */
  ghost predicate Due(e: Entry, name: string, b: Option<Birthday>, today: Date)
    requires ValidDate(today)
  {
    && b.Some?
    && ParseDate(b.value.value).Some?
    && var next := NextOccurrence(ParseDate(b.value.value).value, today);
       && next.Ok?
       && 0 <= DaysUntil(next.value, today) <= 7
       && e == Entry(name, FormatDate(WeekendShift(next.value)))
  }

  /** The report line for one contact, or None when it is left out. The report
      stops with the error when a stored birthday does not parse or cannot be
      moved to the year of its next occurrence. */
  function EntryFor(name: string, b: Option<Birthday>, today: Date): (r: Result<Option<Entry>>)
    requires ValidDate(today)
    ensures b.None? ==> r == Ok(None)
    ensures r.Ok? && r.value.Some? ==> b.Some? && Reports(r.value.value, name, today)
  {
    match b
    case None => Ok(None)
    case Some(birthday) =>
      match ParseDate(birthday.value)
      case None => Err(DateMismatch(birthday.value))
      case Some(date) =>
        match NextOccurrence(date, today)
        case Err(e) => Err(e)
        case Ok(next) =>
          BeforeIsOrdinalOrder(next, today);
          var days := DaysUntil(next, today);
          if 0 <= days <= 7 then
            var shown := WeekendShift(next);
            FormatDateParses(shown);
            Ok(Some(Entry(name, FormatDate(shown))))
          else Ok(None)
  }

  /** A contact with a birthday is reported exactly when its next occurrence
      is at most 7 days away, on that date moved off the weekend; a birthday
      that does not parse, or a failed move to the year of its next
      occurrence, is an error. */
  lemma EntryForCases(name: string, b: Birthday, today: Date)
    requires ValidDate(today)
    ensures ParseDate(b.value).None? ==> EntryFor(name, Some(b), today) == Err(DateMismatch(b.value))
    ensures ParseDate(b.value).Some? ==>
              var next := NextOccurrence(ParseDate(b.value).value, today);
              && (next.Err? ==> EntryFor(name, Some(b), today) == Err(next.error))
              && (next.Ok? && DaysUntil(next.value, today) <= 7 ==>
                    EntryFor(name, Some(b), today) == Ok(Some(Entry(name, FormatDate(WeekendShift(next.value))))))
              && (next.Ok? && DaysUntil(next.value, today) > 7 ==> EntryFor(name, Some(b), today) == Ok(None))
  {
    if ParseDate(b.value).Some? {
      var next := NextOccurrence(ParseDate(b.value).value, today);
      if next.Ok? {
        BeforeIsOrdinalOrder(next.value, today);
      }
    }
  }

  /** `es` in front of the entries of `rest`, unless `rest` failed. */
  function Prepend(es: seq<Entry>, rest: Result<seq<Entry>>): Result<seq<Entry>> {
    match rest
    case Err(e) => Err(e)
    case Ok(tail) => Ok(es + tail)
  }

  /** The lines given one per contact, gathered in order; the first error
      ends the report with that error, so the gathering fails exactly when
      some line is an error, and otherwise has at most one entry per line. */
  function Collect(lines: seq<Result<Option<Entry>>>): (r: Result<seq<Entry>>)
    ensures r.Err? <==> exists i :: 0 <= i < |lines| && lines[i].Err?
    ensures r.Ok? ==> |r.value| <= |lines|
  {
    if lines == [] then Ok([])
    else
      match lines[0]
      case Err(e) => Err(e)
      case Ok(head) => Prepend(if head.Some? then [head.value] else [], Collect(lines[1..]))
  }

  /** What each contact of `rs` gives the report, in order: one line per
      contact, and nothing for a contact without a birthday. */
  function Lines(rs: seq<(string, Option<Birthday>)>, today: Date): (r: seq<Result<Option<Entry>>>)
    requires ValidDate(today)
    ensures |r| == |rs|
    ensures forall i :: 0 <= i < |rs| && rs[i].1.None? ==> r[i] == Ok(None)
    decreases |rs|
  {
    if rs == [] then []
    else
      var tail := Lines(rs[1..], today);
      assert forall i :: 0 < i < |rs| ==> rs[1..][i - 1] == rs[i];
      [EntryFor(rs[0].0, rs[0].1, today)] + tail
  }

  /** Line `i` is what contact `i` gives. */
  lemma {:induction false} LineAt(rs: seq<(string, Option<Birthday>)>, today: Date, i: nat)
    requires ValidDate(today) && i < |rs|
    ensures Lines(rs, today)[i] == EntryFor(rs[i].0, rs[i].1, today)
    decreases i
  {
    if i > 0 {
      LineAt(rs[1..], today, i - 1);
    }
  }

  /** Every line is what its contact gives. */
  lemma LinesEach(rs: seq<(string, Option<Birthday>)>, today: Date)
    requires ValidDate(today)
    ensures forall i :: 0 <= i < |rs| ==> Lines(rs, today)[i] == EntryFor(rs[i].0, rs[i].1, today)
  {
    forall i | 0 <= i < |rs| {
      LineAt(rs, today, i);
    }
  }

  /** The report for the contacts `rs` (name and birthday), in their order;
      the first failing contact ends it with its error, so it fails exactly
      when some contact's line is an error, and otherwise has no more lines
      than contacts. */
  function Upcoming(rs: seq<(string, Option<Birthday>)>, today: Date): (r: Result<seq<Entry>>)
    requires ValidDate(today)
    ensures r.Err? <==> exists i :: 0 <= i < |rs| && EntryFor(rs[i].0, rs[i].1, today).Err?
    ensures r.Ok? ==> |r.value| <= |rs|
  {
    LinesEach(rs, today);
    Collect(Lines(rs, today))
  }

  /** Gathering two runs of lines is gathering the first, then the second;
      an error in the first run wins. */
  lemma {:induction false} CollectAppend(a: seq<Result<Option<Entry>>>, b: seq<Result<Option<Entry>>>)
    ensures Collect(a + b) ==
              match Collect(a)
              case Err(e) => Err(e)
              case Ok(es) => Prepend(es, Collect(b))
  {
    if a == [] {
      assert a + b == b;
      match Collect(b)
      case Err(e) =>
      case Ok(t) => assert [] + t == t;
    } else {
      assert (a + b)[0] == a[0];
      assert (a + b)[1..] == a[1..] + b;
      CollectAppend(a[1..], b);
      match a[0]
      case Err(e) =>
      case Ok(head) =>
        var h := if head.Some? then [head.value] else [];
        match Collect(a[1..])
        case Err(e) =>
        case Ok(es) =>
          match Collect(b)
          case Err(e) =>
          case Ok(t) => assert h + (es + t) == (h + es) + t;
    }
  }

  /** The report for two runs of contacts is the report for the first run
      followed by the report for the second; an error in the first run wins. */
  lemma UpcomingAppend(a: seq<(string, Option<Birthday>)>, b: seq<(string, Option<Birthday>)>, today: Date)
    requires ValidDate(today)
    ensures Upcoming(a + b, today) ==
              match Upcoming(a, today)
              case Err(e) => Err(e)
              case Ok(es) => Prepend(es, Upcoming(b, today))
  {
    LinesAppend(a, b, today);
    CollectAppend(Lines(a, today), Lines(b, today));
  }

  /** The lines for two runs of contacts are the first run's lines followed
      by the second's. */
  lemma {:induction false} LinesAppend(a: seq<(string, Option<Birthday>)>, b: seq<(string, Option<Birthday>)>, today: Date)
    requires ValidDate(today)
    ensures Lines(a + b, today) == Lines(a, today) + Lines(b, today)
    decreases |a|
  {
    if a == [] {
      assert a + b == b;
    } else {
      assert (a + b)[0] == a[0];
      assert (a + b)[1..] == a[1..] + b;
      LinesAppend(a[1..], b, today);
    }
  }

  lemma CollectStepErr(acc: seq<Entry>, lines: seq<Result<Option<Entry>>>)
    requires lines != [] && lines[0].Err?
    ensures Prepend(acc, Collect(lines)) == Err(lines[0].error)
  {
  }

  lemma CollectStepNone(acc: seq<Entry>, lines: seq<Result<Option<Entry>>>)
    requires lines != [] && lines[0] == Ok(None)
    ensures Prepend(acc, Collect(lines)) == Prepend(acc, Collect(lines[1..]))
  {
    match Collect(lines[1..])
    case Err(e) =>
    case Ok(t) => assert [] + t == t;
  }

  lemma CollectStepSome(acc: seq<Entry>, lines: seq<Result<Option<Entry>>>)
    requires lines != [] && lines[0].Ok? && lines[0].value.Some?
    ensures Prepend(acc, Collect(lines)) == Prepend(acc + [lines[0].value.value], Collect(lines[1..]))
  {
    var e := lines[0].value.value;
    match Collect(lines[1..])
    case Err(err) =>
    case Ok(t) => assert acc + ([e] + t) == (acc + [e]) + t;
  }

  /** Gathering from line `i` onwards after the entries `acc`: an error
      line ends it, an empty line is skipped, an entry joins `acc`. */
  lemma CollectFrom(acc: seq<Entry>, lines: seq<Result<Option<Entry>>>, i: nat)
    requires i < |lines|
    ensures Prepend(acc, Collect(lines[i..])) ==
              match lines[i]
              case Err(e) => Err(e)
              case Ok(None) => Prepend(acc, Collect(lines[i + 1..]))
              case Ok(Some(e)) => Prepend(acc + [e], Collect(lines[i + 1..]))
  {
    var rest := lines[i..];
    assert rest[0] == lines[i] && rest[1..] == lines[i + 1..];
    match lines[i]
    case Err(e) => CollectStepErr(acc, rest);
    case Ok(None) => CollectStepNone(acc, rest);
    case Ok(Some(e)) => CollectStepSome(acc, rest);
  }

  /** Gathering from the first line after no entries is gathering all lines,
      and gathering past the last line adds nothing. */
  lemma CollectEnds(acc: seq<Entry>, lines: seq<Result<Option<Entry>>>)
    ensures Prepend([], Collect(lines[0..])) == Collect(lines)
    ensures Prepend(acc, Collect(lines[|lines|..])) == Ok(acc)
  {
    assert lines[0..] == lines;
    assert lines[|lines|..] == [];
    assert acc + [] == acc;
    match Collect(lines)
    case Err(e) =>
    case Ok(t) => assert [] + t == t;
  }

  /** `idx` says where each of `es` comes from: `es[k]` is the entry of line
      `idx[k]`, and the lines are taken in strictly increasing order, so no
      line gives two entries. */
  ghost predicate Traced(idx: seq<int>, es: seq<Entry>, lines: seq<Result<Option<Entry>>>) {
    && |idx| == |es|
    && (forall k :: 0 <= k < |idx| ==> 0 <= idx[k] < |lines| && lines[idx[k]] == Ok(Some(es[k])))
    && (forall k, l :: 0 <= k < l < |idx| ==> idx[k] < idx[l])
  }

  /** The gathered entries are the entries of distinct lines, in the lines'
      order. */
  lemma {:induction false} CollectSound(lines: seq<Result<Option<Entry>>>)
    requires Collect(lines).Ok?
    ensures exists idx :: Traced(idx, Collect(lines).value, lines)
  {
    if lines == [] {
      assert Traced([], [], lines);
    } else {
      CollectSound(lines[1..]);
      var head := lines[0].value;
      var tail := Collect(lines[1..]).value;
      var rest :| Traced(rest, tail, lines[1..]);
      var idx := TracedCons(rest, tail, lines);
      assert Collect(lines).value == (if head.Some? then [head.value] else []) + tail;
    }
  }

  /** A trace into the lines after the first, moved one line on, with the
      first line's entry (if any) in front. */
  lemma TracedCons(rest: seq<int>, tail: seq<Entry>, lines: seq<Result<Option<Entry>>>) returns (idx: seq<int>)
    requires lines != [] && lines[0].Ok? && Traced(rest, tail, lines[1..])
    ensures Traced(idx, (if lines[0].value.Some? then [lines[0].value.value] else []) + tail, lines)
  {
    var shifted := TracedShift(rest, tail, lines);
    if lines[0].value.Some? {
      idx := TracedFront(shifted, tail, lines);
    } else {
      idx := shifted;
      assert [] + tail == tail;
    }
  }

  lemma TracedShift(rest: seq<int>, tail: seq<Entry>, lines: seq<Result<Option<Entry>>>) returns (shifted: seq<int>)
    requires lines != [] && Traced(rest, tail, lines[1..])
    ensures Traced(shifted, tail, lines)
    ensures forall k :: 0 <= k < |shifted| ==> shifted[k] > 0
  {
    shifted := seq(|rest|, k requires 0 <= k < |rest| => rest[k] + 1);
    forall k | 0 <= k < |shifted|
      ensures 0 < shifted[k] < |lines| && lines[shifted[k]] == Ok(Some(tail[k]))
    {
      assert lines[1..][rest[k]] == lines[rest[k] + 1];
    }
  }

  lemma TracedFront(rest: seq<int>, tail: seq<Entry>, lines: seq<Result<Option<Entry>>>) returns (idx: seq<int>)
    requires lines != [] && lines[0].Ok? && lines[0].value.Some?
    requires Traced(rest, tail, lines)
    requires forall k :: 0 <= k < |rest| ==> rest[k] > 0
    ensures Traced(idx, [lines[0].value.value] + tail, lines)
  {
    idx := [0] + rest;
    var es := [lines[0].value.value] + tail;
    forall k | 0 <= k < |idx|
      ensures 0 <= idx[k] < |lines| && lines[idx[k]] == Ok(Some(es[k]))
    {
      if k > 0 {
        assert idx[k] == rest[k - 1] && es[k] == tail[k - 1];
      }
    }
    forall k, l | 0 <= k < l < |idx|
      ensures idx[k] < idx[l]
    {
      if k > 0 {
        assert idx[k] == rest[k - 1] && idx[l] == rest[l - 1];
      }
    }
  }

  /** Every line that is an entry is gathered. */
  lemma {:induction false} CollectComplete(lines: seq<Result<Option<Entry>>>, i: nat)
    requires Collect(lines).Ok? && i < |lines| && lines[i].Ok? && lines[i].value.Some?
    ensures lines[i].value.value in Collect(lines).value
  {
    var head := lines[0].value;
    var h := if head.Some? then [head.value] else [];
    assert Collect(lines).value == h + Collect(lines[1..]).value;
    if i > 0 {
      assert lines[1..][i - 1] == lines[i];
      CollectComplete(lines[1..], i - 1);
    }
  }

  /** `idx` says which contact each line of the report `es` is for: line `k`
      is the one due for contact `idx[k]`, and the contacts are taken in
      strictly increasing order, so each contact gives at most one line. */
  ghost predicate ReportTraced(idx: seq<int>, es: seq<Entry>, rs: seq<(string, Option<Birthday>)>, today: Date)
    requires ValidDate(today)
  {
    && |idx| == |es|
    && (forall k :: 0 <= k < |idx| ==>
          && 0 <= idx[k] < |rs|
          && Due(es[k], rs[idx[k]].0, rs[idx[k]].1, today)
          && Reports(es[k], rs[idx[k]].0, today))
    && (forall k, l :: 0 <= k < l < |idx| ==> idx[k] < idx[l])
  }

  /** Every line of a report is the line due for one contact: that contact
      has a birthday whose next occurrence is 0 to 7 days away, and the line
      gives it moved off the weekend (a weekday 0 to 9 days away). The lines
      follow the contacts' order, and no contact gives two lines. */
  lemma UpcomingSound(rs: seq<(string, Option<Birthday>)>, today: Date)
    requires ValidDate(today) && Upcoming(rs, today).Ok?
    ensures exists idx :: ReportTraced(idx, Upcoming(rs, today).value, rs, today)
  {
    var lines := Lines(rs, today);
    CollectSound(lines);
    var idx :| Traced(idx, Collect(lines).value, lines);
    var es := Upcoming(rs, today).value;
    forall k | 0 <= k < |idx|
      ensures Due(es[k], rs[idx[k]].0, rs[idx[k]].1, today) && Reports(es[k], rs[idx[k]].0, today)
    {
      var j := idx[k];
      LineAt(rs, today, j);
      assert EntryFor(rs[j].0, rs[j].1, today) == Ok(Some(es[k]));
      EntryForCases(rs[j].0, rs[j].1.value, today);
    }
    assert ReportTraced(idx, es, rs, today);
  }

  /** Every contact whose next birthday is at most a week away is in the
      report, with its (possibly moved) date. */
  lemma UpcomingComplete(rs: seq<(string, Option<Birthday>)>, today: Date, i: nat, b: Birthday, date: Date, next: Date)
    requires ValidDate(today) && Upcoming(rs, today).Ok?
    requires i < |rs| && rs[i].1 == Some(b)
    requires ParseDate(b.value) == Some(date) && NextOccurrence(date, today) == Ok(next)
    requires DaysUntil(next, today) <= 7
    ensures Entry(rs[i].0, FormatDate(WeekendShift(next))) in Upcoming(rs, today).value
  {
    EntryForCases(rs[i].0, b, today);
    var lines := Lines(rs, today);
    LineAt(rs, today, i);
    assert lines[i] == Ok(Some(Entry(rs[i].0, FormatDate(WeekendShift(next)))));
    CollectComplete(lines, i);
  }

  /** Among contacts with distinct names, one without a birthday never appears
      in the report. */
  lemma NoBirthdayNotReported(rs: seq<(string, Option<Birthday>)>, today: Date, i: nat)
    requires ValidDate(today) && Upcoming(rs, today).Ok?
    requires i < |rs| && rs[i].1.None?
    requires forall p, q :: 0 <= p < q < |rs| ==> rs[p].0 != rs[q].0
    ensures forall e :: e in Upcoming(rs, today).value ==> e.name != rs[i].0
  {
    UpcomingSound(rs, today);
    var es := Upcoming(rs, today).value;
    var idx :| ReportTraced(idx, es, rs, today);
    forall e | e in es
      ensures e.name != rs[i].0
    {
      var k :| 0 <= k < |es| && es[k] == e;
      var j := idx[k];
      assert Due(e, rs[j].0, rs[j].1, today);
      assert e.name == rs[j].0 && j != i;
    }
  }

  /** The report for a single contact whose birthday is at most a week away. */
  lemma UpcomingSingle(name: string, text: string, today: Date, date: Date, next: Date, shown: string)
    requires ValidDate(today)
    requires ParseDate(text) == Some(date) && NextOccurrence(date, today) == Ok(next)
    requires DaysUntil(next, today) <= 7 && FormatDate(WeekendShift(next)) == shown
    ensures Upcoming([(name, Some(Birthday(text)))], today) == Ok([Entry(name, shown)])
  {
    var rs := [(name, Some(Birthday(text)))];
    var head := EntryFor(name, Some(Birthday(text)), today);
    EntryForCases(name, Birthday(text), today);
    assert head == Ok(Some(Entry(name, shown)));
    assert Lines(rs, today) == [head];
    CollectOne(head);
  }

  /** The report for a single contact whose birthday cannot be moved to the
      year of its next occurrence is that error. */
  lemma UpcomingSingleFails(name: string, text: string, today: Date, date: Date)
    requires ValidDate(today)
    requires ParseDate(text) == Some(date) && NextOccurrence(date, today).Err?
    ensures Upcoming([(name, Some(Birthday(text)))], today) == Err(NextOccurrence(date, today).error)
  {
    var rs := [(name, Some(Birthday(text)))];
    var head := EntryFor(name, Some(Birthday(text)), today);
    EntryForCases(name, Birthday(text), today);
    assert head == Err(NextOccurrence(date, today).error);
    assert Lines(rs, today) == [head];
    CollectOne(head);
  }

  /** A single line gathers into its entry, into nothing, or into its error. */
  lemma CollectOne(line: Result<Option<Entry>>)
    ensures Collect([line]) == match line
                               case Err(e) => Err(e)
                               case Ok(None) => Ok([])
                               case Ok(Some(e)) => Ok([e])
  {
    assert [line][1..] == [];
    match line
    case Err(e) =>
    case Ok(None) =>
      assert Collect([line][1..]) == Ok([]);
      var none: seq<Entry> := [];
      assert none + none == none;
    case Ok(Some(e)) => assert [e] + [] == [e];
  }

  // Worked examples. 10 June 2024 is a Monday.

  lemma ParsesAs(text: string, day: string, dayValue: int, month: string, monthValue: int, year: string, yearValue: int)
    requires IsDayText(day) && DayValue(day) == dayValue
    requires IsMonthText(month) && |month| == 2 && Number(month) == monthValue
    requires IsYearText(year) && Number(year) == yearValue
    requires ValidDate(Date(yearValue, monthValue, dayValue))
    requires text == day + "." + month + "." + year
    ensures ParseDate(text) == Some(Date(yearValue, monthValue, dayValue))
  {
    PartsAt(text, day, month, year);
    var date := Date(yearValue, monthValue, dayValue);
    assert SpellsAt(text, |day|, |day| + 3, date);
    SplitIsFirstDots(text, |day|, |day| + 3, date);
  }

  lemma ParsesJune2024(text: string, day: string, dayValue: int)
    requires IsDayText(day) && DayValue(day) == dayValue && |day| == 2
    requires ValidDate(Date(2024, 6, dayValue))
    requires text == day + ".06.2024"
    ensures ParseDate(text) == Some(Date(2024, 6, dayValue))
  {
    NumberOfTwo("06");
    Digits4Number(2024);
    assert "2024" == Digits4(2024);
    assert day + ".06.2024" == day + "." + "06" + "." + "2024";
    ParsesAs(text, day, dayValue, "06", 6, "2024", 2024);
  }

  lemma JuneOccurrence(day: int, today: Date)
    requires today == Date(2024, 6, 10) && 10 <= day <= 30
    ensures NextOccurrence(Date(2024, 6, day), today) == Ok(Date(2024, 6, day))
    ensures DaysUntil(Date(2024, 6, day), today) == day - 10
  {
    assert Ordinal(Date(2024, 6, day)) == 739037 + day;
  }

  lemma WednesdayShown(shown: string)
    requires shown == "12.06.2024"
    ensures FormatDate(WeekendShift(Date(2024, 6, 12))) == shown
  {
    assert Ordinal(Date(2024, 6, 12)) == 739049;
    assert Weekday(Date(2024, 6, 12)) == 2;
    FormatsJune2024(12, shown);
  }

  lemma SaturdayShown(shown: string)
    requires shown == "17.06.2024"
    ensures FormatDate(WeekendShift(Date(2024, 6, 15))) == shown
  {
    var date := Date(2024, 6, 15);
    assert Ordinal(date) == 739052;
    assert Weekday(date) == 5;
    assert AddDays(date, 2) == AddDays(Date(2024, 6, 16), 1) == Date(2024, 6, 17);
    FormatsJune2024(17, shown);
  }

  lemma FormatsJune2024(day: int, text: string)
    requires 10 <= day <= 30 && text == Digits2(day) + ".06.2024"
    ensures FormatDate(Date(2024, 6, day)) == text
  {
  }

  /** A Wednesday birthday two days ahead is reported on its own date. */
  lemma ExampleWeekdayBirthday(name: string, text: string, today: Date)
    requires text == "12.06.2024" && today == Date(2024, 6, 10)
    ensures Upcoming([(name, Some(Birthday(text)))], today) == Ok([Entry(name, text)])
  {
    var date := Date(2024, 6, 12);
    ParsesJune2024(text, "12", 12);
    JuneOccurrence(12, today);
    WednesdayShown(text);
    UpcomingSingle(name, text, today, date, date, text);
  }

  /** A Saturday birthday five days ahead is reported on the Monday after. */
  lemma ExampleSaturdayBirthday(name: string, text: string, today: Date, shown: string)
    requires text == "15.06.2024" && today == Date(2024, 6, 10) && shown == "17.06.2024"
    ensures Upcoming([(name, Some(Birthday(text)))], today) == Ok([Entry(name, shown)])
  {
    var date := Date(2024, 6, 15);
    ParsesJune2024(text, "15", 15);
    JuneOccurrence(15, today);
    SaturdayShown(shown);
    UpcomingSingle(name, text, today, date, date, shown);
  }

  /** On 31 December a birthday on 2 January rolls over into the next year. */
  lemma ExampleRollover(name: string, text: string, today: Date, shown: string)
    requires text == "02.01.2000" && today == Date(2024, 12, 31) && shown == "02.01.2025"
    ensures Upcoming([(name, Some(Birthday(text)))], today) == Ok([Entry(name, shown)])
  {
    var date, next := Date(2000, 1, 2), Date(2025, 1, 2);
    RolloverParses(text);
    RolloverOccurrence(date, today, next);
    RolloverShown(today, next, shown);
    UpcomingSingle(name, text, today, date, next, shown);
  }

  lemma RolloverParses(text: string)
    requires text == "02.01.2000"
    ensures ParseDate(text) == Some(Date(2000, 1, 2))
  {
    NumberOfTwo("01");
    Digits4Number(2000);
    assert "2000" == Digits4(2000);
    ParsesAs(text, "02", 2, "01", 1, "2000", 2000);
  }

  lemma RolloverOccurrence(date: Date, today: Date, next: Date)
    requires date == Date(2000, 1, 2) && today == Date(2024, 12, 31) && next == Date(2025, 1, 2)
    ensures NextOccurrence(date, today) == Ok(next)
  {
  }

  lemma RolloverShown(today: Date, next: Date, shown: string)
    requires today == Date(2024, 12, 31) && next == Date(2025, 1, 2) && shown == "02.01.2025"
    ensures DaysUntil(next, today) == 2
    ensures FormatDate(WeekendShift(next)) == shown
  {
    assert Ordinal(today) == 739251 && Ordinal(next) == 739253;
    assert Weekday(next) == 3;
  }

  /** A 29 February birthday, looked for in a common year, ends the report with an error. */
  lemma ExampleLeapDayInCommonYear(name: string, text: string, today: Date)
    requires text == "29.02.2000" && today == Date(2025, 6, 10)
    ensures Upcoming([(name, Some(Birthday(text)))], today) == Err(DayOutOfRange)
  {
    LeapDayParses(text);
    LeapDayOccurrence(Date(2000, 2, 29), today);
    UpcomingSingleFails(name, text, today, Date(2000, 2, 29));
  }

  lemma LeapDayParses(text: string)
    requires text == "29.02.2000"
    ensures ParseDate(text) == Some(Date(2000, 2, 29))
  {
    NumberOfTwo("02");
    Digits4Number(2000);
    assert "2000" == Digits4(2000);
    ParsesAs(text, "29", 29, "02", 2, "2000", 2000);
  }

  lemma LeapDayOccurrence(date: Date, today: Date)
    requires date == Date(2000, 2, 29) && today == Date(2025, 6, 10)
    ensures NextOccurrence(date, today) == Err(DayOutOfRange)
  {
  }
}

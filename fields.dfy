/** The validated fields of a contact: a phone number of ten digits, and a
    birthday written as day.month.year that must name a real date. A
    birthday keeps the text it was given; its date is read back from that
    text whenever it is needed. */
module Fields {
  import opened Common
  import opened Seqs
  import opened Calendar

  datatype Phone = Phone(value: string)
  datatype Birthday = Birthday(value: string)

  predicate IsDigit(c: char) {
    '0' <= c <= '9'
  }

  function DigitValue(c: char): (v: nat)
    requires IsDigit(c)
    ensures v <= 9
  {
    c as int - '0' as int
  }

  /** `str.isdigit()` on ASCII text: non-empty and made of digits only. */
  function IsDigits(s: string): (b: bool)
    ensures b <==> s != [] && forall i :: 0 <= i < |s| ==> IsDigit(s[i])
  {
    if |s| == 0 then false
    else if |s| == 1 then IsDigit(s[0])
    else IsDigit(s[0]) && IsDigits(s[1..])
  }

  /** The phone rule: exactly ten characters, all of them digits. */
  predicate IsValidPhone(s: string) {
    IsDigits(s) && |s| == 10
  }

  /** `Phone(value)`: keeps the text when it is ten digits, fails otherwise. */
  function NewPhone(s: string): (r: Result<Phone>)
    ensures r.Ok? <==> |s| == 10 && forall i :: 0 <= i < |s| ==> IsDigit(s[i])
    ensures r.Ok? ==> r.value.value == s
    ensures r.Err? ==> r.error == InvalidPhone
  {
    if !IsDigits(s) || |s| != 10 then Err(InvalidPhone) else Ok(Phone(s))
  }

  /** The value of a run of digits, most significant first. */
  function Number(s: string): (n: nat)
    requires forall i :: 0 <= i < |s| ==> IsDigit(s[i])
  {
    if s == [] then 0
    else Number(s[..|s| - 1]) * 10 + DigitValue(s[|s| - 1])
  }

  // The directives of the format "%d.%m.%Y" accept these texts:
  //   %d  3[01] | [12]<digit> | 0[1-9] | [1-9] | <space>[1-9]
  //   %m  1[0-2] | 0[1-9] | [1-9]
  //   %Y  <digit><digit><digit><digit>

  predicate IsDayText(t: string) {
    || (|t| == 2 && t[0] == '3' && (t[1] == '0' || t[1] == '1'))
    || (|t| == 2 && (t[0] == '1' || t[0] == '2') && IsDigit(t[1]))
    || (|t| == 2 && t[0] == '0' && '1' <= t[1] <= '9')
    || (|t| == 1 && '1' <= t[0] <= '9')
    || (|t| == 2 && t[0] == ' ' && '1' <= t[1] <= '9')
  }

  /** The day a `%d` text stands for; a leading space counts as nothing. */
  function DayValue(t: string): (v: nat)
    requires IsDayText(t)
    ensures 1 <= v <= 31
  {
    if |t| == 1 then DigitValue(t[0])
    else if t[0] == ' ' then DigitValue(t[1])
    else DigitValue(t[0]) * 10 + DigitValue(t[1])
  }

  predicate IsMonthText(t: string) {
    || (|t| == 2 && t[0] == '1' && '0' <= t[1] <= '2')
    || (|t| == 2 && t[0] == '0' && '1' <= t[1] <= '9')
    || (|t| == 1 && '1' <= t[0] <= '9')
  }

  predicate IsYearText(t: string) {
    |t| == 4 && forall i :: 0 <= i < 4 ==> IsDigit(t[i])
  }

  /** The whole of `s` is a day text, a dot, a month text, a dot and a year
      text, split at positions `i` and `j`, and they spell `d`. */
  ghost predicate SpellsAt(s: string, i: int, j: int, d: Date) {
    && 0 <= i < j < |s|
    && s[i] == '.' && s[j] == '.'
    && IsDayText(s[..i]) && IsMonthText(s[i + 1..j]) && IsYearText(s[j + 1..])
    && d == Date(Number(s[j + 1..]), Number(s[i + 1..j]), DayValue(s[..i]))
  }

  /** `datetime.strptime(s, "%d.%m.%Y")`: the date `s` names, or None when `s`
      does not match the format or names no real date. None of the three
      texts can hold a dot, so the separators are the first two dots. */
  function ParseDate(s: string): (r: Option<Date>)
    ensures r.Some? ==> ValidDate(r.value)
  {
    var first := IndexOf(s, '.');
    if first.None? then None
    else
      var rest := s[first.value + 1..];
      var second := IndexOf(rest, '.');
      if second.None? then None
      else ParseFields(s[..first.value], rest[..second.value], rest[second.value + 1..])
  }

  /** The date named by the three texts found between the dots, if any. */
  function ParseFields(dayText: string, monthText: string, yearText: string): (r: Option<Date>)
    ensures r.Some? ==> ValidDate(r.value)
  {
    if IsDayText(dayText) && IsMonthText(monthText) && IsYearText(yearText) then
      var d := Date(Number(yearText), Number(monthText), DayValue(dayText));
      if ValidDate(d) then Some(d) else None
    else None
  }

  /** The parser accepts exactly the texts that spell a real date in the
      format, whichever dots one splits them at. */
  lemma ParseDateMatches(s: string, d: Date)
    ensures ParseDate(s) == Some(d) <==> ValidDate(d) && exists i, j :: SpellsAt(s, i, j, d)
  {
    if ParseDate(s) == Some(d) {
      var i := IndexOf(s, '.').value;
      var k := IndexOf(s[i + 1..], '.').value;
      ParseDateAt(s, i, k);
      FieldsSpelled(s, i, k, d);
    }
    if ValidDate(d) && exists i, j :: SpellsAt(s, i, j, d) {
      var i, j :| SpellsAt(s, i, j, d);
      SplitIsFirstDots(s, i, j, d);
    }
  }

  lemma SplitIsFirstDots(s: string, i: int, j: int, d: Date)
    requires SpellsAt(s, i, j, d) && ValidDate(d)
    ensures ParseDate(s) == Some(d)
  {
    NoDotInFields(s, i, j);
    FirstDotsAt(s, i, j);
    ParseDateAt(s, i, j - i - 1);
    FieldsSpell(s, i, j - i - 1, d);
  }

  /** Day and month texts hold no dot. */
  lemma NoDotInFields(s: string, i: int, j: int)
    requires 0 <= i < j <= |s| && IsDayText(s[..i]) && IsMonthText(s[i + 1..j])
    ensures forall k :: 0 <= k < i ==> s[k] != '.'
    ensures forall k :: i < k < j ==> s[k] != '.'
  {
    assert forall k :: 0 <= k < i ==> s[k] == s[..i][k];
    assert forall k :: i < k < j ==> s[k] == s[i + 1..j][k - i - 1];
  }

  /** Dots at `i` and `j` with none before or between them are the first two. */
  lemma FirstDotsAt(s: string, i: int, j: int)
    requires 0 <= i < j < |s| && s[i] == '.' && s[j] == '.'
    requires forall k :: 0 <= k < i ==> s[k] != '.'
    requires forall k :: i < k < j ==> s[k] != '.'
    ensures IndexOf(s, '.') == Some(i) && IndexOf(s[i + 1..], '.') == Some(j - i - 1)
  {
    IndexOfFirst(s, '.', i);
    var rest := s[i + 1..];
    assert forall k :: 0 <= k < j - i - 1 ==> rest[k] == s[i + 1 + k];
    IndexOfFirst(rest, '.', j - i - 1);
  }

  /** With its first dot at `i` and the next one `k` places after it, the
      text parses as the fields between them. */
  lemma ParseDateAt(s: string, i: nat, k: nat)
    requires i < |s| && IndexOf(s, '.') == Some(i) && IndexOf(s[i + 1..], '.') == Some(k)
    ensures ParseDate(s) == ParseFields(s[..i], s[i + 1..][..k], s[i + 1..][k + 1..])
  {
  }

  lemma FieldsSpelled(s: string, i: int, k: int, d: Date)
    requires 0 <= i && 0 <= k && i + 1 + k < |s| && s[i] == '.' && s[i + 1 + k] == '.'
    requires ParseFields(s[..i], s[i + 1..][..k], s[i + 1..][k + 1..]) == Some(d)
    ensures SpellsAt(s, i, i + 1 + k, d)
  {
    assert s[i + 1..][..k] == s[i + 1..i + 1 + k];
    assert s[i + 1..][k + 1..] == s[i + 1 + k + 1..];
  }

  lemma FieldsSpell(s: string, i: int, k: int, d: Date)
    requires SpellsAt(s, i, i + 1 + k, d) && ValidDate(d)
    ensures ParseFields(s[..i], s[i + 1..][..k], s[i + 1..][k + 1..]) == Some(d)
  {
    assert s[i + 1..][..k] == s[i + 1..i + 1 + k];
    assert s[i + 1..][k + 1..] == s[i + 1 + k + 1..];
  }

  /** Where the three fields of `day.month.year` sit. */
  lemma PartsAt(text: string, day: string, month: string, year: string)
    requires text == day + "." + month + "." + year
    ensures text[..|day|] == day && text[|day|] == '.'
    ensures text[|day| + 1..|day| + 1 + |month|] == month && text[|day| + 1 + |month|] == '.'
    ensures text[|day| + 2 + |month|..] == year
  {
  }

  /** Two digits, zero-padded. */
  function Digits2(n: int): string
    requires 0 <= n < 100
  {
    [('0' as int + n / 10) as char, ('0' as int + n % 10) as char]
  }

  /** Four digits, zero-padded. */
  function Digits4(n: int): string
    requires 0 <= n < 10000
  {
    Digits2(n / 100) + Digits2(n % 100)
  }

  /** `date.strftime("%d.%m.%Y")`: ten characters, two-digit day and month
      and four-digit year separated by dots. */
  function FormatDate(d: Date): (r: string)
    requires ValidDate(d)
    ensures |r| == 10 && r[2] == '.' && r[5] == '.'
    ensures forall i :: 0 <= i < 10 && i != 2 && i != 5 ==> IsDigit(r[i])
  {
    Digits2(d.day) + "." + Digits2(d.month) + "." + Digits4(d.year)
  }

  lemma NumberOfTwo(t: string)
    requires |t| == 2 && IsDigit(t[0]) && IsDigit(t[1])
    ensures Number(t) == DigitValue(t[0]) * 10 + DigitValue(t[1])
  {
    var head := t[..1];
    assert head[..0] == [];
    assert Number(head) == DigitValue(t[0]);
  }

  lemma Digits4Number(n: int)
    requires 0 <= n < 10000
    ensures IsYearText(Digits4(n)) && Number(Digits4(n)) == n
  {
    var t := Digits4(n);
    assert t[..3][..2] == t[..2];
    NumberOfTwo(t[..2]);
  }

  /** Every date printed by the bot reads back as the same date. */
  lemma FormatDateParses(d: Date)
    requires ValidDate(d)
    ensures ParseDate(FormatDate(d)) == Some(d)
  {
    var s := FormatDate(d);
    assert s[..2] == Digits2(d.day);
    assert s[3..5] == Digits2(d.month);
    assert s[6..] == Digits4(d.year);
    Digits4Number(d.year);
    NumberOfTwo(s[3..5]);
    assert SpellsAt(s, 2, 5, d);
    SplitIsFirstDots(s, 2, 5, d);
  }

  /** `Birthday(value)`: keeps the text unchanged when it parses as a date,
      fails otherwise. */
  function NewBirthday(s: string): (r: Result<Birthday>)
    ensures r.Ok? <==> exists d :: ValidDate(d) && exists i, j :: SpellsAt(s, i, j, d)
    ensures r.Ok? ==> r.value.value == s
    ensures r.Err? ==> r.error == InvalidDate
  {
    ParseDateExact(s);
    if ParseDate(s).Some? then Ok(Birthday(s)) else Err(InvalidDate)
  }

  lemma ParseDateExact(s: string)
    ensures ParseDate(s).Some? <==> exists d :: ValidDate(d) && exists i, j :: SpellsAt(s, i, j, d)
  {
    if ParseDate(s).Some? {
      ParseDateMatches(s, ParseDate(s).value);
    }
    if exists d :: ValidDate(d) && exists i, j :: SpellsAt(s, i, j, d) {
      var d :| ValidDate(d) && exists i, j :: SpellsAt(s, i, j, d);
      ParseDateMatches(s, d);
    }
  }
}

/** The validated value types `Phone` and `Birthday`. `Name` wraps its text
    without any check, so the model keeps a name as a plain string. */
module Fields {
  import opened Outcomes
  import opened Calendar

  predicate IsAsciiDigit(c: char) {
    '0' <= c <= '9'
  }

  /** `str.isdigit()` on ASCII text: non-empty and digits only. */
  function IsDigits(s: string): (b: bool)
    ensures b <==> |s| > 0 && forall i :: 0 <= i < |s| ==> IsAsciiDigit(s[i])
  {
    if |s| == 0 then false
    else IsAsciiDigit(s[0]) && (|s| == 1 || IsDigits(s[1..]))
  }

  /** What a `Phone` holds: exactly ten digits. */
  predicate IsPhone(s: string) {
    |s| == 10 && forall i :: 0 <= i < |s| ==> IsAsciiDigit(s[i])
  }

  /** `Phone(value)`: the value itself, or the error it raises. */
  function NewPhone(value: string): (r: Result<string>)
    ensures r.Ok? <==> IsPhone(value)
    ensures r.Ok? ==> r.value == value
    ensures r.Err? ==> r.error == InvalidPhone(value)
  {
    if |value| != 10 || !IsDigits(value) then Err(InvalidPhone(value)) else Ok(value)
  }

  function DigitChar(n: int): char
    requires 0 <= n <= 9
  {
    ('0' as int + n) as char
  }

  function DigitValue(c: char): (n: int)
    requires IsAsciiDigit(c)
    ensures 0 <= n <= 9 && DigitChar(n) == c
  {
    c as int - '0' as int
  }

  /** `n` with two digits, zero-padded (`%d` and `%m` in `strftime`). */
  function TwoDigits(n: int): string
    requires 0 <= n <= 99
  {
    [DigitChar(n / 10), DigitChar(n % 10)]
  }

  /** `n` with four digits, zero-padded. */
  function FourDigits(n: int): string
    requires 0 <= n <= 9999
  {
    TwoDigits(n / 100) + TwoDigits(n % 100)
  }

  /** A date as `DD.MM.YYYY`. */
  function FormatDate(d: CalendarDate): (s: string)
    ensures |s| == 10 && s[2] == '.' && s[5] == '.'
  {
    TwoDigits(d.day) + "." + TwoDigits(d.month) + "." + FourDigits(d.year)
  }

  // ---- What `strptime(text, "%d.%m.%Y")` accepts, stated declaratively ----

  /** The texts `%d` reads as day `n`: two digits, or for 1 to 9 a single
      digit or a space followed by a digit. */
  predicate SpellsDay(f: string, n: int) {
    1 <= n <= 31 && (f == TwoDigits(n) || (n <= 9 && (f == [DigitChar(n)] || f == [' ', DigitChar(n)])))
  }

  /** The texts `%m` reads as month `n`: two digits, or for 1 to 9 one digit. */
  predicate SpellsMonth(f: string, n: int) {
    1 <= n <= 12 && (f == TwoDigits(n) || (n <= 9 && f == [DigitChar(n)]))
  }

  /** The texts `%Y` reads as year `n`: exactly four digits. */
  predicate SpellsYear(f: string, n: int) {
    0 <= n <= 9999 && f == FourDigits(n)
  }

  /** `text` is day, month and year fields separated by dots, naming `d`. */
  ghost predicate Spells(text: string, d: Date) {
    exists df: string, mf: string, yf: string ::
      text == df + "." + mf + "." + yf && SpellsDay(df, d.day) && SpellsMonth(mf, d.month) && SpellsYear(yf, d.year)
  }

  // ---- The parser, field by field as the pattern `%d\.%m\.%Y` matches ----

  /** The position of the first `c` in `s`, or |s| when there is none. */
  function IndexOf(s: string, c: char): (i: nat)
    ensures i <= |s| && c !in s[..i]
    ensures i < |s| ==> s[i] == c
  {
    if s == [] then 0
    else if s[0] == c then 0
    else 1 + IndexOf(s[1..], c)
  }

  /** The `%d` group, `3[01]|[12]\d|0[1-9]|[1-9]| [1-9]`, matched against a whole field. */
  function MatchDay(f: string): Option<int> {
    if |f| == 1 then
      if '1' <= f[0] <= '9' then Some(DigitValue(f[0])) else None
    else if |f| == 2 then
      if f[0] == '3' && (f[1] == '0' || f[1] == '1') then Some(30 + DigitValue(f[1]))
      else if (f[0] == '1' || f[0] == '2') && IsAsciiDigit(f[1]) then Some(10 * DigitValue(f[0]) + DigitValue(f[1]))
      else if f[0] == '0' && '1' <= f[1] <= '9' then Some(DigitValue(f[1]))
      else if f[0] == ' ' && '1' <= f[1] <= '9' then Some(DigitValue(f[1]))
      else None
    else None
  }

  /** The `%m` group, `1[0-2]|0[1-9]|[1-9]`, matched against a whole field. */
  function MatchMonth(f: string): Option<int> {
    if |f| == 1 then
      if '1' <= f[0] <= '9' then Some(DigitValue(f[0])) else None
    else if |f| == 2 then
      if f[0] == '1' && '0' <= f[1] <= '2' then Some(10 + DigitValue(f[1]))
      else if f[0] == '0' && '1' <= f[1] <= '9' then Some(DigitValue(f[1]))
      else None
    else None
  }

  /** The `%Y` group, four digits, matched against a whole field. */
  function MatchYear(f: string): Option<int> {
    if |f| == 4 && IsDigits(f) then
      Some(1000 * DigitValue(f[0]) + 100 * DigitValue(f[1]) + 10 * DigitValue(f[2]) + DigitValue(f[3]))
    else None
  }

  /** `Birthday(text)`: the date `strptime(text, "%d.%m.%Y").date()` gives, or
      the one error the constructor raises for bad text and impossible dates. */
  function ParseBirthday(text: string): (r: Result<CalendarDate>)
    ensures r.Err? ==> r.error == InvalidDate(text)
  {
    var i := IndexOf(text, '.');
    if i == |text| then Err(InvalidDate(text))
    else
      var rest := text[i + 1..];
      var j := IndexOf(rest, '.');
      if j == |rest| then Err(InvalidDate(text))
      else
        match (MatchDay(text[..i]), MatchMonth(rest[..j]), MatchYear(rest[j + 1..]))
        case (Some(day), Some(month), Some(year)) =>
          var d := Date(year, month, day);
          if IsCalendarDate(d) then Ok(d) else Err(InvalidDate(text))
        case _ => Err(InvalidDate(text))
  }

  // ---- The matchers read exactly the declared spellings ----

  lemma MatchDaySpells(f: string, n: int)
    ensures MatchDay(f) == Some(n) <==> SpellsDay(f, n)
  {
    if SpellsDay(f, n) {
      if f == TwoDigits(n) {
        assert f[0] == DigitChar(n / 10) && f[1] == DigitChar(n % 10);
      }
    }
    if MatchDay(f) == Some(n) {
      if |f| == 2 && f[0] != ' ' && !(f[0] == '0') {
        assert f == TwoDigits(n);
      } else if |f| == 2 && f[0] == '0' {
        assert f == TwoDigits(n);
      }
    }
  }

  lemma MatchMonthSpells(f: string, n: int)
    ensures MatchMonth(f) == Some(n) <==> SpellsMonth(f, n)
  {
    if SpellsMonth(f, n) {
      if f == TwoDigits(n) {
        assert f[0] == DigitChar(n / 10) && f[1] == DigitChar(n % 10);
      }
    }
    if MatchMonth(f) == Some(n) && |f| == 2 {
      assert f == TwoDigits(n);
    }
  }

  /** Two digit characters read back as the number they spell. */
  lemma TwoDigitsValue(n: int)
    requires 0 <= n <= 99
    ensures IsAsciiDigit(TwoDigits(n)[0]) && IsAsciiDigit(TwoDigits(n)[1])
    ensures 10 * DigitValue(TwoDigits(n)[0]) + DigitValue(TwoDigits(n)[1]) == n
  {
  }

  /** Any two digit characters are how TwoDigits spells their value. */
  lemma ValueTwoDigits(f: string)
    requires |f| == 2 && IsAsciiDigit(f[0]) && IsAsciiDigit(f[1])
    ensures f == TwoDigits(10 * DigitValue(f[0]) + DigitValue(f[1]))
  {
    var a, b := DigitValue(f[0]), DigitValue(f[1]);
    assert (10 * a + b) / 10 == a && (10 * a + b) % 10 == b;
  }

  lemma MatchYearSpells(f: string, n: int)
    ensures MatchYear(f) == Some(n) <==> SpellsYear(f, n)
  {
    if SpellsYear(f, n) {
      var hi, lo := n / 100, n % 100;
      TwoDigitsValue(hi);
      TwoDigitsValue(lo);
      assert f[..2] == TwoDigits(hi) && f[2..] == TwoDigits(lo);
      assert f[0] == TwoDigits(hi)[0] && f[1] == TwoDigits(hi)[1];
      assert f[2] == TwoDigits(lo)[0] && f[3] == TwoDigits(lo)[1];
      assert IsDigits(f);
      assert n == 100 * hi + lo;
    }
    if MatchYear(f) == Some(n) {
      var hi := 10 * DigitValue(f[0]) + DigitValue(f[1]);
      var lo := 10 * DigitValue(f[2]) + DigitValue(f[3]);
      ValueTwoDigits(f[..2]);
      ValueTwoDigits(f[2..]);
      assert n == 100 * hi + lo;
      assert n / 100 == hi && n % 100 == lo;
      assert f == f[..2] + f[2..];
    }
  }

  /** A field with no dot in it ends where the first dot is. */
  lemma {:induction false} IndexOfAfterField(f: string, rest: string)
    requires '.' !in f
    ensures IndexOf(f + rest, '.') == |f| + IndexOf(rest, '.')
    decreases |f|
  {
    if f != [] {
      assert f[0] in f;
      assert (f + rest)[0] == f[0];
      assert (f + rest)[1..] == f[1..] + rest;
      IndexOfAfterField(f[1..], rest);
    } else {
      assert f + rest == rest;
    }
  }

  /** `Birthday(text)` succeeds with date `d` exactly when `d` is a calendar
      date and `text` spells it as day.month.year in the accepted forms. */
  lemma ParseBirthdayIff(text: string, d: Date)
    ensures (ParseBirthday(text).Ok? && ParseBirthday(text).value == d) <==> (IsCalendarDate(d) && Spells(text, d))
  {
    if ParseBirthday(text).Ok? && ParseBirthday(text).value == d {
      ParsedSpells(text);
    }
    if IsCalendarDate(d) && Spells(text, d) {
      SpelledParses(text, d);
    }
  }

  /** Whatever the parser accepts is spelled in the accepted forms. */
  lemma ParsedSpells(text: string)
    requires ParseBirthday(text).Ok?
    ensures Spells(text, ParseBirthday(text).value)
  {
    var d := ParseBirthday(text).value;
    var i := IndexOf(text, '.');
    var rest := text[i + 1..];
    var j := IndexOf(rest, '.');
    var df, mf, yf := text[..i], rest[..j], rest[j + 1..];
    MatchDaySpells(df, d.day);
    MatchMonthSpells(mf, d.month);
    MatchYearSpells(yf, d.year);
    assert rest == mf + "." + yf;
    assert text == df + "." + mf + "." + yf;
  }

  /** Every accepted spelling of a calendar date parses to that date. */
  lemma SpelledParses(text: string, d: Date)
    requires IsCalendarDate(d) && Spells(text, d)
    ensures ParseBirthday(text) == Ok(d)
  {
    var df: string, mf: string, yf: string :|
      text == df + "." + mf + "." + yf && SpellsDay(df, d.day) && SpellsMonth(mf, d.month) && SpellsYear(yf, d.year);
    FieldsParse(text, df, mf, yf, d);
  }

  lemma FieldsParse(text: string, df: string, mf: string, yf: string, d: Date)
    requires IsCalendarDate(d) && text == df + "." + mf + "." + yf
    requires SpellsDay(df, d.day) && SpellsMonth(mf, d.month) && SpellsYear(yf, d.year)
    ensures ParseBirthday(text) == Ok(d)
  {
    assert '.' !in df && '.' !in mf;
    ParseFields(text, df, mf, yf);
    MatchDaySpells(df, d.day);
    MatchMonthSpells(mf, d.month);
    MatchYearSpells(yf, d.year);
  }

  /** When the day and month fields hold no dot, the parser splits the text
      back into the same three fields. */
  lemma ParseFields(text: string, df: string, mf: string, yf: string)
    requires text == df + "." + mf + "." + yf && '.' !in df && '.' !in mf
    ensures IndexOf(text, '.') == |df|
    ensures text[..|df|] == df
    ensures IndexOf(text[|df| + 1..], '.') == |mf|
    ensures text[|df| + 1..][..|mf|] == mf && text[|df| + 1..][|mf| + 1..] == yf
  {
    assert text == df + ("." + mf + "." + yf);
    IndexOfAfterField(df, "." + mf + "." + yf);
    var rest := text[|df| + 1..];
    assert rest == mf + ("." + yf);
    IndexOfAfterField(mf, "." + yf);
  }

  /** Rendering a date as DD.MM.YYYY and reading it back gives the date. */
  lemma FormatParseRoundTrip(d: CalendarDate)
    ensures ParseBirthday(FormatDate(d)) == Ok(d)
  {
    var text := FormatDate(d);
    assert text == TwoDigits(d.day) + "." + TwoDigits(d.month) + "." + FourDigits(d.year);
    assert SpellsDay(TwoDigits(d.day), d.day);
    assert SpellsMonth(TwoDigits(d.month), d.month);
    assert SpellsYear(FourDigits(d.year), d.year);
    assert Spells(text, d);
    ParseBirthdayIff(text, d);
  }
}

/**
 * `format_operation`: render one operation as
 *
 *     DD.MM.YYYY <description>:
 *     <from> -> <to>
 *     <amount> <currency>
 *
 * masking long account and card identifiers. The amount, which the source
 * converts to a float and prints with two decimals (src/utils.py:42, 58), is
 * taken as the already rendered text `amountText`.
 */
module Formatter {
  import opened Records
  import opened PyStr

  /** The Cyrillic word for "account" that marks an account identifier. */
  const AccountWord: string := "Счет"

  /** What a masked account identifier starts with; its last four characters follow. */
  const AccountPrefix: string := "Счет **"

  /** The one failure of the masking step: slicing the tail of an absent `to` (a TypeError at src/utils.py:53). */
  datatype FormatError = ToMissing

  datatype Result<T> = Ok(value: T) | Err(error: FormatError)

  // ---------------------------------------------------------------------------
  // The date: parsed as an ISO timestamp and printed day first (src/utils.py:44)
  // ---------------------------------------------------------------------------

  predicate IsDigit(c: char) { '0' <= c <= '9' }

  predicate AllDigits(s: string) { forall i :: 0 <= i < |s| ==> IsDigit(s[i]) }

  /** The decimal value of a string of ASCII digits. */
  function DigitsValue(s: string): nat
    requires AllDigits(s)
  {
    if |s| == 0 then 0 else 10 * DigitsValue(s[..|s| - 1]) + (s[|s| - 1] as int - '0' as int)
  }

  predicate IsLeapYear(y: int) { y % 4 == 0 && (y % 100 != 0 || y % 400 == 0) }

  function DaysInMonth(y: int, m: int): int
  {
    if m == 2 then (if IsLeapYear(y) then 29 else 28)
    else if m in {4, 6, 9, 11} then 30
    else 31
  }

  /**
   * A zero-padded `YYYY-MM-DDTHH:MM:SS.ffffff` timestamp (one to six
   * fraction digits) naming a real calendar date and time of day, with a
   * four-digit year from 1000 on: the zero-padded strings that the source's
   * `strptime` accepts and its `strftime('%Y')` prints with four digits.
   */
  predicate IsoTimestamp(s: string)
  {
    && 21 <= |s| <= 26
    && AllDigits(s[0..4]) && s[4] == '-' && AllDigits(s[5..7]) && s[7] == '-' && AllDigits(s[8..10])
    && s[10] == 'T' && AllDigits(s[11..13]) && s[13] == ':' && AllDigits(s[14..16]) && s[16] == ':'
    && AllDigits(s[17..19]) && s[19] == '.' && AllDigits(s[20..])
    && 1000 <= DigitsValue(s[0..4])
    && 1 <= DigitsValue(s[5..7]) <= 12
    && 1 <= DigitsValue(s[8..10]) <= DaysInMonth(DigitsValue(s[0..4]), DigitsValue(s[5..7]))
    && DigitsValue(s[11..13]) <= 23 && DigitsValue(s[14..16]) <= 59 && DigitsValue(s[17..19]) <= 59
  }

  /** The `DD.MM.YYYY` rendering of the timestamp's date. */
  function ReorderDate(s: string): (r: string)
    requires IsoTimestamp(s)
    ensures |r| == 10 && r[2] == '.' && r[5] == '.'
    ensures r[..2] == s[8..10]   // day
    ensures r[3..5] == s[5..7]   // month
    ensures r[6..] == s[..4]     // year
  {
    s[8..10] + "." + s[5..7] + "." + s[..4]
  }

  /** The `YYYY-MM-DD` date written in `DD.MM.YYYY` form. */
  function IsoDateOf(r: string): string
    requires |r| == 10
  {
    r[6..] + "-" + r[3..5] + "-" + r[..2]
  }

  /** The reordering loses nothing: reading the rendering back gives the timestamp's date. */
  lemma ReorderDateRoundTrip(s: string)
    requires IsoTimestamp(s)
    ensures IsoDateOf(ReorderDate(s)) == s[..10]
  {
    var r := ReorderDate(s);
    assert s[..10] == s[..4] + [s[4]] + s[5..7] + [s[7]] + s[8..10];
  }

  lemma TwoDigitsValue(s: string)
    requires |s| == 2 && AllDigits(s)
    ensures DigitsValue(s) == 10 * (s[0] as int - '0' as int) + (s[1] as int - '0' as int)
  {
    var h := s[..1];
    assert h[..0] == [] && h[0] == s[0];
    assert DigitsValue(h) == s[0] as int - '0' as int;
  }

  lemma FourDigitsValue(s: string)
    requires |s| == 4 && AllDigits(s)
    ensures DigitsValue(s) == 100 * DigitsValue(s[..2]) + 10 * (s[2] as int - '0' as int) + (s[3] as int - '0' as int)
  {
    assert s[..3][..2] == s[..2];
  }

  const ExampleTimestamp: string := "2019-08-26T10:50:58.294041"

  lemma ExampleTimestampFields()
    ensures |ExampleTimestamp| == 26
    ensures ExampleTimestamp[0..4] == "2019" && ExampleTimestamp[..4] == "2019"
    ensures ExampleTimestamp[5..7] == "08" && ExampleTimestamp[8..10] == "26"
    ensures ExampleTimestamp[11..13] == "10" && ExampleTimestamp[14..16] == "50" && ExampleTimestamp[17..19] == "58"
    ensures ExampleTimestamp[20..] == "294041"
    ensures ExampleTimestamp[4] == '-' && ExampleTimestamp[7] == '-' && ExampleTimestamp[10] == 'T'
    ensures ExampleTimestamp[13] == ':' && ExampleTimestamp[16] == ':' && ExampleTimestamp[19] == '.'
  {
    var s := ExampleTimestamp;
    assert s[5..7] == "08";
    assert s[8..10] == "26";
    assert s[11..13] == "10";
    assert s[14..16] == "50";
    assert s[17..19] == "58";
  }

  lemma ExampleFieldValues()
    ensures AllDigits("2019") && DigitsValue("2019") == 2019
    ensures AllDigits("08") && DigitsValue("08") == 8
    ensures AllDigits("26") && DigitsValue("26") == 26
    ensures AllDigits("10") && DigitsValue("10") == 10
    ensures AllDigits("50") && DigitsValue("50") == 50
    ensures AllDigits("58") && DigitsValue("58") == 58
    ensures AllDigits("294041")
  {
    FourDigitsValue("2019");
    assert "2019"[..2] == "20";
    TwoDigitsValue("20");
    TwoDigitsValue("08");
    TwoDigitsValue("26");
    TwoDigitsValue("10");
    TwoDigitsValue("50");
    TwoDigitsValue("58");
  }

  /** The timestamp of a typical record is accepted and renders as 26.08.2019. */
  lemma ReorderDateExample()
    ensures IsoTimestamp(ExampleTimestamp)
    ensures ReorderDate(ExampleTimestamp) == "26.08.2019"
  {
    ExampleTimestampFields();
    ExampleFieldValues();
    assert DaysInMonth(2019, 8) == 31;
    assert ReorderDate(ExampleTimestamp) == "26" + "." + "08" + "." + "2019";
  }

  // ---------------------------------------------------------------------------
  // Masking `to` and `from`
  // ---------------------------------------------------------------------------

  /** The field is present and longer than eight characters (src/utils.py:49, 51). */
  predicate IsLong(o: Option<string>) { o.Some? && |o.value| > 8 }

  /** A long `to` becomes the account prefix and its last four characters; any other `to` is kept (src/utils.py:49-50). */
  function MaskTo(to: Option<string>): (r: Option<string>)
    ensures IsLong(to) ==> r.Some? && |r.value| == 11 && r.value[..7] == AccountPrefix
                           && r.value[7..] == to.value[|to.value| - 4..]
    ensures !IsLong(to) ==> r == to
  {
    if IsLong(to) then Some(AccountPrefix + LastFour(to.value)) else to
  }

  /** A long `from` whose first space-separated token is the account word (src/utils.py:52). */
  predicate IsAccountFrom(frm: Option<string>)
  {
    IsLong(frm) && Split(frm.value, ' ')[0] == AccountWord
  }

  /** The card name: all space-separated pieces but the last, joined again by spaces (src/utils.py:55). */
  function CardName(frm: string): (r: string)
    ensures ' ' !in frm ==> r == ""
  {
    assert ' ' !in frm ==> Split(frm, ' ') == [frm] by {
      if ' ' !in frm { SplitNoSeparator(frm, ' '); }
    }
    Join(Slice(Split(frm, ' '), 0, -1), ' ')
  }

  /** The card number: the last space-separated piece (src/utils.py:56). */
  function CardNumber(frm: string): (r: string)
    ensures ' ' !in r
    ensures ' ' !in frm ==> r == frm
  {
    assert ' ' !in frm ==> Split(frm, ' ') == [frm] by {
      if ' ' !in frm { SplitNoSeparator(frm, ' '); }
    }
    var parts := Split(frm, ' ');
    parts[|parts| - 1]
  }

  /** A card mask starts with the name and a space and ends with the stars and the shown tail. */
  lemma MaskShape(name: string, first: string, second: string, last: string)
    ensures var r := name + " " + first + " " + second + "** **** " + last;
      name + " " <= r && r[|r| - |"** **** " + last|..] == "** **** " + last
  {
    var r := name + " " + first + " " + second + "** **** " + last;
    assert r == (name + " ") + (first + " " + second) + ("** **** " + last);
  }

  /**
   * The card mask as written (src/utils.py:57): the name, a space, the
   * number's characters 0 to 3, a space, its characters 5 and 6, stars, and
   * its last four characters.
   */
  function MaskCard(frm: string): (r: string)
    ensures CardName(frm) + " " <= r
    ensures var tail := "** **** " + LastFour(CardNumber(frm));
      |tail| <= |r| && r[|r| - |tail|..] == tail
  {
    var name, number := CardName(frm), CardNumber(frm);
    MaskShape(name, Slice(number, 0, 4), Slice(number, 5, 7), LastFour(number));
    name + " " + Slice(number, 0, 4) + " " + Slice(number, 5, 7) + "** **** " + LastFour(number)
  }

  /**
   * The masking of `from`, given the already masked `to`: a long account
   * identifier shows the tail of `to`, a long card descriptor is split and
   * masked, anything else passes through.
   */
  function MaskFrom(frm: Option<string>, to: Option<string>): (r: Result<Option<string>>)
    ensures r.Err? <==> IsAccountFrom(frm) && to.None?
    ensures !IsLong(frm) ==> r == Ok(frm)
    ensures r.Ok? ==> r.value.Some? == frm.Some?
    ensures IsAccountFrom(frm) && to.Some? ==> r == Ok(Some(AccountPrefix + LastFour(to.value)))
    ensures IsLong(frm) && !IsAccountFrom(frm) ==> r == Ok(Some(MaskCard(frm.value)))
  {
    if IsLong(frm) then
      if Split(frm.value, ' ')[0] == AccountWord then
        if to.None? then Err(ToMissing) else Ok(Some(AccountPrefix + LastFour(to.value)))
      else Ok(Some(MaskCard(frm.value)))
    else Ok(frm)
  }

  /** A field as the entry prints it: a present value as itself, an absent one as `None` (src/utils.py:58). */
  function Render(o: Option<string>): (r: string)
    ensures o.Some? ==> r == o.value
    ensures o.None? ==> r == "None"
  {
    match o
    case None => "None"
    case Some(s) => s
  }

  /** The three lines of the report entry, before they are joined. */
  function Lines(date: string, description: string, frm: string, to: string, amountText: string, currency: string): seq<string>
  {
    [date + " " + description + ":", frm + " -> " + to, amountText + " " + currency]
  }

  /**
   * The entry as src/utils.py:58 prints it: date, a space, the description
   * and a colon; a newline; from, an arrow and to; a newline; amount, a space
   * and the currency.
   */
  function Entry(date: string, description: string, frm: string, to: string, amountText: string, currency: string): (r: string)
    ensures r == Join(Lines(date, description, frm, to, amountText, currency), '\n')
  {
    var l := Lines(date, description, frm, to, amountText, currency);
    JoinCons(l[0], l[1..], '\n');
    JoinCons(l[1], l[2..], '\n');
    assert l[1..] == [l[1]] + l[2..];
    assert [l[0]] + l[1..] == l;
    assert l[2..] == [l[2]];
    assert ":\n" == ":" + "\n";
    date + " " + description + ":\n" + frm + " -> " + to + "\n" + amountText + " " + currency
  }

  /** The three lines of the entry for `op`, once its `from` has been masked without error. */
  function EntryLines(op: Op, amountText: string): seq<string>
    requires IsoTimestamp(op.date)
    requires MaskFrom(op.frm, MaskTo(op.to)).Ok?
  {
    Lines(ReorderDate(op.date), op.description,
          Render(MaskFrom(op.frm, MaskTo(op.to)).value), Render(MaskTo(op.to)),
          amountText, op.currency)
  }

  /** `format_operation`, with `amountText` standing for the amount rendered with two decimals. */
  function FormatOperation(op: Op, amountText: string): (r: Result<string>)
    requires IsoTimestamp(op.date)
    ensures r.Err? <==> op.to.None? && IsAccountFrom(op.frm)
  {
    var to := MaskTo(op.to);
    match MaskFrom(op.frm, to)
    case Err(e) => Err(e)
    case Ok(frm) =>
      Ok(Entry(ReorderDate(op.date), op.description, Render(frm), Render(to), amountText, op.currency))
  }

  // ---------------------------------------------------------------------------
  // Properties of the masking
  // ---------------------------------------------------------------------------

  /** Masking `to` keeps its last four characters. */
  lemma MaskToKeepsTail(to: string)
    ensures MaskTo(Some(to)).Some? && LastFour(MaskTo(Some(to)).value) == LastFour(to)
  {
  }

  lemma MaskToExamples()
    ensures MaskTo(Some("40817810099910004312")) == Some("Счет **4312")
    ensures MaskTo(Some("12345")) == Some("12345")
    ensures MaskTo(None) == None
  {
    var to := "40817810099910004312";
    assert to == "4081781009991000" + "4312";
    assert to[16..] == "4312";
    assert AccountPrefix + "4312" == "Счет **4312";
  }

  /** The first space-separated token of a long `from` is "Счет" exactly when it starts with "Счет ". */
  lemma AccountFromStartsWithWord(frm: string)
    requires |frm| > 8
    ensures Split(frm, ' ')[0] == AccountWord <==> frm[..5] == AccountWord + " "
  {
    assert ' ' !in AccountWord by {
      assert AccountWord == ['С', 'ч', 'е', 'т'];
    }
    FirstPiece(frm, AccountWord, ' ');
  }

  /**
   * A long account `from` renders as "Счет **" followed by the last four
   * characters of the original `to` (masking `to` keeps them); with `to`
   * absent the source fails.
   */
  lemma AccountFromShowsToTail(frm: Option<string>, to: Option<string>)
    requires IsAccountFrom(frm)
    ensures to.None? ==> MaskFrom(frm, MaskTo(to)) == Err(ToMissing)
    ensures to.Some? ==> MaskFrom(frm, MaskTo(to)) == Ok(Some(AccountPrefix + LastFour(to.value)))
  {
    if to.Some? {
      MaskToKeepsTail(to.value);
    }
  }

  /**
   * The card split cuts `from` at its last space: the number holds no space,
   * and name, space and number give back `from`; without a space the name is
   * empty and the number is all of `from`.
   */
  lemma CardSplitAtLastSpace(frm: string)
    ensures ' ' !in CardNumber(frm)
    ensures ' ' in frm ==> CardName(frm) + " " + CardNumber(frm) == frm
    ensures ' ' !in frm ==> CardName(frm) == "" && CardNumber(frm) == frm
  {
    var parts := Split(frm, ' ');
    SplitMoreThanOne(frm, ' ');
    assert Slice(parts, 0, -1) == parts[..|parts| - 1];
    if ' ' in frm {
      JoinSnoc(parts, ' ');
      JoinSplit(frm, ' ');
    } else {
      SplitNoSeparator(frm, ' ');
    }
  }

  /**
   * The card mask with Python's clamped slices: for a number of at least
   * seven characters it shows characters 0-3, then 5-6, then the last four;
   * for five or six characters the second slice stops at the end; for at
   * most four the first slice is the whole number and the second is empty.
   */
  lemma MaskCardSlices(frm: string)
    ensures var n := CardNumber(frm);
      |n| >= 7 ==> MaskCard(frm) == CardName(frm) + " " + n[..4] + " " + n[5..7] + "** **** " + n[|n| - 4..]
    ensures var n := CardNumber(frm);
      |n| <= 4 ==> MaskCard(frm) == CardName(frm) + " " + n + " ** **** " + n
    ensures var n := CardNumber(frm);
      5 <= |n| <= 6 ==> MaskCard(frm) == CardName(frm) + " " + n[..4] + " " + n[5..] + "** **** " + n[|n| - 4..]
  {
    var n := CardNumber(frm);
    if 5 <= |n| <= 6 {
      assert Slice(n, 0, 4) == n[..4];
      assert Slice(n, 5, 7) == n[5..];
    } else if |n| >= 7 {
      assert Slice(n, 0, 4) == n[..4];
      assert Slice(n, 5, 7) == n[5..7];
    } else if |n| <= 4 {
      assert Slice(n, 0, 4) == n[0..|n|] == n;
      assert Slice(n, 5, 7) == [];
    }
  }

  /** A `from` that is absent or at most eight characters long passes through unmasked. */
  lemma ShortFromPassesThrough(frm: Option<string>, to: Option<string>)
    requires !IsLong(frm)
    ensures MaskFrom(frm, to) == Ok(frm)
  {
  }

  /**
   * The entry is the three lines joined by newlines: date and description,
   * the masked `from` and `to` (absent ones as `None`), amount and currency.
   */
  lemma FormatLayout(op: Op, amountText: string)
    requires IsoTimestamp(op.date)
    ensures FormatOperation(op, amountText).Ok? <==> MaskFrom(op.frm, MaskTo(op.to)).Ok?
    ensures MaskFrom(op.frm, MaskTo(op.to)).Ok? ==>
      FormatOperation(op, amountText) == Ok(Join(EntryLines(op, amountText), '\n'))
  {
    if MaskFrom(op.frm, MaskTo(op.to)).Ok? {
      var e := Entry(ReorderDate(op.date), op.description,
                     Render(MaskFrom(op.frm, MaskTo(op.to)).value), Render(MaskTo(op.to)),
                     amountText, op.currency);
    }
  }

  /** When no line holds a newline of its own, splitting the entry at newlines gives its three lines. */
  lemma FormatHasThreeLines(op: Op, amountText: string)
    requires IsoTimestamp(op.date)
    requires MaskFrom(op.frm, MaskTo(op.to)).Ok?
    requires forall i :: 0 <= i < 3 ==> '\n' !in EntryLines(op, amountText)[i]
    ensures FormatOperation(op, amountText).Ok?
    ensures Split(FormatOperation(op, amountText).value, '\n') == EntryLines(op, amountText)
  {
    FormatLayout(op, amountText);
    SplitJoin(EntryLines(op, amountText), '\n');
  }

  /** With both fields short or absent, the middle line shows them as they are. */
  lemma ShortFieldsUnmasked(op: Op, amountText: string)
    requires IsoTimestamp(op.date)
    requires !IsLong(op.frm) && !IsLong(op.to)
    ensures MaskFrom(op.frm, MaskTo(op.to)).Ok?
    ensures EntryLines(op, amountText)[1] == Render(op.frm) + " -> " + Render(op.to)
  {
  }

  // ---------------------------------------------------------------------------
  // Two discrepancies between the code and its evident intent
  // ---------------------------------------------------------------------------

  const ExampleAccountFrom: string := "Счет 12345678"
  const ExampleAccountTo: string := "Счет 87654321"

  lemma ExampleAccountFacts()
    ensures |ExampleAccountFrom| == 13 && ExampleAccountFrom[..5] == AccountWord + " "
    ensures LastFour(ExampleAccountFrom) == "5678" && LastFour(ExampleAccountTo) == "4321"
  {
    var f, t := ExampleAccountFrom, ExampleAccountTo;
    assert f[..5] == "Счет ";
    assert f[9..] == "5678";
    assert t[9..] == "4321";
  }

  /**
   * As written, an account `from` shows the tail of `to`, not its own, and
   * fails outright when `to` is absent.
   */
  lemma AccountFromUsesWrongTail()
    ensures IsAccountFrom(Some(ExampleAccountFrom))
    ensures MaskFrom(Some(ExampleAccountFrom), MaskTo(Some(ExampleAccountTo))) == Ok(Some(AccountPrefix + "4321"))
    ensures MaskFrom(Some(ExampleAccountFrom), MaskTo(Some(ExampleAccountTo)))
         != Ok(Some(AccountPrefix + LastFour(ExampleAccountFrom)))
    ensures MaskFrom(Some(ExampleAccountFrom), MaskTo(None)) == Err(ToMissing)
  {
    ExampleAccountFacts();
    AccountFromStartsWithWord(ExampleAccountFrom);
    AccountFromShowsToTail(Some(ExampleAccountFrom), Some(ExampleAccountTo));
    AccountFromShowsToTail(Some(ExampleAccountFrom), None);
    assert (AccountPrefix + "4321")[7] != (AccountPrefix + "5678")[7];
  }

  /** The card mask on a number with no space in it, as written: characters 0-3, 5-6 and the last four. */
  lemma MaskCardOfNameAndNumber(name: string, n: string)
    requires ' ' !in n && |n| >= 7
    ensures CardName(name + " " + n) == name && CardNumber(name + " " + n) == n
    ensures MaskCard(name + " " + n) == name + " " + n[..4] + " " + n[5..7] + "** **** " + n[|n| - 4..]
    ensures MaskCardIntended(name + " " + n) == name + " " + n[..4] + " " + n[4..6] + "** **** " + n[|n| - 4..]
  {
    var frm := name + " " + n;
    CardSplitAtLastSpace(frm);
    assert ' ' in frm by { assert frm[|name|] == ' '; }
    SuffixWithoutSpace(CardName(frm), CardNumber(frm), name, n);
  }

  /** The index of the last space of `s`, or -1. */
  function LastSpace(s: string): int
  {
    if |s| == 0 then -1
    else if s[|s| - 1] == ' ' then |s| - 1
    else LastSpace(s[..|s| - 1])
  }

  lemma {:induction false} LastSpaceBeforeSpaceFree(a: string, b: string)
    requires ' ' !in b
    ensures LastSpace(a + " " + b) == |a|
  {
    var s := a + " " + b;
    if |b| > 0 {
      assert s[..|s| - 1] == a + " " + b[..|b| - 1];
      LastSpaceBeforeSpaceFree(a, b[..|b| - 1]);
    }
  }

  /** Cutting a string at a space after which no space follows is unique. */
  lemma SuffixWithoutSpace(a: string, b: string, c: string, d: string)
    requires ' ' !in b && ' ' !in d
    requires a + " " + b == c + " " + d
    ensures a == c && b == d
  {
    var s := a + " " + b;
    LastSpaceBeforeSpaceFree(a, b);
    LastSpaceBeforeSpaceFree(c, d);
    assert a == s[..|a|] && c == s[..|c|];
    assert b == s[|a| + 1..] && d == s[|c| + 1..];
  }

  const ExampleCardName: string := "Visa Platinum"
  const ExampleCardNumber: string := "7000792289606361"

  lemma ExampleCardFacts()
    ensures ' ' !in ExampleCardNumber && |ExampleCardNumber| == 16
    ensures ExampleCardNumber[..4] == "7000" && ExampleCardNumber[4..6] == "79"
    ensures ExampleCardNumber[5..7] == "92" && ExampleCardNumber[12..] == "6361"
  {
    var n := ExampleCardNumber;
    assert n[4..6] == "79";
    assert n[5..7] == "92";
    assert n[12..] == "6361";
  }

  /**
   * As written, the card mask skips character 4: on "Visa Platinum 7000792289606361"
   * it shows "7000 92" where the number starts "7000 79".
   */
  lemma CardMaskSkipsFifthCharacter()
    ensures MaskCard(ExampleCardName + " " + ExampleCardNumber)
         == ExampleCardName + " " + "7000" + " " + "92" + "** **** " + "6361"
    ensures MaskCardIntended(ExampleCardName + " " + ExampleCardNumber)
         == ExampleCardName + " " + "7000" + " " + "79" + "** **** " + "6361"
  {
    ExampleCardFacts();
    MaskCardOfNameAndNumber(ExampleCardName, ExampleCardNumber);
  }

  /** The intended card mask: the first six characters of the number, then the last four. */
  function MaskCardIntended(frm: string): (r: string)
    ensures CardName(frm) + " " <= r
    ensures var tail := "** **** " + LastFour(CardNumber(frm));
      |tail| <= |r| && r[|r| - |tail|..] == tail
  {
    var name, number := CardName(frm), CardNumber(frm);
    MaskShape(name, Slice(number, 0, 4), Slice(number, 4, 6), LastFour(number));
    name + " " + Slice(number, 0, 4) + " " + Slice(number, 4, 6) + "** **** " + LastFour(number)
  }

  /** The intended masking of `from`: an account shows its own tail, a card its first six characters. */
  function MaskFromIntended(frm: Option<string>): (r: Option<string>)
    ensures r.Some? <==> frm.Some?
    ensures !IsLong(frm) ==> r == frm
    ensures IsAccountFrom(frm) ==> r == Some(AccountPrefix + LastFour(frm.value))
    ensures IsLong(frm) && !IsAccountFrom(frm) ==> r == Some(MaskCardIntended(frm.value))
  {
    if IsLong(frm) then
      if Split(frm.value, ' ')[0] == AccountWord then Some(AccountPrefix + LastFour(frm.value))
      else Some(MaskCardIntended(frm.value))
    else frm
  }

  /** The characters the intended card mask shows before the stars are the number's first six, none skipped. */
  lemma MaskCardIntendedShowsFirstSix(frm: string)
    requires |CardNumber(frm)| >= 6
    ensures var k := |CardName(frm)|;
      MaskCardIntended(frm)[k + 1..k + 5] + MaskCardIntended(frm)[k + 6..k + 8] == CardNumber(frm)[..6]
  {
    var name, n := CardName(frm), CardNumber(frm);
    var m := MaskCardIntended(frm);
    var k := |name|;
    assert Slice(n, 0, 4) == n[..4];
    assert Slice(n, 4, 6) == n[4..6];
    assert m == name + " " + n[..4] + " " + n[4..6] + "** **** " + LastFour(n);
    assert m[k + 1..k + 5] == n[..4];
    assert m[k + 6..k + 8] == n[4..6];
    assert n[..4] + n[4..6] == n[..6];
  }

  /** An account `from` keeps its own last four characters, whatever `to` is. */
  lemma MaskFromIntendedKeepsOwnTail(frm: Option<string>)
    requires IsAccountFrom(frm)
    ensures MaskFromIntended(frm) == Some(AccountPrefix + LastFour(frm.value))
    ensures LastFour(MaskFromIntended(frm).value) == LastFour(frm.value)
  {
  }

  /** The intended rendering: never fails, and agrees with the source wherever `from` is not masked. */
  function FormatOperationIntended(op: Op, amountText: string): (r: string)
    requires IsoTimestamp(op.date)
    ensures r == Join(Lines(ReorderDate(op.date), op.description, Render(MaskFromIntended(op.frm)),
                            Render(MaskTo(op.to)), amountText, op.currency), '\n')
    ensures !IsLong(op.frm) ==> FormatOperation(op, amountText) == Ok(r)
  {
    FormatLayout(op, amountText);
    Entry(ReorderDate(op.date), op.description, Render(MaskFromIntended(op.frm)), Render(MaskTo(op.to)),
          amountText, op.currency)
  }
}

/** The donation aggregator of the fundraising page (`get_donation_data` in
    app.py) and the progress figure the page derives from it (`index`).

    The outside world enters as inputs: whether the credential file exists,
    and what the spreadsheet service delivered for the first column of the
    sheet, or the description of the exception it raised. */
module Donations {
  import opened Options
  import Text
  import Decimal
  import Ranking
  import Collect

  /** The campaign goal the progress bar measures against. */
  const TargetAmount: real := 1500.0

  /** The currency marker and the thousands separator removed from a cell. */
  const CurrencyCode: string := "JOD"
  const Separator: string := ","

  /** The placeholder summary shown while no credential file is installed. */
  const FallbackTotal: real := 450.0
  const FallbackTop3: seq<real> := [200.0, 150.0, 100.0]
  const MissingCredentials: string := "service_account.json missing"

  /** The outcome of authorising, opening the sheet and reading its first
      column: the cell texts top to bottom, header included, or the text of
      the exception one of those steps raised. */
  datatype Fetch = Column(cells: seq<string>) | Failed(message: string)

  /** The three fields the page is rendered from. */
  datatype Summary = Summary(total: real, top3: seq<real>, error: Option<string>)

  /** `val.replace('JOD', '').replace(',', '').strip()`: no thousands
      separator is left, and no whitespace at either end. */
  function Clean(cell: string): (r: string)
    ensures ',' !in r
    ensures r == [] || (!Text.IsSpace(r[0]) && !Text.IsSpace(r[|r| - 1]))
  {
    var noCode := Text.Delete(cell, CurrencyCode);
    Text.DeleteChar(noCode, ',');
    Text.StripKeepsOut(Text.Delete(noCode, Separator), ',');
    Text.Strip(Text.Delete(noCode, Separator))
  }

  /** `float(...)` of the cleaned cell; `None` is the `ValueError` that makes
      the loop skip the cell, which happens exactly when the cleaned text is
      not a decimal numeral. */
  function Amount(cell: string): (r: Option<real>)
    ensures r.Some? <==> Decimal.WellFormed(Clean(cell))
  {
    Decimal.Parse(Clean(cell))
  }

  /** `col_values(1)[1:]`: the cells below the header cell, in order; an
      empty column gives no rows. */
  function Rows(column: seq<string>): (r: seq<string>)
    ensures |r| == if column == [] then 0 else |column| - 1
    ensures forall i :: 0 <= i < |r| ==> r[i] == column[i + 1]
  {
    if |column| == 0 then [] else column[1..]
  }

  /** The amounts the loop appends, in sheet order: one per cell that parses,
      so none at all exactly when no cell parses. */
  function ParsedAmounts(cells: seq<string>): (r: seq<real>)
    ensures |r| <= |cells|
    ensures r == [] <==> forall i :: 0 <= i < |cells| ==> Amount(cells[i]).None?
  {
    Collect.KeptEmpty(cells, Amount);
    Collect.Kept(cells, Amount)
  }

  /** The summary `get_donation_data` returns. With the credential file
      present it carries an error exactly when the service failed, and then
      it is zeroed; it never lists more than three amounts. */
  function Summarize(credentialFileExists: bool, fetch: Fetch): (r: Summary)
    ensures credentialFileExists ==> (r.error.Some? <==> fetch.Failed?)
    ensures credentialFileExists && r.error.Some? ==> r.total == 0.0 && r.top3 == []
    ensures |r.top3| <= Ranking.TopCount
  {
    if !credentialFileExists then Summary(FallbackTotal, FallbackTop3, Some(MissingCredentials))
    else
      match fetch
      case Failed(message) => Summary(0.0, [], Some(message))
      case Column(cells) =>
        var donations := ParsedAmounts(Rows(cells));
        Summary(Ranking.Sum(donations), Ranking.Top3(donations), None)
  }

  /** `get_donation_data`: the fallback when there is no credential file,
      the error summary when the service failed, otherwise the amounts
      collected cell by cell and aggregated. */
  method GetDonationData(credentialFileExists: bool, fetch: Fetch) returns (data: Summary)
    ensures data == Summarize(credentialFileExists, fetch)
  {
    if !credentialFileExists {
      return Summary(FallbackTotal, FallbackTop3, Some(MissingCredentials));
    }
    match fetch {
      case Failed(message) =>
        data := Summary(0.0, [], Some(message));
      case Column(cells) =>
        var values := Rows(cells);
        var donations: seq<real> := [];
        for i := 0 to |values|
          invariant donations == ParsedAmounts(values[..i])
        {
          assert values[..i + 1][..i] == values[..i];
          match Amount(values[i]) {
            case None =>
              continue;
            case Some(amount) =>
              donations := donations + [amount];
          }
        }
        assert values[..|values|] == values;
        data := Summary(Ranking.Sum(donations), Ranking.Top3(donations), None);
    }
  }

  /** `min((total / target) * 100, 100)`: the percentage of the goal reached,
      capped at 100 (and not floored: a negative total gives a negative
      percentage). */
  function Progress(total: real, target: real): (p: real)
    requires target > 0.0
    ensures p <= 100.0
    ensures p == 100.0 || p == total / target * 100.0
  {
    var ratio := total / target * 100.0;
    if ratio <= 100.0 then ratio else 100.0
  }

  // ---------------------------------------------------------------------
  // Cleaning

  /** The currency code is deleted in one pass, so the cleaning is not
      idempotent: `JJODOD` cleans to `JOD`, which cleans to nothing, and a
      separator inside the code (`JO,D`) leaves the code behind as well. */
  lemma CleanNotIdempotent()
    ensures Clean("JJODOD") == "JOD"
    ensures Clean(Clean("JJODOD")) == ""
    ensures Clean("JO,D") == "JOD"
  {
    CleanDoubledCode();
    CleanCode();
    SeparatorInsideCode();
  }

  lemma CleanDoubledCode()
    ensures Clean("JJODOD") == "JOD"
  {
    DeleteCodeOnce();
    PlainCode();
  }

  lemma DeleteCodeOnce()
    ensures Text.Delete("JJODOD", CurrencyCode) == "JOD"
  {
    Text.DeletePast("JJODOD", CurrencyCode, 1);
    assert "JJODOD"[1..] == "JODOD";
    Text.DeleteHere("JODOD", CurrencyCode);
    assert "JODOD"[3..] == "OD";
  }

  lemma PlainCode()
    ensures Text.Delete("JOD", Separator) == "JOD"
    ensures Text.Strip("JOD") == "JOD"
  {
    Text.DeleteAbsentChar("JOD", ',');
    assert !Text.IsSpace("JOD"[0]) && !Text.IsSpace("JOD"[2]);
    Text.StripPlain("JOD");
  }

  lemma CleanCode()
    ensures Clean("JOD") == ""
  {
    Text.DeleteHere("JOD", CurrencyCode);
    assert "JOD"[3..] == "";
  }

  lemma SeparatorInsideCode()
    ensures Clean("JO,D") == "JOD"
  {
    Text.DeletePast("JO,D", CurrencyCode, 2);
    assert "JO,D"[1..] == "O,D";
    Text.DeletePast("O,D", CurrencyCode, 0);
    assert "O,D"[1..] == ",D";
    assert Text.Delete("JO,D", CurrencyCode) == "JO,D";
    Text.DeletePast("JO,D", Separator, 0);
    Text.DeletePast("O,D", Separator, 0);
    Text.DeleteHere(",D", Separator);
    assert ",D"[1..] == "D";
    assert Text.Delete("D", Separator) == "D" by {
      Text.DeletePast("D", Separator, 0);
    }
    assert Text.Delete("JO,D", Separator) == "JOD";
    PlainCode();
  }

  /** A cell without the currency code, without a separator and without
      surrounding whitespace is left unchanged by the cleaning. */
  lemma CleanPlain(cell: string)
    requires forall i: nat :: !Text.OccursAt(cell, CurrencyCode, i)
    requires ',' !in cell
    requires cell == [] || (!Text.IsSpace(cell[0]) && !Text.IsSpace(cell[|cell| - 1]))
    ensures Clean(cell) == cell
  {
    Text.DeleteAbsent(cell, CurrencyCode);
    forall i: nat ensures !Text.OccursAt(cell, Separator, i) {
      if i < |cell| {
        assert cell[i..i + 1][0] == cell[i] && cell[i] in cell;
      }
    }
    Text.DeleteAbsent(cell, Separator);
    assert Text.TrimStart(cell) == cell;
  }

  /** Text made only of digits, points and signs has no currency code, no
      separator and no whitespace in it. */
  lemma NumeralsArePlain(s: string)
    requires forall k :: 0 <= k < |s| ==> Decimal.IsNumeral(s[k])
    ensures forall i: nat :: !Text.OccursAt(s, CurrencyCode, i)
    ensures ',' !in s
    ensures forall k :: 0 <= k < |s| ==> !Text.IsSpace(s[k])
  {
    forall i: nat ensures !Text.OccursAt(s, CurrencyCode, i) {
      if i + 3 <= |s| {
        assert s[i..i + 3][0] == s[i] && Decimal.IsNumeral(s[i]);
      }
    }
  }

  /** A cell whose text, once its thousands separators are dropped, is a
      well-formed number consists of digits, points, signs and separators. */
  lemma SeparatedNumeral(t: string, w: string)
    requires w == Text.Without(t, ',')
    requires forall k :: 0 <= k < |w| ==> Decimal.IsNumeral(w[k])
    ensures forall k :: 0 <= k < |t| ==> t[k] == ',' || Decimal.IsNumeral(t[k])
    ensures 'J' !in t
  {
    forall k | 0 <= k < |t| ensures t[k] == ',' || Decimal.IsNumeral(t[k]) {
      Text.WithoutMembership(t, ',', t[k]);
    }
  }

  /** A cell holding a well-formed number, with or without thousands
      separators (`1,500`, `12,345.50`), is read as that number with the
      separators dropped. */
  lemma AmountOfNumber(t: string)
    requires Decimal.Parse(Text.Without(t, ',')).Some?
    ensures Amount(t) == Decimal.Parse(Text.Without(t, ','))
  {
    var w := Text.Without(t, ',');
    Decimal.ParseAlphabet(w);
    SeparatedNumeral(t, w);
    CleanSeparated(t, w);
  }

  /** Cleaning a cell without the letter `J` only drops its separators,
      provided what remains has no whitespace at either end. */
  lemma CleanSeparated(t: string, w: string)
    requires 'J' !in t && w == Text.Without(t, ',')
    requires w == [] || (!Text.IsSpace(w[0]) && !Text.IsSpace(w[|w| - 1]))
    ensures Clean(t) == w
  {
    NoCodeWithoutJ(t);
    Text.DeleteAbsent(t, CurrencyCode);
    Text.DeleteChar(t, ',');
    Text.StripPlain(w);
  }

  /** A number followed by the currency code, as the sheet usually shows an
      amount (`100 JOD`, `1,500 JOD`), is read as that number with its
      thousands separators dropped. */
  lemma AmountWithCurrency(t: string)
    requires Decimal.Parse(Text.Without(t, ',')).Some?
    ensures Amount(t + " JOD") == Decimal.Parse(Text.Without(t, ','))
  {
    var w := Text.Without(t, ',');
    Decimal.ParseAlphabet(w);
    SeparatedNumeral(t, w);
    CleanCurrency(t, w);
  }

  /** Cleaning a cell without `J` followed by ` JOD` drops the code and the
      separators, and the strip removes the space left before the code. */
  lemma CleanCurrency(t: string, w: string)
    requires 'J' !in t && w == Text.Without(t, ',')
    requires w != [] && !Text.IsSpace(w[0]) && !Text.IsSpace(w[|w| - 1])
    ensures Clean(t + " JOD") == w
  {
    var a := t + " ";
    DropCode(t);
    Text.DeleteChar(a, ',');
    Text.WithoutConcat(t, " ", ',');
    assert Text.Without(" ", ',') == " ";
    Text.StripTrailingSpace(w);
  }

  /** The code at the end of a cell without `J` is its only occurrence. */
  lemma DropCode(t: string)
    requires 'J' !in t
    ensures Text.Delete(t + " JOD", CurrencyCode) == t + " "
  {
    var a := t + " ";
    forall i | 0 <= i < |a| ensures (a + "JOD")[i] != CurrencyCode[0] {
      if i < |t| { assert (a + "JOD")[i] == t[i]; }
    }
    assert t + " JOD" == a + "JOD";
    Text.DeleteAfter(a, "JOD", CurrencyCode);
    Text.DeleteHere("JOD", CurrencyCode);
    assert a + "" == a;
  }

  /** Text that is already a well-formed number holds no separator to drop. */
  lemma PlainNumeral(s: string)
    requires Decimal.Parse(s).Some?
    ensures Text.Without(s, ',') == s
  {
    Decimal.ParseAlphabet(s);
    NumeralsArePlain(s);
    Text.WithoutAbsent(s, ',');
  }

  /** Thousands separators do not change the amount: `1,500 JOD` is 1500. */
  lemma ThousandsSeparator()
    ensures Amount("1,500 JOD") == Some(1500.0)
  {
    ThousandText();
    ThousandWithout();
    ThousandParse();
    CurrencyCell("1,500", "1500", 1500.0);
  }

  lemma ThousandText()
    ensures "1,500" + " JOD" == "1,500 JOD"
  {
  }

  /** `AmountWithCurrency` for a cell whose separator-free text is known. */
  lemma CurrencyCell(t: string, w: string, v: real)
    requires w == Text.Without(t, ',') && Decimal.Parse(w) == Some(v)
    ensures Amount(t + " JOD") == Some(v)
  {
    AmountWithCurrency(t);
  }

  lemma ThousandWithout()
    ensures Text.Without("1,500", ',') == "1500"
  {
  }

  lemma ThousandParse()
    ensures Decimal.Parse("1500") == Some(1500.0)
  {
    Decimal.ParseFormatInt(1500);
    assert Decimal.FormatInt(1500) == "1500";
  }

  /** Round trips from the amounts as the sheet writes them: an integer, a
      fixed-point amount, an amount in JOD. */
  lemma AmountRoundTrip(n: int, places: nat)
    requires places > 0
    ensures Amount(Decimal.FormatInt(n)) == Some(n as real)
    ensures Amount(Decimal.FormatFixed(n, places)) == Some(n as real / Decimal.Pow10(places) as real)
    ensures Amount(Decimal.FormatInt(n) + " JOD") == Some(n as real)
  {
    Decimal.ParseFormatInt(n);
    Decimal.ParseFormatFixed(n, places);
    PlainNumeral(Decimal.FormatInt(n));
    PlainNumeral(Decimal.FormatFixed(n, places));
    AmountOfNumber(Decimal.FormatInt(n));
    AmountOfNumber(Decimal.FormatFixed(n, places));
    AmountWithCurrency(Decimal.FormatInt(n));
  }

  // ---------------------------------------------------------------------
  // Collecting the amounts

  /** The total of a run of cells adds up cell by cell: a cell that parses
      adds its amount, any other cell adds nothing. */
  lemma TotalByCell(a: seq<string>, cell: string)
    ensures Ranking.Sum(ParsedAmounts(a + [cell]))
      == Ranking.Sum(ParsedAmounts(a)) + match Amount(cell) case None => 0.0 case Some(v) => v
  {
    Collect.KeptConcat(a, [cell], Amount);
    assert [cell][..0] == [];
    Ranking.SumConcat(ParsedAmounts(a), ParsedAmounts([cell]));
  }

  /** A cell that does not parse is skipped: removing it changes nothing. */
  lemma SkippedCell(a: seq<string>, cell: string, b: seq<string>)
    requires Amount(cell).None?
    ensures ParsedAmounts(a + [cell] + b) == ParsedAmounts(a + b)
  {
    Collect.KeptSkip(a, cell, b, Amount);
  }

  // ---------------------------------------------------------------------
  // The summary

  /** Without the credential file the fixed placeholder is returned,
      whatever the sheet holds: nothing is fetched or parsed. */
  lemma MissingCredentialFile(fetch: Fetch)
    ensures Summarize(false, fetch)
      == Summary(450.0, [200.0, 150.0, 100.0], Some("service_account.json missing"))
  {
  }

  /** The placeholder is itself a possible summary: 450 is the sum of the
      three amounts listed, and they are listed largest first. */
  lemma FallbackIsConsistent()
    ensures FallbackTotal == Ranking.Sum(FallbackTop3)
    ensures Ranking.IsTop3(FallbackTop3, FallbackTop3)
  {
    assert multiset(FallbackTop3) - multiset(FallbackTop3) == multiset{};
  }

  /** When the service raises, the summary is zeroed and carries the
      exception's text, however many cells had been read. */
  lemma ErrorSummary(message: string)
    ensures Summarize(true, Failed(message)) == Summary(0.0, [], Some(message))
  {
  }

  /** A successful read reports no error, totals the collected amounts and
      lists their top three, each of which some cell below the header
      reads as. */
  lemma SuccessSummary(cells: seq<string>)
    ensures var r := Summarize(true, Column(cells));
      var donations := ParsedAmounts(Rows(cells));
      && r.error == None
      && r.total == Ranking.Sum(donations)
      && Ranking.IsTop3(donations, r.top3)
      && forall x :: x in r.top3 ==> exists i :: 0 <= i < |Rows(cells)| && Amount(Rows(cells)[i]) == Some(x)
  {
    var rows := Rows(cells);
    var donations := ParsedAmounts(rows);
    var r := Summarize(true, Column(cells));
    assert r == Summary(Ranking.Sum(donations), Ranking.Top3(donations), None);
    Ranking.Top3Spec(donations);
    forall x | x in r.top3 ensures exists i :: 0 <= i < |rows| && Amount(rows[i]) == Some(x) {
      assert x in multiset(r.top3);
      assert x in donations;
      Collect.KeptMembership(rows, Amount, x);
    }
  }

  /** A successful read lists no amount exactly when no cell below the
      header parses, and then the total is 0. */
  lemma NothingParses(cells: seq<string>)
    ensures var r := Summarize(true, Column(cells));
      && (r.top3 == [] <==> forall i :: 0 <= i < |Rows(cells)| ==> Amount(Rows(cells)[i]).None?)
      && (r.top3 == [] ==> r.total == 0.0)
  {
    var donations := ParsedAmounts(Rows(cells));
    Ranking.Top3Spec(donations);
    Collect.KeptEmpty(Rows(cells), Amount);
  }

  /** The header cell never counts: two columns that differ only in their
      first cell give the same summary, the one of the rows below it. */
  lemma HeaderIgnored(header: string, otherHeader: string, rows: seq<string>)
    ensures Summarize(true, Column([header] + rows)) == Summarize(true, Column([otherHeader] + rows))
    ensures Summarize(true, Column([header] + rows)).total == Ranking.Sum(ParsedAmounts(rows))
  {
    assert ([header] + rows)[1..] == rows;
    assert ([otherHeader] + rows)[1..] == rows;
  }

  /** A column holding only the header, or nothing at all, gives total 0,
      no amounts and no error. */
  lemma EmptySheet(header: string)
    ensures Summarize(true, Column([])) == Summary(0.0, [], None)
    ensures Summarize(true, Column([header])) == Summary(0.0, [], None)
  {
    assert [header][1..] == [];
  }

  /** A worked example: a header, two amounts in JOD or bare, a cell that is
      not a number and one with a fraction. */
  lemma Example()
    ensures Summarize(true, Column(["Amount", "100 JOD", "50", "not-a-number", "25.50"]))
      == Summary(175.5, [100.0, 50.0, 25.5], None)
  {
    var rows := ["100 JOD", "50", "not-a-number", "25.50"];
    assert Rows(["Amount", "100 JOD", "50", "not-a-number", "25.50"]) == rows;
    ExampleAmounts();
    ExampleTop3();
  }

  lemma CellWithCode()
    ensures Amount("100 JOD") == Some(100.0)
  {
    HundredText();
    HundredParse();
    PlainNumeral("100");
    CurrencyCell("100", "100", 100.0);
  }

  lemma HundredText()
    ensures "100" + " JOD" == "100 JOD"
  {
  }

  lemma HundredParse()
    ensures Decimal.Parse("100") == Some(100.0)
  {
    Decimal.ParseFormatInt(100);
    assert Decimal.FormatInt(100) == "100";
  }

  lemma BareCell()
    ensures Amount("50") == Some(50.0)
  {
    Decimal.ParseFormatInt(50);
    assert Decimal.FormatInt(50) == "50";
    PlainNumeral("50");
    AmountOfNumber("50");
  }

  lemma FractionCell()
    ensures Amount("25.50") == Some(25.5)
  {
    FractionParse();
    PlainNumeral("25.50");
    AmountOfNumber("25.50");
  }

  lemma FractionParse()
    ensures Decimal.Parse("25.50") == Some(25.5)
  {
    Decimal.ParseUnsignedPoint("25", "50");
    assert "25" + "." + "50" == "25.50";
    assert Decimal.Natural("25") == 25 && Decimal.Natural("50") == 50;
    assert Decimal.Pow10(|"50"|) == 100;
  }

  lemma NotANumber()
    ensures Amount("not-a-number") == None
  {
    NotANumberClean();
    NotANumberParse();
  }

  lemma NotANumberClean()
    ensures Clean("not-a-number") == "not-a-number"
  {
    var s := "not-a-number";
    assert 'J' !in s && ',' !in s;
    assert !Text.IsSpace(s[0]) && !Text.IsSpace(s[|s| - 1]);
    NoCodeWithoutJ(s);
    CleanPlain(s);
  }

  /** Text without a `J` holds no currency code. */
  lemma NoCodeWithoutJ(s: string)
    requires 'J' !in s
    ensures forall i: nat :: !Text.OccursAt(s, CurrencyCode, i)
  {
    forall i: nat ensures !Text.OccursAt(s, CurrencyCode, i) {
      if i + 3 <= |s| {
        assert s[i..i + 3][0] == s[i];
      }
    }
  }

  lemma NotANumberParse()
    ensures Decimal.Parse("not-a-number") == None
  {
    Decimal.ParseAlphabet("not-a-number");
    assert !Decimal.IsNumeral("not-a-number"[0]);
  }

  lemma ExampleAmounts()
    ensures ParsedAmounts(["100 JOD", "50", "not-a-number", "25.50"]) == [100.0, 50.0, 25.5]
  {
    var front, back := ["100 JOD", "50"], ["not-a-number", "25.50"];
    assert front + back == ["100 JOD", "50", "not-a-number", "25.50"];
    ExampleFront();
    ExampleBack();
    Collect.KeptConcat(front, back, Amount);
  }

  lemma ExampleFront()
    ensures Collect.Kept(["100 JOD", "50"], Amount) == [100.0, 50.0]
  {
    assert ["100 JOD", "50"] == ["100 JOD"] + ["50"];
    KeptWithCode();
    KeptBare();
    Collect.KeptConcat(["100 JOD"], ["50"], Amount);
  }

  lemma ExampleBack()
    ensures Collect.Kept(["not-a-number", "25.50"], Amount) == [25.5]
  {
    assert ["not-a-number", "25.50"] == ["not-a-number"] + ["25.50"];
    KeptNotANumber();
    KeptFraction();
    Collect.KeptConcat(["not-a-number"], ["25.50"], Amount);
  }

  lemma KeptWithCode()
    ensures Collect.Kept(["100 JOD"], Amount) == [100.0]
  {
    CellWithCode();
    Collect.KeptOne("100 JOD", Amount);
  }

  lemma KeptBare()
    ensures Collect.Kept(["50"], Amount) == [50.0]
  {
    BareCell();
    Collect.KeptOne("50", Amount);
  }

  lemma KeptNotANumber()
    ensures Collect.Kept(["not-a-number"], Amount) == []
  {
    NotANumber();
    Collect.KeptOne("not-a-number", Amount);
  }

  lemma KeptFraction()
    ensures Collect.Kept(["25.50"], Amount) == [25.5]
  {
    FractionCell();
    Collect.KeptOne("25.50", Amount);
  }

  lemma ExampleTop3()
    ensures Ranking.Sum([100.0, 50.0, 25.5]) == 175.5
    ensures Ranking.Top3([100.0, 50.0, 25.5]) == [100.0, 50.0, 25.5]
  {
    ExampleSum();
    ExampleRanked();
  }

  lemma ExampleSum()
    ensures Ranking.Sum([100.0, 50.0, 25.5]) == 175.5
  {
    var ds := [100.0, 50.0, 25.5];
    assert ds[1..] == [50.0, 25.5] && ds[1..][1..] == [25.5];
  }

  lemma ExampleRanked()
    ensures Ranking.Top3([100.0, 50.0, 25.5]) == [100.0, 50.0, 25.5]
  {
    var ds := [100.0, 50.0, 25.5];
    assert Ranking.IsTop3(ds, ds) by {
      assert multiset(ds) - multiset(ds) == multiset{};
    }
    Ranking.Top3Unique(ds, ds);
  }

  // ---------------------------------------------------------------------
  // Progress

  /** The percentage never exceeds 100; below the target it is the exact
      share of the target, and it is 100 exactly when the target is
      reached. */
  lemma ProgressClamp(total: real, target: real)
    requires target > 0.0
    ensures Progress(total, target) <= 100.0
    ensures total <= target ==> Progress(total, target) == total / target * 100.0
    ensures Progress(total, target) == 100.0 <==> total >= target
  {
    var ratio := total / target * 100.0;
    assert total == (total / target) * target;
    if total <= target {
      assert total / target <= 1.0;
    } else {
      assert total / target > 1.0;
    }
  }

  /** A larger total never shows less progress. */
  lemma ProgressMonotone(a: real, b: real, target: real)
    requires target > 0.0 && a <= b
    ensures Progress(a, target) <= Progress(b, target)
  {
    assert a / target <= b / target;
  }

  /** The placeholder summary shows 30 percent of the 1500 goal, and twice
      the goal shows a full bar. */
  lemma ProgressExamples()
    ensures Progress(Summarize(false, Failed("")).total, TargetAmount) == 30.0
    ensures Progress(3000.0, TargetAmount) == 100.0
  {
  }

}

# Iftar donation tracker: the donation aggregator

The tracker is a one-page Flask site. It shows how much a fundraising campaign
has collected towards a goal of 1500 JOD, and it lists the three largest
donations. The figures come from the first column of a Google Sheet.

This project models the logic in `app.py`:

- `get_donation_data`:
  - If the credential file is absent, it returns a fixed placeholder.
  - Otherwise it reads the first column and drops the header cell.
  - It cleans each cell: it deletes `JOD`, deletes `,` and strips whitespace.
  - It parses each cleaned cell as a number and skips the cells that do not parse.
  - It returns the sum and the three largest amounts.
  - If the service raises an exception, it returns a zeroed summary with the exception's text.
- The progress percentage that `index` computes from the total: `min(total / 1500 * 100, 100)`.

Layout, one module per file:

- `options.dfy`: the `Option` type.
- `text.dfy`: Python's `str.replace(pat, '')` and `str.strip()` on `seq<char>`.
  - `replace` is a single left-to-right pass over non-overlapping occurrences.
  - `strip` removes the characters that `str.isspace` accepts.
- `decimal.dfy`: `float()` restricted to plain decimal text (an optional sign, digits, an optional fraction), over exact reals.
  - It also holds the integer and fixed-point printers used for the round trips.
- `ranking.dfy`: `sum`, `sorted(reverse=True)` (insertion sort) and the `[:3]` slice.
  - It also holds a declarative definition of "a top-3 list", which `Top3` meets and which pins its result down.
- `collect.dfy`: the parse-or-skip filter of the loop, generic in the item reader.
- `donations.dfy`: the cell cleaning, the `Summary` record, `Summarize` and the imperative loop `GetDonationData` proved equal to it. It also holds `Progress` and the properties of the whole.

The outside world enters as inputs:

- `credentialFileExists` is the result of `os.path.exists`.
- A `Fetch` is either `Column(cells)`, the first column as `col_values(1)` returns it, or `Failed(message)`, the text `str(e)` of whatever authorising, opening or reading raised.

An error does not always come with total 0 and no amounts: without the credential file it returns total 450, the amounts `[200, 150, 100]` and an error text (app.py:15-21). The model follows the code, and `Summarize` promises the zeroed shape only for the service-failure path. `MissingCredentialFile` states the placeholder.

## Model

| member | source | states |
|---|---|---|
| Donations.GetDonationData | app.py:13-55 | The loop that appends each parsable cleaned cell and skips the rest, followed by `sum` and the top-3 slice. It returns exactly the summary `Summarize` defines for every input: the fallback, the service error or the aggregate. |
| Donations.Summarize | app.py:13-55 | The value `get_donation_data` returns: the placeholder without the credential file, the zeroed error summary when the service fails, otherwise the sum and top 3 of the parsed cells. With the credential file present, it carries an error exactly when the service failed, and then the total is 0 and no amounts are listed. It never lists more than three amounts. |
| Donations.MissingCredentialFile | app.py:15-21 | Without the credential file the result is total 450, amounts [200, 150, 100] and error "service_account.json missing", whatever the sheet would have held. |
| Donations.FallbackIsConsistent | app.py:17-20 | The placeholder total 450 is the sum of the placeholder amounts, and those form a valid top-3 list of themselves. |
| Donations.Rows | app.py:31 | `col_values(1)[1:]`: one cell fewer than the column (none for an empty column), and row `i` is cell `i + 1`. |
| Donations.HeaderIgnored | app.py:31 | The first cell of the column never affects the summary. The total is the sum over the cells below it. |
| Donations.EmptySheet | app.py:31-49 | An empty column, or one holding only the header, gives total 0, no amounts and no error. |
| Donations.Clean | app.py:37 | `val.replace('JOD', '').replace(',', '').strip()`. The cleaned text contains no `,` and neither starts nor ends with whitespace. |
| Donations.CleanNotIdempotent | app.py:37 | `JOD` is deleted in one pass, so `JJODOD` cleans to `JOD`, and cleaning that again gives the empty text. A separator inside the code (`JO,D`) also leaves `JOD` behind. |
| Donations.CleanPlain | app.py:37 | A cell with no currency code, no separator and no surrounding whitespace comes out of the cleaning unchanged. |
| Donations.Amount | app.py:37 | `float(...)` of the cleaned cell. It yields a number exactly when the cleaned text is a well-formed decimal; otherwise the `ValueError` makes the loop skip the cell. |
| Donations.AmountOfNumber | app.py:37 | A cell holding a number, with or without thousands separators (`1,500`), is read as that number with the separators dropped. |
| Donations.AmountWithCurrency | app.py:37 | A number followed by ` JOD`, with or without thousands separators, is read as that number with the separators dropped. |
| Donations.PlainNumeral | app.py:37 | A text that already parses holds no separator, so dropping separators leaves it unchanged. |
| Donations.ThousandsSeparator | app.py:37 | The cell `1,500 JOD` is read as 1500. |
| Donations.AmountRoundTrip | app.py:37 | An integer, a fixed-point amount, or an integer followed by ` JOD`, printed and then read back, gives the amount itself. |
| Donations.ParsedAmounts | app.py:33-40 | The list the loop builds from the rows. It has no more entries than there are cells, and it is empty exactly when no cell parses. |
| Donations.TotalByCell | app.py:34-42 | The total grows cell by cell: a parsable cell adds its amount, any other cell adds 0. |
| Donations.SkippedCell | app.py:34-40 | A cell that does not parse is skipped: removing it from any position leaves the collected amounts unchanged. |
| Donations.ErrorSummary | app.py:50-55 | A service failure gives total 0, no amounts and the exception's text as the error. |
| Donations.SuccessSummary | app.py:42-49 | A successful read has no error. Its total is the sum of the collected amounts. Its amounts form the top-3 list of them, and each listed amount is what some cell below the header reads as. |
| Donations.NothingParses | app.py:33-43 | A successful read lists no amount exactly when no cell below the header parses, and then the total is 0. |
| Donations.Example | app.py:31-49 | A header followed by `100 JOD`, `50`, `not-a-number` and `25.50` gives total 175.5 and amounts [100, 50, 25.5] with no error. |
| Donations.Progress | app.py:60 | `min(total / target * 100, 100)`. It never exceeds 100, and it is either 100 or the exact share `total / target * 100`. |
| Donations.ProgressClamp | app.py:60 | The progress never exceeds 100. Up to the goal the progress is the exact share `total / target * 100`. It is 100 exactly when the total reaches the goal. |
| Donations.ProgressMonotone | app.py:60 | A larger total never shows less progress. |
| Donations.ProgressExamples | app.py:60 | The placeholder total shows 30 percent of the 1500 goal. Twice the goal shows 100. |
| Collect.Kept | app.py:33-40 | The loop's append-or-skip, generic in how an item is read: the values of the items that read, in order. There are never more values than items. |
| Collect.KeptConcat | app.py:33-40 | The amounts of two runs of cells, one after the other, are those of the first run followed by those of the second, so sheet order is kept. |
| Collect.KeptSkip | app.py:34-40 | An item that does not read can be removed from any position without changing the values. |
| Collect.KeptMembership | app.py:33-40 | An amount is collected exactly when some cell reads as it. |
| Collect.KeptEmpty | app.py:33-40 | Nothing is collected exactly when no cell reads. |
| Collect.KeptOne | app.py:34-40 | A single cell gives its amount, or nothing when it does not parse. |
| Ranking.Sum | app.py:42 | `sum(donations)`, left to right from 0. A list of non-negative amounts has a non-negative sum. |
| Ranking.SumConcat | app.py:42 | `sum` over two runs is the sum of their sums. |
| Ranking.Insert | app.py:43 | Inserting into a non-increasing list keeps it non-increasing and adds exactly the one element. |
| Ranking.SortDescending | app.py:43 | `sorted(reverse=True)` returns a non-increasing permutation of its input. |
| Ranking.SortedUnique | app.py:43 | Two non-increasing lists with the same elements are equal, so the sorted order is unique. |
| Ranking.Top3 | app.py:43 | `sorted(donations, reverse=True)[:3]`. It has min(3, count) entries, is non-increasing, and is drawn from the amounts. |
| Ranking.Top3Spec | app.py:43 | The three leading amounts of the sorted list are non-increasing and number min(3, count). They are drawn from the amounts, and every amount left out is at most the last one listed. |
| Ranking.Top3Unique | app.py:43 | Any list with those four properties is the one `Top3` returns. |
| Text.Delete | app.py:37 | `replace(pat, '')` never lengthens the text. |
| Text.DeleteKeeps | app.py:37 | Deletion only removes characters. Characters that do not occur in the pattern are all kept. |
| Text.DeleteRemovesWholeCopies | app.py:37 | The length removed is a whole number of copies of the pattern, one per occurrence found scanning from the left. |
| Text.DeleteAbsent | app.py:37 | Text in which the pattern never occurs is left as it is. |
| Text.DeleteChar | app.py:37 | `replace(c, '')` for a single character is the order-keeping filter `Without` that drops every copy of `c`. So it removes every copy of `c` and keeps every other character, in order. |
| Text.WithoutMembership | app.py:37 | A character survives the filter exactly when it occurs in the text and is not the one dropped. |
| Text.WithoutConcat | app.py:37 | Filtering two texts one after the other is filtering each. |
| Text.WithoutAbsent | app.py:37 | Filtering out a character that does not occur changes nothing. |
| Text.DeleteAbsentChar | app.py:37 | Deleting a character that does not occur changes nothing. |
| Text.DeleteAfter | app.py:37 | A prefix holding no character that starts the pattern passes through the deletion unchanged. |
| Text.TrimStart | app.py:37 | The leading half of `strip()`: the suffix left after the leading whitespace. It does not start with whitespace, and only whitespace was removed. |
| Text.TrimEnd | app.py:37 | The trailing half of `strip()`: the prefix left before the trailing whitespace. It does not end with whitespace, and only whitespace was removed. |
| Text.Strip | app.py:37 | `strip` neither starts nor ends with whitespace. |
| Text.StripSlice | app.py:37 | `strip` is a slice of the text with only whitespace outside it. |
| Text.StripKeepsOut | app.py:37 | `strip` adds no character. |
| Text.StripPlain | app.py:37 | Text without whitespace at either end is left as it is. |
| Text.StripTrailingSpace | app.py:37 | The space left where ` JOD` was deleted is stripped away. |
| Text.StripIdempotent | app.py:37 | Stripping twice is stripping once. |
| Decimal.Parse | app.py:37 | `float()` on plain decimal text. It succeeds exactly on the texts of the grammar `WellFormed`: an optional sign, then digits with at most one point and at least one digit. |
| Decimal.UnsignedGrammar | app.py:37 | The unsigned reader succeeds exactly on digits with at most one point and at least one digit. |
| Decimal.GrammarExamples | app.py:37 | `.5` and `+5` are read as 0.5 and 5. `.`, `-`, `1.2.3` and `1-2` are rejected. |
| Decimal.ParseAlphabet | app.py:37 | Only non-empty text made of digits, a point and signs parses. A letter, the currency code or inner whitespace makes the cell be skipped. |
| Decimal.ParseNegative | app.py:37 | A leading minus negates the value, and it fails exactly when the unsigned text fails. |
| Decimal.ParseUnsignedPoint | app.py:37 | `whole.frac` reads as the whole part plus the fraction scaled by its number of digits. |
| Decimal.ParseFormatInt | app.py:37 | An integer printed in decimal reads back as itself. |
| Decimal.ParseFormatFixed | app.py:37 | An amount printed with a fixed number of fraction digits (`25.50`, `-0.125`) reads back as `n / 10^places`. |

## Left out

- Google authentication and the Sheets client (app.py:23-28, and the fetch in app.py:31) are network calls. The model takes their outcome as the `Fetch` input: the column, or the text of the exception.
- The text of `str(e)` (app.py:54) comes from foreign exceptions. It is an arbitrary string in the model.
- `os.path.exists` (app.py:15) is filesystem I/O and is a boolean input.
- Flask routing, `render_template` and `app.run` (app.py:57-72) are web plumbing. Of `index`, only the progress expression is modelled.
- The `try` block (app.py:23-55) also covers the loop and the aggregation. On the cells' strings these raise nothing but the `ValueError` the loop catches, so only the service's steps can fail. The model therefore has a single `Failed` outcome, decided before any cell is read.
- Decimal.Parse: Python's `float()` also accepts `inf`, `nan`, exponents, underscores between digits and non-ASCII digits. It then rounds to binary64. The model accepts only an optional sign and plain decimal digits with an optional fraction, and it computes exact reals. Cells using the other forms are read as unparsable here.
- Ranking.Sum: floating-point addition rounds; here amounts are exact reals, so the total is exact.
- Donations.Progress: the division and multiplication are exact over reals rather than binary64. The integer fallback total 450 is represented as the real 450.
- Amounts are not claimed to be non-negative: a cell such as `-20` is read as -20, as in the source.

# ocr-check: verified model of the OCR service's document logic

This project is a Dafny model of the pure logic inside `OCRService` in `main.py`.
That service takes an identity document (Brazilian RG) and reads its text with an
OCR job. It builds one text from the recognised `LINE` blocks. It then looks for
registered names line by line and picks out a date of birth with four regular
expressions. From that date it computes the person's age and whether they are a
minor.

The model has no side effects. The wall clock, the OCR job's final answer and the
list of registered names are all parameters.

| file | module | models |
|---|---|---|
| `wrappers.dfy` | `Wrappers` | `Option`/`Result`, standing in for `None` and for raised exceptions |
| `chars.dfy` | `Chars` | ASCII character classes, `str.lower()`, `in` on strings, `str.split(sep)` and its inverse |
| `calendar.dfy` | `Calendar` | Gregorian dates, `datetime.strptime(s, '%d/%m/%Y')`, the `dd/mm/yyyy` token shape |
| `age.dfy` | `Age` | `calculate_age`, with "today" as a parameter |
| `dob_extraction.dfy` | `DobExtraction` | `extract_date_of_birth`: the four patterns, `re.search`, priority order |
| `name_search.dfy` | `NameSearch` | `search_names` |
| `document.dfy` | `Document` | LINE-block assembly, the `age_verification` shaping, `process_document` after the OCR job |

How the code is modelled:

- **Regular expressions.** Each labelled pattern is a greedy matcher built from
  "longest run of `\w`, `\s` or `[\s:]`". `MatchAtIsRegexMatch` proves that this
  matcher finds exactly the matches a backtracking engine would find.
  `RegexMatch` is that declarative "some choice of run lengths fits" reading. The
  same lemma shows that a match at a given start has only one capture position.
- **Dates.** `strptime` is modelled from its field grammar, which is wider than
  `dd/mm/yyyy`:
  - the day is `3[01]|[12]\d|0[1-9]|[1-9]| [1-9]`;
  - the month is `1[0-2]|0[1-9]|[1-9]`;
  - the year is exactly four digits, and nothing may follow it.

  After that come the `datetime` range checks: year 1 to 9999, and a day that
  exists in that month, with leap years. So `1/2/2000` is accepted,
  `31/02/2000` is rejected, and so is year `0000`.

## Model

| member | source | states |
|---|---|---|
| `Calendar.ParseDate` | main.py:117 | whatever `strptime('%d/%m/%Y')` accepts is a real calendar date (year 1..9999, month 1..12, day within the month) |
| `Calendar.ParseDateShape` | main.py:117 | whatever `strptime('%d/%m/%Y')` accepts is exactly a `%d` field (01-31, 1-9 or a space and 1-9), `/`, a `%m` field (01-12 or 1-9), `/`, and four digits, with nothing before or after, and the date it gives has exactly the day, month and year those fields spell (so, with `ParseDate`'s validity guarantee, `31/4/2000` cannot parse) |
| `Calendar.DayFieldIsDirective` | main.py:117 | the day field is accepted exactly when it matches one alternative of `%d` (`3[01]`, `[12]\d`, `0[1-9]`, `[1-9]`, ` [1-9]`), and its value is the number the digits spell |
| `Calendar.MonthFieldIsDirective` | main.py:117 | the month field is accepted exactly when it matches one alternative of `%m` (`1[0-2]`, `0[1-9]`, `[1-9]`), and its value is the number the digits spell |
| `Calendar.YearField` | main.py:117 | `%Y` accepts exactly four digits; their value never exceeds 9999 |
| `Calendar.ParseToken` | main.py:117 | a `dd/mm/yyyy` token parses exactly when its numbers form a valid calendar date, and then to that date |
| `Calendar.ParseFormatRoundTrip` | main.py:117 | formatting a valid date as `dd/mm/yyyy` and parsing it gives the date back |
| `Calendar.ParseTokenError` | main.py:117 | for a `dd/mm/yyyy` token that is not a date: a day or month outside its directive's range is a format mismatch; otherwise year 0 is out of range; otherwise the day does not exist in the month |
| `Calendar.ParseThreeFields` | main.py:117 | three slash-separated fields, each accepted by its directive and together a valid date, parse to that date |
| `Calendar.ParseRejectsNonexistentDay` | main.py:117 | `31/02/2000` is rejected because the day is out of range for the month |
| `Calendar.ParseAcceptsUnpaddedFields` | main.py:117 | the parser also accepts one-digit day and month fields (`1/2/2000`) |
| `Calendar.ParseAcceptsSpacedDay` | main.py:117 | the parser accepts a day written as a space and a digit (` 1/02/2000`) |
| `Calendar.PrevDay` | main.py:129 | helper for stating the `age < 18` boundary: the day before a date is a valid date that comes before it, with no valid date in between |
| `Age.YearsBetween` | main.py:120-125 | the age is the number of anniversaries reached: `n <= age` iff the `n`-th anniversary of the birth date is not after today |
| `Age.CalculateAge` | main.py:109-136 | succeeds iff the string parses; then it echoes the input string, gives `YearsBetween` as the age, and `is_underage` iff age < 18; otherwise it returns the parser's error |
| `Age.AgeNonNegative` | main.py:121-125 | from the birth date onwards the age is never negative |
| `Age.AgeMonotone` | main.py:121-125 | the age never decreases as "today" moves forward |
| `Age.UnderageIffBeforeEighteenthBirthday` | main.py:124-129 | a person is underage exactly on the days before their 18th birthday |
| `Age.EighteenthBirthdayBoundary` | main.py:121-129 | on the 18th birthday: age 18 and not underage; on the day before: age 17 and underage |
| `Age.LeapDayEighteenthBirthday` | main.py:121-129 | for a 29 February birth, whose 18th anniversary falls in a common year: on 28 February of that year age 17 and underage; on 1 March age 18 and not underage |
| `DobExtraction.RunEnd` | main.py:96-98 | a `\w*` / `\s*` / `[\s:]+` repetition taken greedily stops at the first character outside its class |
| `DobExtraction.MatchAt` | main.py:95-99 | when a pattern matches at a position, its capture starts at or after that position and is a `\d{2}/\d{2}/\d{4}` token |
| `DobExtraction.MatchAtIsRegexMatch` | main.py:95-99 | the greedy matcher and the regular expression's backtracking reading agree on every start and capture position, in both directions |
| `DobExtraction.SearchFrom` | main.py:103 | `re.search` returns the leftmost start position at which the pattern matches, or none when it matches nowhere |
| `DobExtraction.SearchCapture` | main.py:103-105 | whatever a search captures is a `\d{2}/\d{2}/\d{4}` token that occurs in the searched text |
| `DobExtraction.SearchCaptureNoneIffNoMatch` | main.py:103-105 | `re.search` gives `None` exactly when the regular expression matches at no start position |
| `DobExtraction.SearchSomeIsLeftmost` | main.py:103 | where the search stops, the regular expression matches, and it matches at no earlier start |
| `DobExtraction.LeftmostMatchIsCaptured` | main.py:103-105 | for the leftmost match of a pattern, the search stops at its start and returns its group 1 |
| `DobExtraction.FirstCapture` | main.py:102-107 | the loop returns `None` iff no pattern in the list finds anything |
| `DobExtraction.FirstCaptureIsFirstMatch` | main.py:102-105 | a result of the loop is the capture of some pattern in the list, and every pattern before it found nothing |
| `DobExtraction.PriorityFindsToken` | main.py:95-107 | over the four patterns, the loop finds something iff the text holds a date token, because the last pattern is the bare token |
| `DobExtraction.ExtractDateOfBirth` | main.py:86-107 | `None` iff the lowered text contains no `DD/MM/YYYY` token; otherwise a token that occurs in the lowered text |
| `DobExtraction.NascLabelWins` | main.py:96-105 | when a `nasc…`-labelled date exists, the result is group 1 of the leftmost such match, whatever other dates precede it |
| `DobExtraction.FirstNascLabelDecides` | main.py:96-105 | when the first `nasc` in the text is followed by a date, that date is returned |
| `DobExtraction.LabelBeatsEarlierDate` | main.py:95-105 | for any two tokens, `early + " nasc " + born` yields `born`: label priority, not position or chronology |
| `DobExtraction.DataDeNascimentoHasNasc` | main.py:96-97 | every match of the `data de nascimento` pattern contains a later-starting match of the `nasc` pattern with the same date |
| `DobExtraction.DtNascHasNasc` | main.py:96-98 | every match of the `dt nasc` pattern contains a later-starting match of the `nasc` pattern with the same date |
| `DobExtraction.MiddlePatternsNeverDecide` | main.py:95-107 | the result is the `nasc` capture when that pattern matches, otherwise the bare-date capture; the second and third patterns never decide |
| `DobExtraction.LabelsFailFallThrough` | main.py:95-105 | when none of the three labelled patterns matches, the loop's result is the bare-token search |
| `DobExtraction.FallbackIsLeftmostDate` | main.py:99-105 | when no labelled pattern matches, the result is the leftmost date token |
| `DobExtraction.DateOccursInOriginalText` | main.py:103-105 | the returned token also occurs, unchanged, in the text before lowering |
| `DobExtraction.LowerKeepsDateAt` | main.py:103 | lowering the text neither creates nor destroys a date token at any position |
| `Chars.Split` | main.py:144 | `split('\n')` gives at least one part, and no part contains the separator |
| `Chars.JoinSplit` | main.py:144 | joining the parts of a split with the separator restores the text |
| `Chars.SplitCount` | main.py:144 | a split has one more part than the text has separators |
| `Chars.SplitJoin` | main.py:144 | splitting a join of separator-free parts gives the parts back |
| `Chars.Lower` | main.py:147-151 | `str.lower()` (also applied to the text at main.py:103) keeps the length, leaves no upper-case letter, keeps every other character in place, and turns each of `A`-`Z` into the same letter of `a`-`z` |
| `NameSearch.LinePositions` | main.py:148-152 | the list is strictly increasing, within `1..#lines`, and holds `i` iff lowered line `i` contains the key; it is non-empty iff some line contains the key |
| `NameSearch.SearchNames` | main.py:138-157 | every key is a lowered registered name; a lowered name is a key iff some line contains it; each key's list meets the `LinePositions` contract and is non-empty |
| `NameSearch.PositionsUnique` | main.py:148-152 | the position list of a key is uniquely determined by the lines |
| `NameSearch.NameIndexUnique` | main.py:143-157 | the contract of `SearchNames` fixes the whole result map |
| `Document.LineTexts` | main.py:78-79 | the kept texts are exactly those of blocks of type `LINE` |
| `Document.LineTextsAppend` | main.py:78-80 | filtering distributes over concatenation, so the `LINE` blocks keep their input order |
| `Document.AssembleText` | main.py:77-80 | the text is the `LINE` texts joined by `"\n"`, with one final `"\n"` |
| `Document.AssembleTextAppend` | main.py:77-80 | assembling a concatenation of block lists concatenates the assembled texts |
| `Document.AssembledLines` | main.py:77-80 | if no line text holds a newline, splitting the assembled text gives the `LINE` texts plus one trailing empty line |
| `Document.VerifyAge` | main.py:175-190 | the not-found marker, carrying the error text `Data de nascimento não encontrada no documento`, iff the text has no date token; otherwise the `calculate_age` result for exactly the token `extract_date_of_birth` returns: `Verified` with its info when it parses, else `AgeCalculationFailed` with that token and the parser's error |
| `Document.LabelledInvalidDateFails` | main.py:175-178 | for `early + " nasc " + born` with `born` no calendar date, the age step fails on `born`, whatever `early` is |
| `Document.ProcessDocument` | main.py:159-193 | a failed OCR job is an error; otherwise the response holds the assembled text, the `search_names` result for its lines and the `age_verification` value, or the age error |

## Behaviour worth knowing

- **Choosing the date.** The four patterns are tried in priority order, and
  the capture of the first one that matches anywhere is returned. One date is
  enough, and no dates are compared. `LabelBeatsEarlierDate` shows that a
  `nasc`-labelled date wins over an earlier, unlabelled one.
- **Two patterns never decide.** `nascimento` begins with `nasc`, so every
  match of `data\s+de\s+nascimento[\s:]+…` or `dt\s*nasc[\s:]+…` contains a
  match of the first pattern, `nasc\w*[\s:]+…`, with the same date.
  `MiddlePatternsNeverDecide` proves it: the result is the `nasc` capture, or
  else the leftmost bare date.
- **An invalid date.** When the chosen token is not a calendar date
  (`31/02/2000`), `calculate_age` raises an HTTP 400. `process_document`
  catches it and raises a 500 instead, so the whole document fails.
  `VerifyAge` and `ProcessDocument` model this as `AgeCalculationFailed`.
  `LabelledInvalidDateFails` shows the document fails even when a valid
  unlabelled date comes earlier.

## Left out

- The S3 `put_object`/`delete_object` calls and the client set-up (main.py:17-47, 166, 181) are foreign network calls, so they are not modelled. The model does not track that the delete at main.py:181 is skipped when an earlier step raises.
- Textract job submission and the polling loop (main.py:54-74) are an external asynchronous service, and the loop has no bound. `OcrJob` is the state the loop stops in.
- The model takes the block list from that final response. Like the code, it ignores result pagination (`NextToken`).
- The FastAPI app, CORS, the `/process` route, JSON parsing of the request, environment variables and uvicorn (main.py:196-256) are HTTP and configuration plumbing.
- HTTP status codes and the exact `detail` texts are not modelled. Errors are the variants of `DocumentError` and `ParseError`.
- Unicode case mapping and Unicode `\d`, `\w`, `\s` are not modelled. Only ASCII is: `A`-`Z` lower-case to `a`-`z`, `\d` is `0`-`9`, `\w` is `[A-Za-z0-9_]`, and `\s` is `\t`-`\r`, `\x1c`-`\x1f` and space.
- `NameSearch.SearchNames`: the result is a `map`, which has no order. The order in which `found_names` keys appear in the JSON response, which is the order names were first found, is not modelled. Nothing in the program depends on it.
- `datetime.now()` is the `today` parameter. Its time of day and time zone play no part in the result.

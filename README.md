# fetch-studies, modelled in Dafny

The service has one endpoint, `GET /fetch-studies?sponsors=…&email=…`, in
`main.py`. Its handler, `fetch_studies`, does the following:

1. It splits `sponsors` at every comma, strips each piece and drops pieces
   that end up empty. If no name is left, it answers 400 with
   `{"error": "No sponsors provided."}`.
2. It quotes each name into a clause `AREA[LeadSponsor]"<name>"` and joins
   the clauses with `" OR "`.
3. It adds the date range `AREA[LastUpdatePostDate]RANGE[<yesterday>,<today>]`.
   Today is the current UTC date and yesterday is one calendar day earlier,
   both written as `YYYY-MM-DD`.
4. It sends one GET to `https://clinicaltrials.gov/api/v2/studies` with that
   term, sort `LastUpdatePostDate:desc` and page size 50.
5. It turns each returned study that has a non-empty NCT identifier into a
   record: identifier, lead sponsor name (`""` if absent) and the link
   `https://clinicaltrials.gov/study/<id>`.
6. It answers 200 with the caller's email unchanged and the records. If
   there are no records, the results field is the text
   `"No new studies found."`.
7. Any exception becomes a 500 whose error is the exception's message.

The project has four modules:

- `wrappers.dfy` holds `Wrappers`, an `Option` datatype.
- `text.dfy` holds `Text`: Python's `str.strip()`, `str.split(sep)` and
  `sep.join(parts)`, with their round trips.
- `calendar.dfy` holds `Calendar`: `datetime.date` over years 1 to 9999,
  subtracting one day, and `str(date)`.
- `fetch_studies.dfy` holds `FetchStudies`: sponsor parsing, the query term,
  the result loop and the handler.

The handler is a method. It takes the current date as a parameter, and the
registry as a function from the request to its reply. Besides the response,
it returns the request it sent, or `None` when it stopped before sending.

In `main.py:20`, each sponsor name goes through `"".join(s)`. On a Python
string, that rebuilds the string unchanged. So a name keeps its inner
spaces verbatim inside the quotes: `"Pfizer Inc"` stays `Pfizer Inc`, and no
whitespace is removed from inside a name. `Text.JoinCharsIdentity` and
`FetchStudies.SponsorClauseVerbatim` prove this. The only whitespace the
handler removes is at the two ends of each comma-separated piece, and
`Text.IsWhitespace` gives exactly the characters Python's `str.isspace()`
accepts.

## Model

| member | source | states |
|---|---|---|
| Text.Strip | main.py:15 | `s.strip()` is no longer than `s`, is empty exactly when `s` is all whitespace, and otherwise starts and ends with a non-whitespace character |
| Text.StripIsSlice | main.py:15 | the strip is the contiguous slice of `s` between its leading and trailing whitespace runs; everything outside the slice is whitespace and both ends of a non-empty slice are not |
| Text.StripIsEmpty | main.py:15 | the strip is empty if and only if every character of `s` is whitespace |
| Text.LeadingWhitespaceIsMaximal | main.py:15 | the characters removed at the front are all whitespace, and the first one kept is not |
| Text.TrailingWhitespaceIsMaximal | main.py:15 | the characters removed at the back are all whitespace, and the last one kept is not |
| Text.StripUnpadded | main.py:15 | a string with non-whitespace at both ends is its own strip |
| Text.StripLeading | main.py:15 | a leading whitespace character does not change the strip |
| Text.StripIdempotent | main.py:15 | stripping a stripped string changes nothing |
| Text.Split | main.py:15 | `s.split(",")` always yields at least one piece, even for the empty string |
| Text.SplitPiecesLackSeparator | main.py:15 | no piece of a split contains the separator |
| Text.JoinSplit | main.py:15 | joining the pieces of a split with the separator gives back the original string |
| Text.SplitJoin | main.py:15 | splitting a join of one or more separator-free parts gives back exactly those parts |
| Text.SplitAfterPiece | main.py:15 | putting a separator-free string in front of `t` lengthens only the first piece of `t`'s split; the other pieces stay the same |
| Text.JoinLength | main.py:20 | a join is as long as its parts plus one separator between each adjacent pair |
| Text.JoinOffsetStep | main.py:20 | part `i + 1` of a join starts after part `i` and one separator |
| Text.JoinOffsetTotal | main.py:20 | part `i` of a join starts after the lengths of the earlier parts and `i` separators |
| Text.JoinPartAt | main.py:20 | part `i` of a join occurs in the join, unchanged, at its offset |
| Text.JoinSeparatorAt | main.py:20 | the separator follows every part of a join but the last |
| Text.JoinCharsIdentity | main.py:20 | `"".join(s)` over the characters of `s` is `s` itself |
| FetchStudies.KeptName | main.py:15 | a piece contributes no name exactly when it is all whitespace, and otherwise contributes its strip |
| FetchStudies.KeepSponsors | main.py:15 | the comprehension never yields more names than pieces |
| FetchStudies.KeepSponsorsClean | main.py:15 | every parsed sponsor name is non-empty and has no whitespace at either end |
| FetchStudies.KeepSponsorsAppend | main.py:15 | filtering works piece by piece, so names keep the order of their pieces |
| FetchStudies.KeepSponsorsSingle | main.py:15 | one piece yields its strip, or nothing when it is all whitespace |
| FetchStudies.KeepSponsorsEmpty | main.py:15-16 | no name survives if and only if every piece is all whitespace |
| FetchStudies.ParseSponsorsEmpty | main.py:15-17 | the 400 case happens if and only if every comma-separated piece of `sponsors` is blank |
| FetchStudies.ParseJoinedPieces | main.py:15 | parsing a comma-joined list of comma-free pieces yields the stripped non-blank pieces in order |
| FetchStudies.SponsorClauseVerbatim | main.py:20 | each clause is `AREA[LeadSponsor]"` + the sponsor name unchanged + `"` |
| FetchStudies.SponsorFilterClauseAt | main.py:20 | clause `k` of the filter quotes sponsor `k` verbatim and appears at its place in the filter |
| FetchStudies.SponsorFilterSeparatorAt | main.py:20 | `" OR "` follows each clause but the last |
| FetchStudies.SponsorFiltersLength | main.py:20 | the filter consists of the clauses and the `" OR "` separators, nothing more |
| Calendar.PrevDayIsOneDayEarlier | main.py:24 | `d - timedelta(days=1)` fails exactly at 0001-01-01; otherwise it is a valid date whose day number is one less |
| Calendar.MonthsFillYear | main.py:24 | the twelve months add up to the length of the year, leap years included |
| Calendar.OrdinalWithinYear | main.py:24 | a date's day number lies within the days of its own year |
| Calendar.SameOrdinalSameYear | main.py:24 | dates with the same day number are in the same year |
| Calendar.OrdinalInjective | main.py:24 | distinct valid dates have distinct day numbers, so the day before is the only date one day earlier |
| Calendar.MonthEndsBefore | main.py:24 | a later month starts no earlier than an earlier month ends |
| Calendar.DaysBeforeMonthMonotone | main.py:24 | the days before a month never decrease as the month grows |
| Calendar.DaysBeforeYearMonotone | main.py:24 | the days before a year never decrease as the year grows |
| Calendar.DigitsRoundTrip | main.py:25 | zero-padding a number below `10^w` to `w` digits yields `w` digits that read back as the number |
| Calendar.RenderParses | main.py:25 | `str(date)` is ten characters and reads back as the same date |
| Calendar.RenderInjective | main.py:25 | different dates give different strings in the date range |
| FetchStudies.QueryTermFor | main.py:23-28 | a query term exists exactly when today is not the first representable date |
| FetchStudies.QueryTermForExact | main.py:20-28 | the term is `(` + the verbatim clauses joined with `" OR "` + `) AND AREA[LastUpdatePostDate]RANGE[<day before>,<today>]`, and the day before is one day earlier |
| FetchStudies.Selected | main.py:43-52 | there are never more records than studies |
| FetchStudies.SelectedRecordsLinked | main.py:47-51 | every record has a non-empty identifier and the registry link built from it |
| FetchStudies.SelectedAppend | main.py:44-52 | the records of a concatenation are the records of each part, in upstream order |
| FetchStudies.SelectedSingle | main.py:45-52 | a study yields a record exactly when it has a non-empty identifier; the record copies the identifier and the sponsor name (default `""`) and adds the link |
| FetchStudies.SelectedEmpty | main.py:44-54 | no record is produced if and only if no study has a non-empty identifier |
| FetchStudies.FormatResults | main.py:43-52 | the loop that appends records produces exactly the records of the studies, in order |
| FetchStudies.HandleFetchStudies | main.py:13-57 | 400 if and only if no sponsor survives parsing, and then no request is sent; 500 with the overflow message when yesterday does not exist; otherwise exactly one request, with the exact URL, term, sort and page size; a failing request gives 500 with its message; a reply gives 200 with the email unchanged and the selected records, or the "No new studies found." text when there are none |

## Left out

- The network call (`requests.get`, `main.py:38`) is not modelled. The
  registry is a function parameter from the request to its reply.
- The HTTP-error check (`raise_for_status`, `main.py:39`) and JSON decoding
  (`main.py:40`) are not modelled as code. Their exceptions, and any other
  exception raised while reading the reply, show up only as a
  `Reply.Failure` carrying the exception's message. The handler turns that
  into a 500 with that message.
- The reply's JSON is reduced to the two fields the handler reads. A
  missing key anywhere on a path is `None`; `null` values and values that
  are not strings are outside the model.
- The clock (`datetime.utcnow()`, `main.py:23`) is not modelled. Today's
  UTC date is a parameter.
- The web framework is not modelled: FastAPI routing, `Query` validation of
  missing parameters (a 422 before the handler runs) and JSON serialisation
  of the response. `Response.Status` records the status code each response
  kind carries.
- Calendar.Ordinal: the day number is defined by summing month and year
  lengths rather than by Python's closed-form formula. The two agree on
  valid dates, but that agreement is not proved here.
- Python's exception text in general is not modelled. The one error
  message the model states is `"date value out of range"`, for
  0001-01-01 minus one day.

# Tennis-court booking script: slot ranking and selection

`reserve.py` is a browser script that logs into a club's booking site,
opens the reservation grid, filters it to tennis courts, and moves the grid
seven days ahead. It then books one open slot. `reserve_court` picks that
slot:

- It reads every open slot's title (such as "7:00 PM-8:00 PM").
- It keys each slot by the start time before the first dash, parsed with
  `time.strptime(..., "%I:%M %p")`.
- It sorts the slots latest first.
- It makes two passes over the sorted list. The first pass tries the slots
  whose title contains one of the exact strings "6:00 PM", "7:00 PM" or
  "8:00 PM", anywhere in the whole title. So "5:00 PM-6:00 PM" is tried in
  the first pass, while "6:15 PM-7:15 PM" or "6:30 PM-7:30 PM" is not. The second pass tries the
  slots whose title contains none of the three strings.
- A try clicks the slot and waits for the "Save" button. The first button
  that appears is clicked and ends the stage with `True`.
- The browser session is quit on every way out.

This project models that rule, the date loop `move_days_ahead`, the login and
navigation stages, and the `main` pipeline that chains them. It proves what
the stages promise.

Modules:

- `Text`: the string built-ins the key uses: `split('-')[0]`, `strip()`, and
  substring `in`.
- `Clock`: the subset of `strptime` that the format "%I:%M %p" exercises. It
  includes the 12-hour to 24-hour conversion and a formatter for the site's
  own spelling of times. The formatter is used to state a round trip. The
  texts that parse are characterised exactly, in both directions, by the
  spellings each field accepts.
- `Ranking`: the pure ranking rule:
  - the key of a title;
  - keying all slots, which fails if any title fails to parse;
  - a stable latest-first insertion sort;
  - the two pass predicates and the passes;
  - the first candidate whose confirmation succeeds.
- `Driver`: the browser session as a class. It keeps a log of the script's
  actions and whether the session is still open.
- `Reserve`: the stages as methods on the session. Each method is proved to
  append exactly a pure trace function of what the site shows, and to return
  the stage's result. Lemmas about those traces state what the script
  promises.

Everything on the page is an oracle in `Reserve.Site`: whether each element
appears within its wait, which slots are open, and whether the "Save" button
appears after a given slot is clicked.

Two behaviours of the code shape the model:

- **A title that does not parse.** `strptime` raises `ValueError`.
  `reserve_court` catches only `TimeoutException` and `NoSuchElementException`
  (reserve.py:158), so the error escapes after the `finally` clause quits the
  driver (reserve.py:160-161). The stage does not return at all, and `main`
  ends with that exception. The model gives the stage the completion
  `RaisedValueError` and the run the outcome `Crashed`.
- **Ties in the sort.** Python's `sorted` is stable, also with
  `reverse=True` (reserve.py:114). Slots with equal start times therefore
  keep their page order, and the model proves it.

## Model

| member | source | states |
|---|---|---|
| Text.BeforeDash | reserve.py:114 | `title.split('-')[0]` is a prefix of the title with no dash in it, and it stops either at the end or at a dash |
| Text.Strip | reserve.py:114 | `strip()` is the slice between the leading and the trailing whitespace; an all-whitespace text strips to empty; the result neither starts nor ends with whitespace |
| Text.Contains | reserve.py:123 | Python's substring `in`, scanning the title from the left; specified by Text.ContainsIffOccurs |
| Text.ContainsIffOccurs | reserve.py:123 | substring `in` holds exactly when the needle occurs at some index of the title |
| Clock.LexHour | reserve.py:114 | `%I` followed by the colon: accepts `1[0-2]\|0[1-9]\|[1-9]` and yields an hour from 1 to 12; the exact texts it accepts, and what it reads from each, are stated by Clock.LexHourIff |
| Clock.LexMinute | reserve.py:114 | `%M` followed by whitespace: accepts `[0-5]\d\|\d` and yields a minute below 60, leaving the whitespace for `%p`; the exact texts it accepts are stated by Clock.LexMinuteIff |
| Clock.LexMeridiem | reserve.py:114 | the format's space and `%p` up to the end of the text: at least one whitespace, then "am" or "pm" in any case; accepted texts start with whitespace; the exact texts it accepts are stated by Clock.LexMeridiemIff |
| Clock.HourSpelling | reserve.py:114 | the texts `%I` accepts for an hour h from 1 to 12: the site's "h", and "0h" for h below 10; used by Clock.LexHourIff |
| Clock.MinuteSpelling | reserve.py:114 | the texts `%M` accepts for a minute m below 60: two digits, and one digit for m below 10; used by Clock.LexMinuteIff |
| Clock.MeridiemSpelling | reserve.py:114 | the texts the format's " %p" accepts at the end of the input: one or more whitespace characters, then "am" or "pm" in any letter case; used by Clock.LexMeridiemIff |
| Clock.LexHourIff | reserve.py:114 | the hour lexer reads hour h and leaves t if and only if the text is a spelling of h, a colon, then t |
| Clock.LexMinuteIff | reserve.py:114 | the minute lexer reads minute m and leaves t if and only if the text is a spelling of m followed by t, and t starts with whitespace |
| Clock.LexMeridiemIff | reserve.py:114 | the meridiem lexer yields AM (or PM) if and only if the text is a spelling of AM (or PM) |
| Clock.To24 | reserve.py:114 | `%p` conversion: the hour is below 24, it is 12 or more exactly for PM, and it agrees with the 12-hour reading modulo 12 |
| Clock.ParseClock | reserve.py:114 | a parsed start time is a minute of the day (below 1440); the texts that parse, and their values, are stated by Clock.ParseClockAccepts and Clock.ParseClockOnlySpellings |
| Clock.ParseClockAccepts | reserve.py:114 | every hour spelling, a colon, a minute spelling and a meridiem spelling parses, to 60 times the 24-hour reading of the hour plus the minute |
| Clock.ParseClockOnlySpellings | reserve.py:114 | conversely, every text that parses is such a concatenation of spellings, and it parses to the time they spell |
| Clock.ParseFormat | reserve.py:114 | every minute of the day, written as the site writes it ("7:05 PM"), parses back to that minute |
| Clock.TwelveOClock | reserve.py:114 | a "12:mm" time with " AM" parses to mm and with " PM" to 720 + mm |
| Clock.TwelveIsMidnightAndNoon | reserve.py:114 | "12:mm AM" parses to minute mm of the day (0..59) and "12:mm PM" to 720 + mm (720..779) |
| Ranking.StartOf | reserve.py:114 | the sort key lambda: `strptime(title.split('-')[0].strip(), "%I:%M %p")`; specified by Ranking.StartIgnoresEnd, Ranking.StartOfSiteTitle and Clock.TwelveIsMidnightAndNoon |
| Ranking.StartIgnoresEnd | reserve.py:114 | the key of `head-rest` depends only on `head`, stripped |
| Ranking.StartOfSiteTitle | reserve.py:114 | a title "start-finish" in the site's spelling is keyed by its start time |
| Ranking.StartKey | reserve.py:114 | the sort key of a slot: the start time read from its title; specified through Ranking.StartOf and Ranking.RankAllSpec |
| Ranking.RankBy | reserve.py:113-114 | computing a key for every slot, failing as a whole if any slot has none; specified by Ranking.RankBySucceedsIff and Ranking.RankByKeepsOrder |
| Ranking.RankAll | reserve.py:113-114 | keying every slot by its title's start time; specified by Ranking.RankAllSpec |
| Ranking.RankBySucceedsIff | reserve.py:113-114 | computing the keys succeeds exactly when every slot has a key |
| Ranking.RankByKeepsOrder | reserve.py:113-114 | a successful keying has one entry per slot, in page order, each paired with its own key |
| Ranking.RankAllSpec | reserve.py:113-114 | the same two facts for the start-time key of the titles |
| Ranking.Insert | reserve.py:114 | inserting adds exactly the one entry and keeps a latest-first list latest first |
| Ranking.SortLatestFirst | reserve.py:114 | `sorted(..., reverse=True)` on the keys, as a stable insertion sort; specified by Ranking.SortIsOrderedPermutation and Ranking.SortIsStable |
| Ranking.SortIsOrderedPermutation | reserve.py:114 | the sorted list is a permutation of the keyed slots and is non-increasing by start time |
| Ranking.SortIsStable | reserve.py:114 | for every start time, the entries with that start time appear in the sorted list in their page order |
| Ranking.AnyOccurs | reserve.py:123 | `any(t in title for t in times)`; specified by Ranking.AllAbsentIsNotAny, Ranking.EndingAtSixIsPreferred and Ranking.NoZeroIsFallback |
| Ranking.NoneOccurs | reserve.py:141 | `all(t not in title for t in times)`; specified by Ranking.AllAbsentIsNotAny |
| Ranking.AllAbsentIsNotAny | reserve.py:123-141 | for any list of strings, `all(t not in title ...)` holds if and only if `any(t in title ...)` does not |
| Ranking.IsPreferred | reserve.py:123 | the first pass's `any(t in title for t in [...])` over the three exact strings; specified by Ranking.EndingAtSixIsPreferred and, with the second pass's test, Ranking.IsFallback |
| Ranking.IsFallback | reserve.py:141 | the second pass's `all(t not in title ...)` is the exact negation of the first pass's `any(t in title ...)` (reserve.py:123) |
| Ranking.EndingAtSixIsPreferred | reserve.py:123 | "5:00 PM-6:00 PM" passes the first pass's test, because the test looks at the whole title |
| Ranking.NoZeroIsFallback | reserve.py:123 | each preferred string reads "h:00 PM", so a title without the digit zero fails the first pass's test |
| Ranking.QuarterPastSixIsFallback | reserve.py:123 | "6:15 PM-7:15 PM" fails the first pass's test: only the three exact strings count, not the hour |
| Ranking.Pass | reserve.py:121-155 | the slots one pass acts on, in the order it meets them (the loop filters at reserve.py:123 and 141); specified by Ranking.PassSelects |
| Ranking.Candidates | reserve.py:121-155 | the order in which the two loops try slots: the first pass's, then the second pass's; specified by Ranking.CandidatesArePermutation and Ranking.CandidatesOrder |
| Ranking.PassSelects | reserve.py:122-123 | a pass acts only on entries of the sorted list that its test admits, and keeps the latest-first order |
| Ranking.CandidatesArePermutation | reserve.py:121-155 | the two passes together try each sorted entry exactly as often as it occurs, so no slot is tried twice or skipped |
| Ranking.CandidatesOrder | reserve.py:121-155 | in the order of tries, every preferred slot comes before every other slot, and within a pass a later start time comes first |
| Ranking.FirstAccepted | reserve.py:122-155 | the booked position is the first whose confirmation succeeds; none is booked exactly when no confirmation succeeds |
| Ranking.Chosen | reserve.py:121-155 | the position, among the slots as the two passes try them, of the slot that is booked; specified by Ranking.ChosenIffSomeConfirms and Ranking.ChosenIsLatestOfBestPass |
| Ranking.ChosenIffSomeConfirms | reserve.py:122-155 | some slot is booked exactly when some open slot's "Save" button would appear |
| Ranking.ChosenIsLatestOfBestPass | reserve.py:121-155 | if a confirming slot exists, one is booked; it is preferred whenever some confirming slot is preferred, and it starts no earlier than any confirming slot of its own pass |
| Driver.Browser.Perform | reserve.py:28-155 | a page action is appended to the session's log and leaves the session open |
| Driver.Browser.Quit | reserve.py:160-161 | `driver.quit()` is appended to the log and closes the session |
| Reserve.LoginSucceeds | reserve.py:28-61 | login succeeds when the username box, the password box and the "Logout" link all appear; specified by Reserve.LoginTrace and Reserve.Login |
| Reserve.LoginTrace | reserve.py:28-61 | login quits exactly when one of the username box, the password box or the "Logout" link is missing; a successful login does not quit |
| Reserve.Login | reserve.py:28-61 | `login` returns True exactly when all three elements appear, logs exactly the login trace, and leaves the session open exactly when it returns True |
| Reserve.NavigationSucceeds | reserve.py:63-83 | navigation succeeds when the grid and the "Tennis" button both appear; specified by Reserve.NavigationTrace and Reserve.NavigateToReservations |
| Reserve.NavigationTrace | reserve.py:63-83 | navigation quits exactly when the grid or the "Tennis" button is missing |
| Reserve.NavigateToReservations | reserve.py:63-83 | `navigate_to_reservations` returns True exactly when both appear, and logs exactly the navigation trace |
| Reserve.Iterations | reserve.py:88 | how many times `range(days)` runs: `days`, or none when `days` is not positive; used by Reserve.AdvanceOutcome |
| Reserve.FirstMissing | reserve.py:88-92 | the loop stops at the first iteration whose next-day control is missing, having found it on every earlier iteration |
| Reserve.DaysAdvanced | reserve.py:88-92 | how many next-day clicks the loop makes before it stops; specified by Reserve.FirstMissing and Reserve.AdvanceOutcome |
| Reserve.AdvanceSucceeds | reserve.py:85-103 | the date loop succeeds when it completes all its iterations; specified by Reserve.AdvanceOutcome |
| Reserve.NextDayClicks | reserve.py:92 | n iterations leave n next-day clicks in the log |
| Reserve.AdvanceTrace | reserve.py:85-103 | the date loop's actions: the next-day clicks made, then a quit if the control was missing; specified by Reserve.AdvanceOutcome |
| Reserve.AdvanceOutcome | reserve.py:85-103 | the date loop succeeds exactly when the control is found on every one of `days` iterations; then it makes exactly `days` clicks and does not quit; a miss at iteration k leaves exactly k clicks (not undone), then one quit; `days <= 0` succeeds with no clicks |
| Reserve.MoveDaysAhead | reserve.py:85-103 | the loop returns the date loop's success, logs exactly its trace, and leaves the session open exactly on success |
| Reserve.AttemptTrace | reserve.py:122-155 | the clicks of trying candidates in order until one's "Save" button appears; specified by Reserve.AttemptTraceNoQuit and Reserve.AttemptTraceShape |
| Reserve.AttemptTraceNoQuit | reserve.py:122-155 | trying slots never quits the session |
| Reserve.AttemptTraceShape | reserve.py:122-155 | the clicked slots are the candidates up to and including the first that confirms, and only that one is saved; with none confirming, every candidate is clicked once and nothing is saved |
| Reserve.TryPass | reserve.py:122-155 | one pass returns True exactly when some admitted slot confirms, and logs exactly the clicks of the admitted slots up to that one, plus its "Save" click |
| Reserve.ReserveCandidates | reserve.py:105-162 | the slots `reserve_court` tries, in order: none when a title does not parse; specified by Ranking.CandidatesArePermutation, Ranking.CandidatesOrder, Reserve.ReservedSlotIsFirstConfirmed and Reserve.UnreservedClicksEveryCandidate |
| Reserve.ReserveAttempts | reserve.py:122-155 | the clicks of trying the stage's candidates in order; specified by Reserve.ReservedSlotIsFirstConfirmed and Reserve.UnreservedClicksEveryCandidate |
| Reserve.ReserveTrace | reserve.py:105-162 | `reserve_court`'s actions: the clicks of its tries, then the quit; specified by Reserve.ReserveQuitsOnceAtEnd, Reserve.UnparsableTitleClicksNothing, Reserve.ReservedSlotIsFirstConfirmed and Reserve.UnreservedClicksEveryCandidate |
| Reserve.ReservePlan | reserve.py:139-162 | the second pass runs only when the first booked nothing; the stage's result is whether either pass booked; the session is quit after both |
| Reserve.ReserveCourt | reserve.py:105-162 | `reserve_court` returns or raises the stage's result, logs exactly the stage's trace, and ends with the session closed on every path |
| Reserve.ReserveQuitsOnceAtEnd | reserve.py:157-162 | the stage quits the session exactly once, as its last action |
| Reserve.ReserveResult | reserve.py:105-162 | how `reserve_court` ends: `ValueError` when a title does not parse, otherwise whether some candidate confirmed; specified by Reserve.ReserveTrueIff and Reserve.UnparsableTitleClicksNothing |
| Reserve.ReserveTrueIff | reserve.py:105-162 | the stage returns True exactly when every title parses and some open slot confirms; it raises `ValueError` exactly when some title does not parse; it returns False exactly when every title parses and no open slot confirms; with no open slots it returns False |
| Reserve.ReserveBooksIff | reserve.py:113-155 | once every title has parsed, the stage returns whether some open slot's "Save" button appears |
| Reserve.UnparsableTitleClicksNothing | reserve.py:114 | a title whose start does not parse means nothing is clicked, the stage raises instead of returning, and the only action is the quit |
| Reserve.ReservedSlotIsFirstConfirmed | reserve.py:122-155 | on a booking, the clicked slots are exactly the candidates up to the first that confirms, only that slot is saved, and nothing later is clicked |
| Reserve.UnreservedClicksEveryCandidate | reserve.py:140-162 | when nothing is booked, every candidate was clicked exactly once, then the session was quit |
| Reserve.RunBot | reserve.py:164-178 | `main` ends with the pipeline's outcome, logs exactly the pipeline's trace, and leaves the session closed |
| Reserve.RunTrace | reserve.py:164-178 | `main`'s actions: each stage's trace only after the previous stage succeeded; specified by Reserve.RunQuitsOnceAtEnd and Reserve.StagesRunInOrder |
| Reserve.Outcome | reserve.py:164-178 | how `main` ends, one value per final log message or the escaping error; specified by Reserve.RunReservesIff and Reserve.StagesRunInOrder |
| Reserve.RunQuitsOnceAtEnd | reserve.py:164-178 | on every path through `main` the session is quit exactly once, as the last action |
| Reserve.RunReservesIff | reserve.py:164-178 | a court is booked exactly when login and navigation succeed, the next-day control is found on all seven iterations, every title parses, and some open slot confirms |
| Reserve.StagesRunInOrder | reserve.py:164-178 | the booking stage runs exactly when login, navigation and the date loop all succeed, and the date loop is run with 7 days |

## Left out

- Browser I/O: WebDriver calls, waits and their timeouts, selectors, URLs and
  typed keys. Each lookup is a boolean oracle in `Reserve.Site`. The typed
  username and password are not modelled.
- Exceptions other than the ones the script handles: for example, a slot
  click that is intercepted, a stale element, or a driver that cannot start.
  The model assumes clicking a listed slot succeeds; only the "Save" button's
  wait can fail.
- The outer `except (TimeoutException, NoSuchElementException)` of
  `reserve_court` (reserve.py:158-159). Finding the slots returns a list and
  does not raise those errors, so in the model this branch is never taken.
- `time.sleep` pauses: they only take time.
- Loading credentials from `auth.json` and starting the driver at import
  time: file and process I/O.
- All logging: output only.
- Clock.ParseClock: models only what "%I:%M %p" accepts in the English
  locale with ASCII digits and whitespace. Other locales' AM/PM words,
  Unicode digits and whitespace, and `struct_time` fields other than hour and
  minute are not modelled. Comparing two keys therefore compares minutes
  since midnight.
- Text.Strip: strips ASCII whitespace only. Python's `str.strip()` also
  removes Unicode whitespace.
- The slots' elements are handles (`Slot.element`). Whether two listed
  slots are the same page element is not modelled.

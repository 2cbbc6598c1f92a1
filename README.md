# GoodreadsTBR_Deslegte, modelled in Dafny

The script reads a Goodreads "to-be-read" list page by page in a browser, then
searches De Slegte (a Dutch second-hand book shop) for every title and reports
the ones it has in stock. Almost everything it does is I/O: Selenium, `requests`
and BeautifulSoup. This project models the decisions it takes between those
calls, with the I/O replaced by inputs:

- `wrappers.dfy` — `Option`, for the missing meta tag, the missing attribute and
  the failed parse.
- `text.dfy` (module `Text`) — the Python string operations the decisions rest
  on: the substring test `needle in s`, `s.split(' ')`, `int(token)` and
  `s.strip()`, each with an independent definition or inverse it is proved
  against (`OccursAt`, `Join`, `ShowNat`, `IsSpace`).
- `deslegte.dfy` (module `Deslegte`) — `search_deslegte_book` from the moment the
  HTTP response is in: status 200, a `<meta name="description">` whose `content`
  contains "uitgaven gevonden" ("editions found"), and a first `' '`-separated
  token that reads as an integer greater than 0 (with 0 when `int` raises).
  Also the loop of `check_books_in_deslegte`, proved to compute an
  order-preserving filter.
- `goodreads.dfy` (module `Goodreads`) — the `while True` loop of
  `get_goodreads_to_read_list` over the sequence of things the browser observes,
  one per round: the wait for the title cells timed out, or the page loaded with
  its titles and a "next" control that was missing, or present with a `class`
  attribute and a click that did or did not go through. The loop is a two-state
  machine (`Fetching`, `Done`); the method is proved equal to a left fold of
  `Step`, and the fold is proved to return the titles of the pages up to the
  first page that does not advance.
- `checker.dfy` (module `Checker`) — the guards of `main`.

The browser is the input `browse: string -> seq<PageObservation>` (what the
loop sees at a URL, round by round) and the network the input
`fetch: string -> SearchResponse` (status code and meta description of the
search page for a title).

The model follows the code where a looser reading is tempting: success is
status exactly 200 (not any 2xx status), and the count is the text
before the first single space (not before the first run of whitespace), so a
content that starts with a space has an empty first token and counts 0.

## Model

| member | source | states |
|---|---|---|
| Text.StartsWithIff | GoodreadsTBR_Deslegte.py:84 | the character-by-character prefix test agrees with Dafny's sequence prefix |
| Text.Contains | GoodreadsTBR_Deslegte.py:84 | `needle in s`: an empty needle is always found, and a needle longer than `s` never; `ContainsIff` shows it holds exactly when the needle occurs at some index |
| Text.ContainsIff | GoodreadsTBR_Deslegte.py:84 | `Contains(s, needle)`, the model of `needle in s`, holds exactly when `needle` occurs at some index of `s` |
| Text.Split | GoodreadsTBR_Deslegte.py:87 | `s.split(sep)` always has at least one token and no token contains the separator |
| Text.JoinSplit | GoodreadsTBR_Deslegte.py:87 | joining the tokens of `s.split(sep)` with `sep` gives back `s` |
| Text.SplitJoin | GoodreadsTBR_Deslegte.py:87 | tokens free of the separator, joined and split again, come back unchanged |
| Text.SplitWithoutSep | GoodreadsTBR_Deslegte.py:87 | a string without the separator splits into itself alone |
| Text.SplitAfterToken | GoodreadsTBR_Deslegte.py:87 | the text before the first separator is the first token, and the rest splits on its own |
| Text.ParseInt | GoodreadsTBR_Deslegte.py:87-89 | `int(token)`: an accepted token is an optional `+` or `-` followed by one to 4300 digits (CPython's default `int_max_str_digits`), and only a `-` sign gives a negative value; `ParseShowNat` shows it reads back `str(n)` |
| Text.DigitsValueShowNat | GoodreadsTBR_Deslegte.py:87 | the decimal digits of `n` have the value `n` |
| Text.ParseShowNat | GoodreadsTBR_Deslegte.py:87-89 | `int` reads back the decimal form of `n`, also after a `+` or `-` sign, when it has at most 4300 digits; a longer one raises `ValueError` in every form |
| Text.DigitsValuePositive | GoodreadsTBR_Deslegte.py:87-91 | a digit string has a positive value exactly when one of its digits is not `0` |
| Text.ParsedCountPositive | GoodreadsTBR_Deslegte.py:86-91 | the parsed count, 0 on `ValueError`, is positive exactly when the token is a numeral without minus sign, of at most 4300 digits, that has a non-zero digit |
| Text.StripStart | GoodreadsTBR_Deslegte.py:111 | `lstrip` returns a suffix, removed only whitespace, and leaves no leading whitespace |
| Text.StripEnd | GoodreadsTBR_Deslegte.py:111 | `rstrip` returns a prefix, removed only whitespace, and leaves no trailing whitespace |
| Text.Strip | GoodreadsTBR_Deslegte.py:111-113 | the stripped URL is empty exactly when everything typed was whitespace (or nothing), and otherwise neither starts nor ends with whitespace |
| Deslegte.IsAvailable | GoodreadsTBR_Deslegte.py:74-95 | a status other than 200 gives false without looking at the description; true needs the meta tag, the phrase in its content and a positive count |
| Deslegte.EditionCount | GoodreadsTBR_Deslegte.py:86-89 | the count read from the content, 0 when `int` raises, is positive exactly when the first `' '`-token is a positive numeral |
| Deslegte.AvailableNeedsPhrase | GoodreadsTBR_Deslegte.py:74-95 | an available title had status 200, a meta description, and "uitgaven gevonden" occurring in its content (a missing `content` reads as `''`) |
| Deslegte.AvailableIffPositiveCount | GoodreadsTBR_Deslegte.py:84-94 | with status 200 and the phrase present, available exactly when the first `' '`-token is a positive numeral |
| Deslegte.EditionCountOfNumber | GoodreadsTBR_Deslegte.py:86-89 | a content "n ..." has edition count n, or 0 when n has more than 4300 digits |
| Deslegte.OverlongCountUnavailable | GoodreadsTBR_Deslegte.py:84-94 | a content whose first token is more than 4300 digits counts 0 and the title is not available |
| Deslegte.LeadingSpaceCountsZero | GoodreadsTBR_Deslegte.py:86-89 | a content starting with a space has an empty first token, which counts 0 rather than raising |
| Deslegte.NumberedDescriptionAvailable | GoodreadsTBR_Deslegte.py:84-94 | status 200 and content "n uitgaven gevonden..." give available exactly when n > 0 and n has at most 4300 digits |
| Deslegte.TwelveEditionsAvailable | GoodreadsTBR_Deslegte.py:84-94 | "12 uitgaven gevonden" is available |
| Deslegte.ZeroEditionsUnavailable | GoodreadsTBR_Deslegte.py:84-94 | "0 uitgaven gevonden" is not available |
| Deslegte.Filter | GoodreadsTBR_Deslegte.py:97-107 | the kept list is never longer than the input and every kept title passed the check |
| Deslegte.FilterAppend | GoodreadsTBR_Deslegte.py:98-107 | filtering `a + b` is filtering `a` then `b`: order is kept and a rejected title never affects those after it |
| Deslegte.FilterMembers | GoodreadsTBR_Deslegte.py:98-107 | a title is in the result exactly when it is in the input and available |
| Deslegte.FilterMultiplicity | GoodreadsTBR_Deslegte.py:98-107 | an available title keeps all its duplicates, an unavailable one none |
| Deslegte.FailedRequestSkipped | GoodreadsTBR_Deslegte.py:74-76 | a title whose request did not return 200 is not in the result, and the titles before and after it are kept as if it were absent |
| Deslegte.CheckBooks | GoodreadsTBR_Deslegte.py:97-107 | the loop returns exactly `Filter` of the list by the availability of each title's response |
| Goodreads.Step | GoodreadsTBR_Deslegte.py:22-58 | one round never removes collected titles, and after a stop it changes nothing |
| Goodreads.Run | GoodreadsTBR_Deslegte.py:22-58 | the loop as a fold of `Step`: the titles it holds are a prefix of all titles shown, and all of them while it is still fetching |
| Goodreads.DoneIsFinal | GoodreadsTBR_Deslegte.py:22-58 | once the loop has stopped, later observations do not change the result |
| Goodreads.RunWhileAdvancing | GoodreadsTBR_Deslegte.py:22-55 | while each of the first n pages has a "next" control that is not disabled and clicks, the loop keeps fetching and holds their titles in page order |
| Goodreads.RunStopsAtFirstTerminal | GoodreadsTBR_Deslegte.py:22-58 | if a page is the first to time out or have a missing, disabled or unclickable "next" control, the result is the titles of the pages before it and then its own (none when it timed out), whatever follows |
| Goodreads.StopAfter | GoodreadsTBR_Deslegte.py:44-58 | a page that does not advance, after pages that all did, stops the loop with all their titles |
| Goodreads.FetchingIffAllAdvance | GoodreadsTBR_Deslegte.py:22-58 | the loop is still running after a run of pages exactly when every one of them advanced |
| Goodreads.TitlesOnlyGrow | GoodreadsTBR_Deslegte.py:20-64 | the titles collected from some pages are a prefix of those collected from any longer run, and after a stop nothing is added or dropped |
| Goodreads.MissingNextGivesOnePage | GoodreadsTBR_Deslegte.py:44-58 | when the first page has no "next" control, exactly that page's titles are returned |
| Goodreads.GetToReadList | GoodreadsTBR_Deslegte.py:10-64 | the loop with its `break`s returns exactly the fold of `Step` over the observations |
| Checker.CheckList | GoodreadsTBR_Deslegte.py:109-132 | an all-whitespace input ends the run before extraction; an empty list ends it before checking; otherwise the available titles are the filter of the extracted list |

## Left out

- Selenium: starting Chrome, `driver.get`, `WebDriverWait`, the scroll and click scripts, `time.sleep` and `driver.quit` in the `finally` block; only what the loop observes each round is an input. An exception raised by `driver.get` itself is not modelled, nor one raised by `driver.page_source` (line 33) or the scroll script (line 40): those sit outside both inner `try` blocks, so they pass through the `finally`, `get_goodreads_to_read_list` returns nothing, `main` reports "An error occurred" and every title collected so far is dropped. The model has no observation for that path; its `TitlesOnlyGrow` speaks only of runs that end through one of the three `break`s.
- `requests.get` and the network: only the status code and the meta description of the response enter. A connection error raised by `requests.get` (which would reach `main`'s catch-all and end the batch) is not modelled.
- The network is the function `fetch` of the title, so two requests for the same title get the same response.
- BeautifulSoup: HTML parsing, the CSS selectors and `get_text(strip=True)`; the titles of each page and the meta `content` are inputs.
- `urllib.parse.quote_plus` and the search URL it builds (line 68), with its encode/decode round trip: that is a property of the library, not of this script.
- Text.ParseInt: a simplified `int()`: an optional `+` or `-` and one to 4300 ASCII digits. The limit is CPython's default `sys.get_int_max_str_digits()` (CPython 3.11 and later, and the 3.10.7, 3.9.14, 3.8.14 and 3.7.14 releases); an interpreter without the limit, or one where it was changed with `PYTHONINTMAXSTRDIGITS`, would accept longer numerals. Python also accepts surrounding whitespace other than `' '` (for example a tab or newline at the start or end of the first token), underscores between digits and non-ASCII decimal digits, which the model treats as a failed parse (count 0).
- The `class` attribute of the "next" control is always a string: the selector `a.next_page` only matches elements that have one.
- Goodreads.GetToReadList: the browser's observations are a finite sequence, so the model also reports the phase; `Fetching` means the observations ran out while every page had advanced, where the script would keep looping.
- Checker.CheckList: ignores that phase and treats observations that run out while `Fetching` as the end of the list, so it reports `NoBooksFound` or `Checked` where the script would still be paging and would not yet have reached `check_books_in_deslegte`.
- `print`, `input` and the numbered report of available titles (console I/O), and `main`'s `except Exception` reporting.

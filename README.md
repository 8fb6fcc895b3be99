# Amazon price extraction, modelled in Dafny

The repository tracks the price of an Amazon product page. It has two price
extractors that work independently:

- `fetch_amazon_price` in `src/scraper.py`, used by the web front end;
- `AmazonPriceTracker.fetch_price` / `extract_price_logic` in
  `src/tracker.py`, used by the standalone scheduler. Its `job` logs each
  price it gets and sends an alert when the price is at or below the target.

This project models what each extractor does once an HTTP response is in
hand. That covers:

- the status gate;
- the "blocked page" gates;
- the walk over four CSS selectors in priority order;
- the text cleanup of the first matching element;
- the number conversion and acceptance rule;
- the tracker's truthiness test;
- the log/notify decision of `job`.

It then proves what those steps guarantee, and where the two extractors
give different prices for the same page.

Modules:

- `Wrappers` (`wrappers.dfy`): `Option`.
- `Text` (`text.dfy`): the string operations the Python code relies on.
  - Substring search (`in` on strings) and left-to-right deletion of every
    occurrence (`str.replace(p, '')`).
  - Decimal digit strings and their values.
  - The first element of `re.findall(r'\d+', s)`.
  - `float(s)` on plain decimals, as an exact rational.
- `Page` (`page.dfy`): the parsed response.
  - `Response`: status, content length, decoded body (`response.text`), visible text, and the
    elements in document order.
  - `soup.find(tag, class_=cls)` as `FindFirst`, the index of the first
    matching element.
  - `Extraction`, the outcome of one fetch. Its cases `Price`, `Blocked`,
    `NotFound` and `HttpError` all collapse to `None` for the caller,
    except `Price`.
  - `FirstSome`, the "first selector that yields a value" combinator.
- `Scraper` (`scraper.dfy`): `fetch_amazon_price`.
  - Specification functions: `Extract`, `SelectorValue` and `Attempts`.
  - Methods `FetchAmazonPrice`, `WalkSelectors` and `TrySelector`. They
    follow the source's loop with its early returns and are proved equal
    to those functions.
- `Tracker` (`tracker.dfy`): `fetch_price`, `extract_price_logic` and `job`,
  in the same style. The specification functions are `Fetch`,
  `ParsedValue`, `ParseAttempts` and `CycleActions`.
- `Compare` (`compare.dfy`): lemmas that set the two extractors side by side.

The Python class `AmazonPriceTracker` holds only configuration (the URL,
the target price, the session and the log file name). The modelled
operations never update its fields. So `fetch_price` and `job` become
methods over a `Response` value and a `targetPrice` parameter, and `job`
returns the actions it takes (`LogPrice`, `Notify`) rather than performing
them.

Points where the code's behaviour is easy to misread:

- The block phrases of `fetch_amazon_price` (src/scraper.py:41) are matched
  case-sensitively. "robot" does not match "Robot".
- The floor "a price must exceed 100" (src/scraper.py:64) exists only in
  the scraper. The
  tracker accepts any number that parses. It only turns a parsed `0.0`
  into failure, through the truthiness test in `fetch_price`.
- The scraper deletes every period (src/scraper.py:57) before taking the
  first digit run. So
  an `a-offscreen` text "₹70,000.00" is read as 7000000, not as 70000.
  `Scraper.PaiseMerged` and `Compare.PaiseDisagree` state this.
- The tracker's cleanup (src/tracker.py:100-101) deletes the literal `â‚¹`,
  which is the rupee
  sign's UTF-8 bytes read as Windows-1252. It does not delete a real
  rupee sign `₹`. Text that carries one therefore never parses in the
  tracker and falls through to the next selector (`Tracker.RupeeBlocksParse`).

## Model

| member | source | states |
|---|---|---|
| Scraper.Extract | src/scraper.py:28-70 | the outcome of one fetch: `HttpError` for a non-200 status, `Blocked` for a small page without `₹` or a block phrase in the text, else the first accepted selector value or `NotFound`; its meaning is stated by StatusGate, SmallPageGate, BlockPrecedence, NoBlockPhrase, PriorityOrder and NotFoundWhenAllFallThrough |
| Scraper.LooksTruncated | src/scraper.py:33-34 | content under 10000 bytes and no `₹` in the body; stated by SmallPageGate |
| Scraper.BlockDetected | src/scraper.py:41 | some of the three phrases occurs in the visible text; stated by BlockPrecedence and NoBlockPhrase |
| Scraper.Clean | src/scraper.py:57 | the `.replace` chain deleting `₹`, `$`, `,` and `.`; stated by CleanCounts, CleanKeepsDigits and CleanUnchanged |
| Scraper.SelectorValue | src/scraper.py:54-65 | one selector's verdict: the first match's cleaned text, its first digit run, and the floor; stated by AcceptedIsFirstDigitRun, PriceTextValue and OnlyFirstMatchExamined |
| Scraper.FetchAmazonPrice | src/scraper.py:28-70 | the returned price is the `Price` case of `Extract`, the outcome of the status gate, the small-page gate, the block-phrase gate and the selector walk, and `None` in every other case |
| Scraper.WalkSelectors | src/scraper.py:53-70 | the loop returns the value of the first selector whose first match yields an accepted number, and `None` when none does |
| Scraper.TrySelector | src/scraper.py:54-65 | one pass of the loop body equals the selector's verdict: no match, no digit run, or a value at or below 100 all give `None`; otherwise the value of the first digit run of the cleaned text |
| Scraper.StatusGate | src/scraper.py:28-30 | any non-200 status gives `HttpError` with that status, whatever the page holds, and the caller sees `None` |
| Scraper.SmallPageGate | src/scraper.py:33-36 | a 200 response under 10000 bytes whose body has no `₹` is `Blocked`, whatever elements it holds |
| Scraper.BlockPrecedence | src/scraper.py:41-43 | past the first two gates, any of the three block phrases anywhere in the visible text gives `Blocked` |
| Scraper.NoBlockPhrase | src/scraper.py:41-43 | conversely, past the first two gates with no block phrase in the text, the outcome is a price or "not found", never `Blocked` |
| Scraper.PriceAboveFloor | src/scraper.py:64-65 | every price returned is above 100 |
| Scraper.AcceptedIsFirstDigitRun | src/scraper.py:56-65 | an accepted selector value comes from a first match and is the decimal value of the first maximal digit run of the cleaned text, and it exceeds 100 |
| Scraper.CleanCounts | src/scraper.py:57 | the cleanup removes every `₹`, `$`, `,` and `.` and keeps every other character as often as it occurs |
| Scraper.CleanKeepsDigits | src/scraper.py:57 | on text built only from digits, `₹`, `$`, `,` and `.` the cleanup leaves exactly the digits, in order |
| Scraper.PriceTextValue | src/scraper.py:56-65 | for such a price text with at least one digit, the selector's verdict is the value of all its digits read together, if that exceeds 100 |
| Scraper.PaiseMerged | src/scraper.py:57-65 | for a text `w.f` it is the value of the whole part's digits followed by the fraction digits, so the paise are merged into the number |
| Scraper.PriorityOrder | src/scraper.py:46-65 | past the gates the result is `Price(v)` exactly when some selector yields `v` and every earlier selector yields nothing |
| Scraper.NotFoundWhenAllFallThrough | src/scraper.py:53-70 | past the gates the result is "not found" exactly when every selector yields nothing |
| Scraper.OnlyFirstMatchExamined | src/scraper.py:54 | elements after a selector's first match never change that selector's verdict |
| Scraper.PageNumberRun | src/scraper.py:56-65 | a first match reading "Page 1 of 2" is left alone by the cleanup, its first digit run is "1", and the selector yields nothing because 1 is below the floor |
| Scraper.CleanUnchanged | src/scraper.py:57 | text without the four deleted characters is left unchanged |
| Text.Contains | src/scraper.py:41 | Python's `in` on strings, as a left-to-right search; stated by ContainsIff and MissingHeadNotContained |
| Text.RemoveAll | src/scraper.py:57 | `str.replace(pat, '')`, deleting non-overlapping occurrences left to right; stated by RemoveLeading, RemoveAllKeeps, RemoveCharCounts and RemoveAllAbsent |
| Text.FirstDigitRun | src/scraper.py:58-62 | `re.findall(r'\d+', s)[0]`, `None` for an empty list; stated by FirstDigitRunSpec and FirstRunUnique |
| Text.ParseDecimal | src/tracker.py:106 | `float(s)` on plain decimals, `None` for `ValueError`; stated by ParseDecimalSpec, ParseWhole and ParseFractional |
| Text.ContainsIff | src/scraper.py:41 | substring search succeeds exactly when the pattern occurs at some position |
| Text.MissingHeadNotContained | src/tracker.py:101 | a text lacking the first character of a non-empty pattern does not contain it |
| Text.RemoveAllKeeps | src/tracker.py:101 | deleting every occurrence of a pattern keeps, as often as it occurs, each character that is not in the pattern |
| Text.RemoveCharCounts | src/scraper.py:57 | deleting a one-character pattern removes exactly that character and keeps all others with their counts |
| Text.RemoveLeading | src/tracker.py:101 | an occurrence of the pattern at the front is deleted and the scan continues after it |
| Text.RemoveAllAbsent | src/tracker.py:101 | deleting a pattern that does not occur changes nothing |
| Text.RemoveCharKeepsDigits | src/tracker.py:101 | on text of digits and one non-digit character, deleting that character leaves exactly the digits |
| Text.KeepDigitsConcat | src/scraper.py:57 | keeping the digits of two joined texts is keeping the digits of each, joined |
| Text.DigitsRoundTrip | src/scraper.py:62-63 | reading back the decimal rendering of a number gives the number |
| Text.DigitsValueConcat | src/scraper.py:62-63 | the value of two digit strings joined is the first shifted by the length of the second, plus the second |
| Text.FirstDigitRunSpec | src/scraper.py:58-62 | `findall(r'\d+')[0]` finds nothing exactly when the text has no digit, and otherwise returns the first maximal run of digits |
| Text.FirstRunUnique | src/scraper.py:58-62 | the first maximal digit run of a text is unique |
| Text.FirstRunInContext | src/scraper.py:58-62 | a digit run preceded by no digit and followed by a non-digit or the end is the first run |
| Text.FirstRunOfDigits | src/scraper.py:58-62 | on a non-empty digit string the first run is the whole string |
| Text.ParseDecimalSpec | src/tracker.py:106 | `float` succeeds exactly on plain decimals, gives a non-negative value, and accepts only digits and the point |
| Text.ParseWhole | src/tracker.py:106 | a non-empty digit string parses to its value |
| Text.ParseFractional | src/tracker.py:106 | digits, a point and digits parse to the exact decimal value |
| Text.DecimalParts | src/tracker.py:106 | that decimal value is the whole part plus the fraction digits over a power of ten |
| Page.Matches | src/scraper.py:54 | `find(tag, class_=cls)` matches an element with that tag having `cls` among its classes; used by FindFirst, whose ensures state first-match order |
| Page.FindFirst | src/scraper.py:54 | the result is the index of the first matching element in document order, or `None` when no element matches |
| Page.FindFirstIgnoresLater | src/scraper.py:54 | appending elements after a match does not move the first match |
| Page.FirstSomeIff | src/scraper.py:53-65 | the first-present value is `v` exactly when some entry is `v` and every earlier entry is absent |
| Page.FirstSomeNone | src/scraper.py:69-70 | the first-present value is absent exactly when every entry is absent |
| Page.Extraction.ToOption | src/tracker.py:68-73 | only a `Price` outcome reaches the caller as a value; the others become `None` |
| Tracker.Fetch | src/tracker.py:53-73 | the outcome of one fetch: `HttpError` for a non-200 status, `Blocked` for the CAPTCHA phrase, else the first parsed value when truthy, or `NotFound`; stated by StatusGate, CaptchaGate, PriorityOrder, ZeroIsFailure and PricePositive |
| Tracker.Truthy | src/tracker.py:68 | Python truthiness of the price: `None` and `0.0` are false; stated by ZeroIsFailure and CycleActions |
| Tracker.CleanText | src/tracker.py:101 | the `.replace` chain deleting the currency literal, `$` and `,`; stated by LiteralPrefixCleaned, CleanTextEffect, CleanTextUnchanged and CleanCommaDecimal |
| Tracker.ParsedValue | src/tracker.py:95-109 | one selector's verdict: `float` of the first match's cleaned text; stated by RupeeTextFallsThrough and FractionKept |
| Tracker.FetchPrice | src/tracker.py:53-73 | the returned price is the `Price` case of `Fetch`: status gate, CAPTCHA gate, the selector walk, and the truthiness test |
| Tracker.ExtractPriceLogic | src/tracker.py:79-111 | the result is the first selector's parsed value, in the tracker's own selector order |
| Tracker.WalkSelectors | src/tracker.py:94-111 | the loop returns the first selector whose first match parses, and `None` when none does |
| Tracker.TrySelector | src/tracker.py:95-109 | one pass of the loop body equals the selector's verdict: no match gives `None`; otherwise `float` of the cleaned text on the plain-decimal subset of `float`, `None` standing for `ValueError` |
| Tracker.CleanTextEffect | src/tracker.py:101 | the cleanup removes every `$` and `,` and keeps, as often as it occurs, every character outside those and the currency literal, the period and a real `₹` among them |
| Tracker.RupeeBlocksParse | src/tracker.py:100-106 | a text carrying a real rupee sign never parses after the cleanup |
| Tracker.RupeeTextFallsThrough | src/tracker.py:100-109 | so a first match whose text carries a real rupee sign yields nothing for its selector |
| Tracker.StatusGate | src/tracker.py:53-55 | any non-200 status gives `HttpError` with that status, whatever the page holds |
| Tracker.CaptchaGate | src/tracker.py:60-63 | the CAPTCHA phrase anywhere in the visible text gives `Blocked`, whatever elements the page holds |
| Tracker.PriorityOrder | src/tracker.py:83-107 | past the gates the result is `Price(v)` exactly when some selector parses to a non-zero `v` and every earlier one parses to nothing |
| Tracker.NoneWhenNothingParses | src/tracker.py:94-111 | `extract_price_logic` gives `None` exactly when no selector's text parses |
| Tracker.ZeroIsFailure | src/tracker.py:66-73 | a parsed `0.0` is falsy, so `fetch_price` reports "not found" and returns `None` |
| Tracker.PricePositive | src/tracker.py:66-73 | every price `fetch_price` returns is positive, given that `float` is modelled on unsigned plain decimals only |
| Tracker.JunkFallsThrough | src/tracker.py:103-109 | a text such as "Page 1 of 2" raises `ValueError` after the cleanup |
| Tracker.CycleActions | src/tracker.py:157-165 | a true price is logged exactly once, first, and is notified exactly when it is at or below the target; a false one gives no action |
| Tracker.Job | src/tracker.py:153-165 | one cycle's actions are the decision on the price `fetch_price` gives for the response |
| Tracker.JobDecision | src/tracker.py:153-165 | a fetched price is logged, and notified exactly when at or below the target; any other outcome skips the cycle |
| Tracker.CleanTextUnchanged | src/tracker.py:101 | text without the literal's lead character, `$` and `,` is left unchanged |
| Tracker.CleanCommaDecimal | src/tracker.py:100-101 | a whole part of digits and commas, a period and digits loses only its commas |
| Tracker.FractionKept | src/tracker.py:100-106 | such a text is read with its fraction: the whole part's digits plus the fraction digits over a power of ten |
| Tracker.LiteralPrefixCleaned | src/tracker.py:100-101 | the currency literal in front of a whole part of digits and commas, a period and digits is deleted along with the commas (`"â‚¹70,000.00"` becomes `"70000.00"`) |
| Tracker.LiteralPrefixParsed | src/tracker.py:100-106 | such a text is read with its fraction, so `"â‚¹70,000.00"` gives 70000.0 |
| Compare.SelectorListsSwapLastTwo | src/tracker.py:83-92 | the two selector lists agree on the first two selectors and swap the last two |
| Compare.DigitTextAgrees | src/tracker.py:94-107 | on a plain digit text both extractors read the same number; the scraper also applies its floor |
| Compare.SwappedPairDisagrees | src/tracker.py:89-91 | with nothing under the first two selectors and amounts under both `priceToPay` and `apexPriceToPay`, the scraper takes the first and the tracker the second |
| Compare.PaiseDisagree | src/tracker.py:100-106 | for "digits-and-commas.paise" the tracker's value is the scraper's merged number divided by 10 to the number of paise digits |
| Compare.RupeeSignDisagrees | src/tracker.py:101 | text with a real rupee sign is read by the scraper and falls through in the tracker |

## Left out

- The HTTP request goes. That covers the session, the headers, the timeout,
  the random sleep and the `except` catch-alls that turn exceptions into
  `None`. A `Response` value stands for what came back.
- HTML parsing goes. BeautifulSoup is replaced by a `Response` that
  already holds the visible text and the elements in document order. An
  element's text is `get_text(strip=True)`, and a found element is always
  truthy.
- FetchAmazonPrice: the final `.strip()` of the cleanup at
  src/scraper.py:57 is not modelled. It cannot change the first digit run.
- Text.FirstDigitRunSpec: `\d` is modelled as the ASCII digits only. Python
  also matches other Unicode decimal digits.
- Text.ParseDecimalSpec: `float` is modelled on plain decimals only. Signs,
  exponents, underscores, surrounding whitespace, `inf` and `nan` are
  taken as `ValueError`. Values are exact rationals rather than binary
  floats.
- Tracker.PricePositive: holds only because signs are not modelled. In the
  source an element text "-$500" cleans to "-500", `float` gives -500.0,
  which is truthy, so `fetch_price` returns it and `job` notifies.
- FetchAmazonPrice: the price is returned as the natural number whose
  `float` the source returns. Rounding of very long digit runs is not
  modelled.
- Printing goes, and so does `save_debug_html`.
- The CSV append of `log_data` and the SMTP mail of `send_notification`
  are left out. They appear only as the actions `LogPrice` and `Notify`.
- `run_scheduler`'s schedule loop is left out.
- The tracker's `__init__` reads its settings from the environment. The
  target price is instead a parameter of `Job`.
- src/main.py, src/models.py and src/ui.py are not part of this model.

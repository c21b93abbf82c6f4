# Footer scraper, modelled in Dafny

`footer_scraper.py` fetches web pages and collects the text in each page's
footer. It has two parts:

- `scrape_footer(url)` takes the texts of the `div` elements under the page's
  first `<footer>`. It cuts each non-empty text at line feeds and then at
  carriage returns, strips every piece, and keeps each stripped piece longer
  than one character the first time it appears.
- `collect_footers(url_list)` calls `scrape_footer` for every URL in order.
  It records each result in a dictionary, skips a URL whose scrape raises
  `AttributeError`, and lets every other exception escape.

The model has four modules:

- `Wrappers` (`wrappers.dfy`) holds the `Option` type that stands for Python's
  `None`.
- `PyStr` (`py_str.dfy`) defines the Python string builtins the code relies on:
  - `IsSpace` is the per-character whitespace set that `str.strip()` removes;
  - `str.strip()` as `Strip`;
  - `str.split(sep)` as `Split`, with `Join` as its inverse.
- `FooterScraper` (`footer_scraper.dfy`) models the two functions:
  - `ScrapeFooter` keeps the source's three loops and list appends. The
    loop over the divs is its own. It calls `AbsorbLines` for the loop over
    a div's lines, and that calls `AbsorbPieces` for the loop over a line's
    carriage-return pieces. Each loop method is proved against the
    specification function `Absorb`, and `ScrapeFooter` is proved equal to
    the specification function `Fragments`.
  - `CollectFooters` keeps the source's loop and dictionary updates. It is
    proved equal to the specification function `Collect`.
  - The lemmas state what the source promises about both functions.
- `FooterScenarios` (`scenarios.dfy`) works through two concrete footers.

The fetched and parsed page is an input of type `Option<seq<string>>`:

- `None` stands for a page without a `<footer>`. There, `footer.find_all`
  raises `AttributeError`, which the model returns as `NoFooter`.
- `Some(divs)` gives the footer's div texts in document order.

Inside `collect_footers`, the outcome of each scrape is an oracle
`scrape(i, url): ScrapeOutcome`, with outcomes `Scraped(list)`, `NoFooter` or
`OtherFault`. The oracle is indexed by the call number, so one URL listed
twice can fare differently on each call. The Python dictionary is a `Dict`:
the keys in insertion order beside a `map`. `dict.update` on an existing key
keeps that key's place, as Python does.

The code tests only that the raw div text is non-empty
(footer_scraper.py:38); `EmptyTextAddsNothing` shows this test never changes
the result.

## Model

| member | source | states |
|---|---|---|
| `PyStr.Strip` | footer_scraper.py:41 | the result has no whitespace at either end and is no longer than the input |
| `PyStr.StripIsInfix` | footer_scraper.py:41 | the result is a contiguous slice of the input, and everything cut off on either side is whitespace |
| `PyStr.TrimStartSuffix` | footer_scraper.py:41 | what removing the leading whitespace keeps is a tail of the input |
| `PyStr.StripTrimmed` | footer_scraper.py:46-48 | a string with no whitespace at either end is its own strip |
| `PyStr.StripIdempotent` | footer_scraper.py:46-48 | stripping twice gives the same as stripping once |
| `PyStr.StripTrailingSpace` | footer_scraper.py:41 | a trailing whitespace character, such as a line feed, is stripped off a trimmed non-empty text |
| `PyStr.Split` | footer_scraper.py:42 | splitting always yields at least one piece (`"".split(sep) == [""]`), and no piece contains the separator |
| `PyStr.JoinSplit` | footer_scraper.py:42-44 | joining the pieces with the separator gives back the original string |
| `PyStr.SplitJoin` | footer_scraper.py:42-44 | splitting a join of separator-free pieces (at least one) gives back exactly those pieces |
| `PyStr.SplitNoSep` | footer_scraper.py:42-44 | a string without the separator splits into itself alone |
| `FooterScraper.Add` | footer_scraper.py:46-48 | one innermost step only appends, and appends at most one string |
| `FooterScraper.AddNew` | footer_scraper.py:46-48 | a trimmed string longer than one character that is not yet listed is appended |
| `FooterScraper.Absorb` | footer_scraper.py:45-48 | running the innermost step over a piece sequence only extends the list, by at most one entry per piece |
| `FooterScraper.AbsorbClean` | footer_scraper.py:46-48 | a clean list (distinct entries, each trimmed and longer than one character) stays clean |
| `FooterScraper.AbsorbMembership` | footer_scraper.py:45-48 | after the pieces are processed, a string is listed if and only if it was listed before, or it is the strip of some piece and longer than one character |
| `FooterScraper.AbsorbFresh` | footer_scraper.py:45-48 | pieces that are distinct, trimmed, longer than one character and new are appended verbatim and in order |
| `FooterScraper.SplitEach` | footer_scraper.py:43-44 | cutting every line at the separator yields at least one piece per line, and no piece contains the separator |
| `FooterScraper.SplitEachMembership` | footer_scraper.py:42-45 | a piece comes from cutting the lines at the separator if and only if it is a piece of one of the lines |
| `FooterScraper.Pieces` | footer_scraper.py:38-44 | a div text offers no piece exactly when it is empty, which is the test on line 38; a non-empty text offers at least one piece, and no piece holds a carriage return |
| `FooterScraper.PiecesMembership` | footer_scraper.py:38-45 | a piece of a div text comes from a non-empty text: it is a carriage-return piece of a line-feed line of the stripped text, and every such piece counts |
| `FooterScraper.PiecesOfSingleLine` | footer_scraper.py:38-45 | a trimmed, non-empty text without line breaks offers exactly itself |
| `FooterScraper.Fragments` | footer_scraper.py:35-50 | the list the div loop returns, defined div by div as `Absorb` of each div's `Pieces`; it has no contract of its own, and `FragmentsClean`, `FragmentsMembership` and `FragmentsGrow` state its properties |
| `FooterScraper.FragmentsClean` | footer_scraper.py:35-50 | the returned list has no duplicates, and every entry is longer than one character and equal to its own strip |
| `FooterScraper.FragmentsMembership` | footer_scraper.py:36-48 | soundness and completeness: a string is in the returned list if and only if some div offers a piece whose strip is that string and is longer than one character |
| `FooterScraper.FragmentsGrow` | footer_scraper.py:35-48 | the list after the first k divs is a prefix of the final list, so entries stay in first-seen order |
| `FooterScraper.EmptyTextAddsNothing` | footer_scraper.py:38 | an empty div text, had it not been skipped, would add nothing, so the test on line 38 does not change the result |
| `FooterScraper.AbsorbPieces` | footer_scraper.py:45-48 | the innermost loop leaves the list equal to `Absorb` of the list it started with and the line's carriage-return pieces, taken in order |
| `FooterScraper.AbsorbLines` | footer_scraper.py:43-48 | the line loop leaves the list equal to `Absorb` of the list it started with and the carriage-return pieces of all the lines, line by line in order |
| `FooterScraper.ScrapeFooter` | footer_scraper.py:31-50 | a page without a footer ends in `NoFooter` (`AttributeError`); otherwise the list the three loops build equals `Fragments` of the div texts |
| `FooterScraper.Dict.Update` | footer_scraper.py:67 | `update({url: f})` sets the entry and keeps the dictionary consistent: keys are distinct and are exactly the mapped URLs; a new key goes last and an existing key keeps its place |
| `FooterScraper.UrlsOf` | footer_scraper.py:60-61 | a list argument is used as it is, and any other argument is wrapped in a one-element list |
| `FooterScraper.Collect` | footer_scraper.py:63-73 | the result is a consistent dictionary unless an exception other than `AttributeError` escapes; that happens exactly when some call ends in such a fault, and it is reported at the first such call |
| `FooterScraper.CollectKeys` | footer_scraper.py:64-71 | when no fault escapes, a URL is a key if and only if at least one of its calls succeeded; a URL whose calls all raise `AttributeError` is absent, and every key is an input URL |
| `FooterScraper.CollectLast` | footer_scraper.py:64-71 | a URL maps to the list from its last successful call; a later `AttributeError` leaves that entry alone |
| `FooterScraper.CollectRaised` | footer_scraper.py:64-71 | an exception other than `AttributeError` on call `i`, with none before it, ends the whole call there: the URLs after it are never scraped |
| `FooterScraper.CollectKeysGrow` | footer_scraper.py:63-67 | the keys after the first k URLs are a prefix of the final keys, so keys appear in first-insertion order |
| `FooterScraper.CollectFooters` | footer_scraper.py:53-73 | the loop's result equals `Collect` of the URL list, and a single non-list argument behaves as the one-element list holding it |
| `FooterScenarios.CarriageReturnScenario` | footer_scraper.py:42-48 | the div `"Contact\rSales\rTerms"` yields `["Contact", "Sales", "Terms"]` |
| `FooterScenarios.PiecesWithLineFeed` | footer_scraper.py:38-45 | a trimmed line followed by a line feed offers only the line itself, because the strip removes the line feed |
| `FooterScenarios.RepeatedLine` | footer_scraper.py:38-48 | a trimmed single line and the same line followed by a line feed yield one fragment |
| `FooterScenarios.DuplicateScenario` | footer_scraper.py:38-48 | the divs `"© 2024 Example\n"` and `"© 2024 Example"` yield the single fragment `"© 2024 Example"` |

## Left out

- The HTTP fetch through `requests.Session` (footer_scraper.py:27-28) is network I/O. A transport error appears only as an `OtherFault` outcome of the scrape oracle.
- HTML parsing and the `find`/`find_all` queries of BeautifulSoup (footer_scraper.py:30-33) belong to a foreign library. They are replaced by the input `Option<seq<string>>` of div texts. How a nested div's `.text` repeats its descendants' text is left to whoever builds that input.
- The two `replace` assignments (footer_scraper.py:39-40) are dead: line 41 overwrites their result. They are not modelled.
- `CollectFooters` does not call `ScrapeFooter`. It takes the per-call outcome from an oracle of the same `ScrapeOutcome` type, so fetching and parsing stay abstract.
- The console output (footer_scraper.py:68, 70-71) is not modelled.
- The `__main__` block is not modelled: the demo URL list, the JSON dump and the file write (footer_scraper.py:76-90).
- When an exception other than `AttributeError` escapes, the model records only the index of the call (`Raised`). It does not record the exception itself, and the partial dictionary is dropped, as it is in Python.
- `UrlArg` tells a list apart from a single string URL only. Other non-list values that Python would wrap (a tuple, say) are not modelled.
- Strings are sequences of Unicode scalar values. A Python string holding a lone surrogate cannot be represented.

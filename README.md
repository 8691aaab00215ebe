# GoFundMe amount extractor, modelled in Dafny

The scraper fetches a GoFundMe page, picks out the elements that carry the
headline amount, and pulls a dollar figure out of each element's text. It
applies the regular expression `\$(.*?)r` with `re.IGNORECASE` to each text.
It takes group 1, strips surrounding whitespace, deletes every comma and
collects the results in document order. `main` returns the first result. If
there is none, it prints a diagnostic saying the page may be rendered by
JavaScript.

This project models that extraction and that choice, starting from the list
of element texts:

- `wrappers.dfy`: `Option`.
- `python_text.dfy`: Python's `str.strip()` with no argument, using the full
  CPython whitespace table rather than only ASCII, and `str.replace(",", "")`.
- `dollar_pattern.dfy`: `pattern.search(text)` for the pattern above, as a
  scan over start positions with a lazy run to the first `r` or `R`.
  - `.` does not cross a line feed.
  - IGNORECASE affects only the literal `r`.
- `scraper.dfy`:
  - `extract_dollar_values` as a method with the source's loop, proved equal
    to the function `ExtractAll`;
  - `ExtractAll`'s relation to the input texts, stated as lemmas;
  - `main`'s selection, as a function returning the value and the printed
    lines.
- `scraper_cases.dfy`: concrete texts and what they give, such as
  `"$5,342 raised"` giving `"5342"`.

Two consequences of the code are worth stating:
- The docstring of `extract_dollar_values` speaks of numbers, but the code
  keeps every character of the run except commas and outer whitespace, so
  `"$12 USD r"` gives `"12 USD"`.
- Because stripping happens before comma removal, whitespace shielded by a
  comma survives: `"$, 5r"` gives `" 5"` (`ScraperCases.StripBeforeCommas`).

## Model

| member | source | states |
|---|---|---|
| PythonText.StripStart | scripts/gofundme_scraper.py:59 | the result is a suffix of the input that does not start with whitespace, and everything dropped is whitespace |
| PythonText.StripEnd | scripts/gofundme_scraper.py:59 | the result is a prefix of the input that does not end with whitespace, and everything dropped is whitespace |
| PythonText.Strip | scripts/gofundme_scraper.py:59 | `strip()` gives no longer a string that neither starts nor ends with whitespace |
| PythonText.StripIsInfix | scripts/gofundme_scraper.py:59 | `strip()` gives an infix `s[a..b]` of its input with only whitespace before `a` and from `b` on |
| PythonText.StripUnique | scripts/gofundme_scraper.py:59 | any infix framed by whitespace that neither starts nor ends with whitespace is exactly what `strip()` returns |
| PythonText.StripIdempotent | scripts/gofundme_scraper.py:59 | stripping twice is stripping once |
| PythonText.StripOnlyDrops | scripts/gofundme_scraper.py:59 | `strip()` keeps no character more often than the input has it |
| PythonText.RemoveCommas | scripts/gofundme_scraper.py:59 | `replace(",", "")` leaves no comma and never lengthens the string |
| PythonText.RemoveCommasKeepsOthers | scripts/gofundme_scraper.py:59 | comma removal keeps every other character exactly as often as it occurs |
| PythonText.RemoveCommasAppend | scripts/gofundme_scraper.py:59 | comma removal works piecewise: on a concatenation it is the two results concatenated, so the kept characters stay in order |
| PythonText.RemoveCommasNoop | scripts/gofundme_scraper.py:59 | a string without commas is unchanged |
| DollarPattern.RunEnd | scripts/gofundme_scraper.py:52 | the lazy run `(.*?)r` started at `k` ends inside the text, at or after `k` |
| DollarPattern.RunEndSpec | scripts/gofundme_scraper.py:52 | the run ends at the first `r`/`R` from `k`, with no line feed before it; when it fails, every `r`/`R` after `k` has a line feed before it |
| DollarPattern.SearchFrom | scripts/gofundme_scraper.py:52-56 | a match found from start position `i` has its `$` at or after `i` and its terminator after the `$`, inside the text |
| DollarPattern.SearchFromSpec | scripts/gofundme_scraper.py:52-56 | the match found from `i` is at the first `$` from `i` whose run closes on its line, and ends at that run's first `r`/`R`; no match means no `$` from `i` on closes |
| DollarPattern.Search | scripts/gofundme_scraper.py:56 | a match has its `$` before its terminator, both inside the text |
| DollarPattern.SearchSpec | scripts/gofundme_scraper.py:52-56 | `pattern.search` matches exactly when some `$` has an `r`/`R` after it on its line; the match is the leftmost such `$`, and its run holds no `r`, `R` or line feed |
| DollarPattern.Group | scripts/gofundme_scraper.py:56-59 | group 1 exists exactly when the text matches, and holds no `r`, `R` or line feed |
| DollarPattern.SearchUnique | scripts/gofundme_scraper.py:52-56 | the leftmost closed `$` together with the first `r`/`R` after it is exactly the match the search returns |
| DollarPattern.SearchIgnoresTerminatorCase | scripts/gofundme_scraper.py:52 | texts that differ only in the case of `r` give the same match and the same group |
| Scraper.ExtractValue | scripts/gofundme_scraper.py:56-60 | a text yields a value exactly when it matches, and the value holds no comma |
| Scraper.ExtractValueFromGroup | scripts/gofundme_scraper.py:59 | the value holds no character more often than the captured run, hence no `r`, `R` or line feed |
| Scraper.ExtractAll | scripts/gofundme_scraper.py:54-61 | the result list is no longer than the list of texts, and no entry holds a comma |
| Scraper.ExtractAllFromSources | scripts/gofundme_scraper.py:54-61 | entry `k` is the value of text `Sources[k]`; sources strictly increase (document order is kept), and a text is a source exactly when it matches |
| Scraper.ExtractAllAppend | scripts/gofundme_scraper.py:55-60 | the texts are processed independently: extracting from a concatenation gives the two results concatenated |
| Scraper.ExtractDollarValues | scripts/gofundme_scraper.py:54-61 | the loop over the texts builds exactly the list `ExtractAll` describes |
| Scraper.ExtractTwice | scripts/gofundme_scraper.py:45-61 | two extractions from the same texts give identical lists |
| Scraper.MainResult | scripts/gofundme_scraper.py:66-72 | `main` returns a value exactly when some text matches, and prints the diagnostic exactly when none does |
| Scraper.MainReturnsFirstMatch | scripts/gofundme_scraper.py:67-68 | the value `main` returns is the one extracted from the first matching text |
| ScraperCases.RaisedTotal | scripts/gofundme_scraper.py:51-60 | `"$5,342 raised"` gives `"5342"`, and the one-text list gives `["5342"]` |
| ScraperCases.ShortestRun | scripts/gofundme_scraper.py:52 | `"$1,000,000 r"` followed by anything gives `"1000000"`, so the goal amount in `"$1,000,000 raised of $2,000,000 goal"` is never reached |
| ScraperCases.NoDollar | scripts/gofundme_scraper.py:56-72 | a text without `$` contributes nothing, and alone it makes `main` print the diagnostic and return no value |
| ScraperCases.UpperCaseTerminator | scripts/gofundme_scraper.py:52 | `"$12 R"` gives `"12"` |
| ScraperCases.StripBeforeCommas | scripts/gofundme_scraper.py:59 | `"$, 5r"` gives `" 5"`: the space shielded by the comma survives |
| ScraperCases.UnclosedDollarSkipped | scripts/gofundme_scraper.py:56 | in `"$5\n$7r"` the first `$` has no `r` on its line and is passed over, giving `"7"` |
| ScraperCases.NoElements | scripts/gofundme_scraper.py:67-72 | with no element texts at all, `main` prints the diagnostic and returns no value |

## Left out

- `get_session` and its retry and header configuration (scripts/gofundme_scraper.py:13-32): network client setup inside `requests` and urllib3.
- `fetch_html` (scripts/gofundme_scraper.py:35-42): an HTTP GET, the status check and a 0.3 second sleep; this is I/O and timing.
- The HTML parsing and CSS-class selection with BeautifulSoup, and `get_text(strip=True)` (scripts/gofundme_scraper.py:47-49): a foreign library. The model takes the resulting list of texts as its input.
- Printing: the diagnostic of line 72 is returned as the list of printed lines in `MainOutcome`, not written to standard output. The module-level `print(result)` of line 78 is not modelled.
- The regular-expression engine is modelled only for this one pattern, not in general.
- Strings are sequences of Unicode scalar values, so Python strings holding lone surrogates (U+D800 to U+DFFF) are outside the model. Python's `str.isspace()` is written out as the CPython whitespace table, not derived from the Unicode database.

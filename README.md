# Insight dashboard query core, in Dafny

The insight dashboard's backend serves a read-only query API over one
collection of "insight" records. These are market-intelligence entries tagged
with topic, sector, region, country, city, source and start/end year. Two
small stateless components hold all of its decision logic. This project
models both and proves what they promise.

- **Filter compiler** (`GET /api/data`). It walks nine recognised field
  names in a fixed order. Each field whose query parameter was supplied with
  a non-empty value becomes an exact-match constraint. The value is copied
  as it is. The source builds the query by updating a dictionary in a loop,
  so the model is a method with a `for` loop and its invariants
  (`FilterCompiler.CompileQuery`).
- **Distinct-value normaliser** (`/api/topics`, `/api/countries`,
  `/api/regions`, `/api/years`). String mode drops `None` and blank values,
  keeps the rest untrimmed and sorts them by code point. Year mode keeps a
  value when its text, stripped, is all digits. It parses those values,
  merges equal years and sorts them numerically. The source writes these as
  comprehensions fed to `sorted`, so the model uses functions and lemmas
  (`Normalizer`).
- **Country scoping**. A non-empty `topic` parameter scopes the country
  lookup by that exact topic. Otherwise the lookup is unscoped
  (`Endpoints.CountryScope`).

Supporting modules:

- `Text` models Python's `str.strip()`, `str.isdigit()`, `str(int)` and
  `int(str)`. Whitespace is the set of code points CPython's `str.isspace()`
  accepts.
- `Collation` models Python's default `<` on strings.
- `Sorting` holds the two `sorted` uses. Each has a lemma saying the sorted
  arrangement is unique, so the model's insertion sorts give the same result
  as Python's sort.

The store is not modelled. The model receives the list a `distinct` call
returns as a plain input sequence. For countries it receives a function from
the chosen scope to that list.

`backend/app.py:41` only tests `t.strip()` and returns `t` itself, so the
model returns string values untrimmed. The model does not assume that
`distinct` returns each value once: a value that occurs twice in the input
occurs twice in the string-mode output, as `sorted([...])` does.

In year mode the filter tests the stripped text, but `int()` parses the
unstripped `str(y)`. `int()` skips less whitespace than `strip()` removes:
the ASCII information separators U+001C to U+001F count as whitespace for
`strip()` but not for `int()`. A stored year such as `"\x1c2020"` therefore
passes the filter and then raises `ValueError`, and so does a digit string
longer than CPython's 4300-digit limit. The model carries that failure
through: `Normalizer.YearOf` has three outcomes, and `Normalizer.CleanYears`
is `None` exactly when the request would fail.

## Model

| member | source | states |
|---|---|---|
| `FilterCompiler.Fields` | backend/app.py:25 | The nine recognised field names, in the order the loop visits them. |
| `FilterCompiler.CompileQuery` | backend/app.py:24-30 | A key is in the query exactly when it is one of the nine recognised fields and its parameter was supplied non-empty. Its value is the parameter text unchanged. With no such parameter the query is empty and matches every record. Other parameters never appear. |
| `FilterCompiler.QueryDetermined` | backend/app.py:24-30 | The contract of the compiler fixes the query, so compiling the same parameters twice gives the same query. |
| `FilterCompiler.ExampleQuery` | backend/app.py:20-30 | `?topic=oil&country=India&page=2&city=` compiles to exactly `{topic: oil, country: India}`. The unknown `page` and the empty `city` are dropped. |
| `Normalizer.Kept` | backend/app.py:41 | The filter `t and t.strip()`. Each non-blank string occurs in the kept list as often as among the raw values. `None` and blank strings never occur. |
| `Normalizer.CleanStrings` | backend/app.py:41 | The topics result is sorted by code point. Each non-blank raw string occurs in it as often as in the input, untrimmed. Blank strings and `None` do not occur. |
| `Normalizer.CleanStringsFromInput` | backend/app.py:55 | Every country returned was among the raw values exactly as stored. It is neither empty nor blank. |
| `Normalizer.CleanStringsComplete` | backend/app.py:64 | Every raw region that passes the filter appears in the result. |
| `Normalizer.CleanStringsUnique` | backend/app.py:41 | The result is the only sorted list with those occurrence counts. It is therefore independent of the sorting algorithm. |
| `Normalizer.WhitespaceVariantsKept` | backend/app.py:41 | Two different non-blank values, such as `"Gas"` and `"  Gas  "`, both stay in the result. Nothing merges them by trimmed form. |
| `Normalizer.CodePointOrderExample` | backend/app.py:41 | The kept values `["Oil", "oil", "  Gas  "]` sort to `["  Gas  ", "Oil", "oil"]`. |
| `Normalizer.Keeps` | backend/app.py:41 | The comprehension's test `t and t.strip()` on one raw value. |
| `Normalizer.DigitCount` | backend/app.py:76 | The number of digits `str(n)` prints, sign excluded; above 4300 `str()` raises `ValueError`. |
| `Normalizer.Repr` | backend/app.py:76 | `str(y)`: a number prints starting with a digit exactly when it is non-negative; a string prints as itself. |
| `Normalizer.YearOf` | backend/app.py:76 | One value of the year comprehension: `None` is skipped; every year it yields is non-negative. |
| `Normalizer.YearOfNatural` | backend/app.py:76 | A stored non-negative number `n` that `str` can print yields the year `n`. |
| `Normalizer.YearOfNegative` | backend/app.py:76 | A stored negative number is dropped, because `str(n)` starts with `-`. |
| `Normalizer.YearOfHugeNumber` | backend/app.py:76 | A stored number with more than 4300 digits makes `str(y)` raise `ValueError`. |
| `Normalizer.YearOfPaddedDigits` | backend/app.py:76 | A stored string that holds the digits of `n`, with whitespace `int()` skips around them, yields `n`. |
| `Normalizer.YearOfSeparatorPadded` | backend/app.py:76 | A stored digit string with U+001C to U+001F anywhere in the whitespace around it passes the filter, then `int()` raises `ValueError`. |
| `Normalizer.YearOfTooManyDigits` | backend/app.py:76 | A stored string whose stripped text is more than 4300 digits passes the filter, then `int()` raises `ValueError`. |
| `Normalizer.YearOfUnpaddedString` | backend/app.py:76 | A stored string with no surrounding whitespace is dropped unless it is all digits. If it is, it yields its value, or raises when it has more than 4300 digits. |
| `Normalizer.YearOfDigitString` | backend/app.py:76 | A stored digit string of at most 4300 digits yields its value, leading zeros included. |
| `Normalizer.FractionRejected` | backend/app.py:76 | `"2005.5"` is dropped. |
| `Normalizer.WordRejected` | backend/app.py:76 | `"abc"` is dropped. |
| `Normalizer.NumberAndStringAgree` | backend/app.py:75-77 | The number `n` and the string `str(n)` yield the same year `n`. |
| `Normalizer.YearOfIsNatural` | backend/app.py:76 | Every year yielded is non-negative, and stored as a number it yields itself. |
| `Normalizer.Accepted` | backend/app.py:76 | The comprehension fails exactly when some raw value raises `ValueError`. Otherwise it yields a year exactly when some raw value yields that year. |
| `Normalizer.CleanYears` | backend/app.py:75-77 | The years result is `None` (the request raises `ValueError`) exactly when some raw value raises. Otherwise it strictly increases, so it has no duplicates, and holds exactly the years some raw value yields. `None`, non-digit text and negative numbers contribute nothing. |
| `Normalizer.CleanYearsUnique` | backend/app.py:75-77 | A successful years result is the only strictly increasing list of those years. |
| `Normalizer.SeparatorPaddedYearFails` | backend/app.py:76 | The stored string `"\x1c2020"` raises `ValueError`, so a store holding only it makes the years request fail. |
| `Normalizer.RepeatedYearAddsNothing` | backend/app.py:75-77 | A second stored value that evaluates like one already present changes nothing: no new entry, and no new failure. |
| `Endpoints.CountryScope` | backend/app.py:50-54 | The lookup is scoped exactly when `topic` is present and non-empty. The scope is the supplied text unchanged, whitespace included. |
| `Endpoints.Countries` | backend/app.py:49-56 | The countries of the chosen lookup, cleaned by the string-mode rule: sorted, with each non-blank value's occurrence count kept. |
| `Endpoints.CountriesDependOnTopicOnly` | backend/app.py:50-54 | Parameters other than `topic` do not change the countries returned. |
| `Endpoints.EmptyTopicUnscoped` | backend/app.py:50-54 | An empty `topic` gives the same result as no `topic` at all. |
| `RequestArgs.Get` | backend/app.py:28 | `request.args.get(name)`: present exactly when the parameter was supplied, and then its text. |
| `RequestArgs.Truthy` | backend/app.py:29 | `if value:` on an optional string: present and not empty. |
| `Text.Strip` | backend/app.py:41 | `s.strip()`: the left half, then the right half. |
| `Text.IsSpace` | backend/app.py:41 | `str.isspace()` on one character, the set `strip()` removes: U+0009 to U+000D, U+001C to U+0020, U+0085, U+00A0, U+1680, U+2000 to U+200A, U+2028, U+2029, U+202F, U+205F and U+3000. |
| `Text.IsIntSpace` | backend/app.py:76 | The whitespace `int()` skips around its digits: space, U+0009 to U+000D, and every non-ASCII `isspace()` character. |
| `Text.IsDigits` | backend/app.py:76 | `s.isdigit()` over ASCII: non-empty and made of decimal digits only. |
| `Text.DigitsValue` | backend/app.py:76 | The decimal value of a digit string, leading zeros allowed. |
| `Text.TrimStart` | backend/app.py:41 | The left half of `strip()`: a suffix of the input, with only whitespace removed before it, that does not start with whitespace. |
| `Text.TrimEnd` | backend/app.py:41 | The right half of `strip()`: a prefix of the input, with only whitespace removed after it, that does not end with whitespace. |
| `Text.StripIsInnerSlice` | backend/app.py:41 | `s.strip()` is a slice of `s` with only whitespace outside it. It neither starts nor ends with whitespace. |
| `Text.StripEmptyIffAllSpace` | backend/app.py:41 | `s.strip()` is empty exactly when every character of `s` is whitespace. |
| `Text.StripPadded` | backend/app.py:76 | `strip()` removes exactly the whitespace around a text that neither starts nor ends with whitespace. |
| `Text.Decimal` | backend/app.py:76 | `str(n)` for `n >= 0` is a non-empty run of digits with no leading zero: it starts with `0` only when it is `"0"`. |
| `Text.IntRepr` | backend/app.py:76 | `str(n)` starts with a digit exactly when `n >= 0`. |
| `Text.DigitsValueOfDecimal` | backend/app.py:76 | `int(str(n)) == n` for every `n >= 0`. |
| `Text.DecimalNoLonger` | backend/app.py:76 | Printing the value of a digit string takes no more digits than the string has. |
| `Text.StripSpaceIntRejects` | backend/app.py:76 | The whitespace `strip()` removes but `int()` does not skip is exactly U+001C to U+001F. |
| `Text.ParseInt` | backend/app.py:76 | `int(s)` on a text that strips to digits: when it succeeds, it gives the value of those digits and there are at most 4300 of them. |
| `Text.ParseIntPadded` | backend/app.py:76 | `int()` accepts digits surrounded only by whitespace it skips, and gives their value. |
| `Text.ParseIntSeparatorPadded` | backend/app.py:76 | `int()` raises on digits with U+001C to U+001F anywhere in the whitespace around them, although `strip()` reduces the text to those digits. |
| `Text.ParseIntRejectsSeparator` | backend/app.py:76 | `int()` raises on any text holding an information separator. |
| `Text.ParseIntCapped` | backend/app.py:76 | A bare digit string parses exactly when it has at most 4300 digits. |
| `Text.DecimalOfDigitsValue` | backend/app.py:76 | `str(int(s)) == s` for a digit string without a leading zero. |
| `Collation.Less` | backend/app.py:41 | Python's `<` on strings: a proper prefix first, otherwise the smaller code point at the first difference decides. |
| `Collation.LessIrreflexive` | backend/app.py:41 | No string sorts before itself. |
| `Collation.LessTransitive` | backend/app.py:41 | The string order is transitive. |
| `Collation.LessTotal` | backend/app.py:41 | Any two different strings are ordered one way or the other. |
| `Collation.LessIffFirstDifference` | backend/app.py:41 | `a < b` exactly when `a` is a proper prefix of `b`, or `a` has the smaller code point at the first difference. |
| `Sorting.Sort` | backend/app.py:41 | `sorted` on strings returns a sorted permutation of its input. |
| `Sorting.SortedUnique` | backend/app.py:41 | Two sorted lists with the same elements and counts are equal. |
| `Sorting.SortedSet` | backend/app.py:75-77 | `sorted` of a set of integers strictly increases and holds exactly the set's elements. |
| `Sorting.IncreasingUnique` | backend/app.py:75-77 | Two strictly increasing lists with the same elements are equal. |

## Left out

- HTTP plumbing is not modelled: Flask routing, CORS, `jsonify`, `app.run` and the liveness route.
- The MongoDB connection is not modelled.
- The store's `find` is not modelled. The model stops at the query the filter compiler hands to it. How the store matches the query is not modelled: exact equality, case sensitivity, and a stored number never equalling a string parameter.
- The store's `distinct` is not modelled. Its result is an input sequence. For countries it is a function of the chosen scope. "Only countries of records whose topic equals the supplied topic" is therefore the store's promise, not the model's.
- `get_topics` and `get_regions` are not separate members. Each applies `Normalizer.CleanStrings` to the store's list, as `get_countries` does.
- Query parameters are a map from name to one string. For a repeated parameter, Flask's `request.args.get` returns the first value; that choice happens before the model's input.
- String-mode raw values are `None` or a string. A non-string value from the store is not modelled: Python would drop a falsy one and raise on any other.
- Stored years are integers, strings or `None`. Floats and booleans are not modelled: `str(2016.0)` is `"2016.0"` and would be dropped like any non-digit text.
- `str.isdigit()` is modelled for ASCII digits only. Python also accepts other Unicode digits, some of which `int()` then rejects with an error.
- The full scenario lists for string mode and year mode are not stated as single lemmas. Their content is covered by the per-value lemmas (`FractionRejected`, `WordRejected`, `NumberAndStringAgree`, `SeparatorPaddedYearFails`, `CodePointOrderExample`) and by the general theorems about `CleanStrings` and `CleanYears`.
- `Text.MaxStrDigits` is CPython's default integer-string limit of 4300 digits, in force since 3.11 and in the 3.10.7, 3.9.14, 3.8.14 and 3.7.14 security releases. Earlier releases have no limit; that case is not modelled, and neither is a limit set with `sys.set_int_max_str_digits`.
- `backend/db_import.py` (a one-time bulk load from a JSON file) is not part of this model.
- `src/App.js` (the React UI and its HTTP calls) is not part of this model.

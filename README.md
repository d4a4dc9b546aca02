# Training_Plan core, modelled in Dafny

The model covers four parts of the training repository:

- **The text utilities of `python_examples/file_io.py`.**
  - `parse_csv_content` turns comma separated text with a header line into a list of row dictionaries.
  - `summarise_log_file`, once the file has been read, reduces the lines of a log to `line_count`, `error_count` and the distinct `warnings`.
  - In the repository both bodies are unimplemented stubs. Their behaviour comes from the docstrings and from `tests/test_file_io.py`.
- **The library catalog of `python_examples/model_script.py`.** It has the `Author` and `Book` records, `Book.describe`, and a `Library` whose catalog maps each ISBN to a book. The catalog supports add, remove, case-insensitive search by title and by author, and listing.
- **The legacy `Example.java`.**
  - `filterEvenNumbers` walks a raw `List` by index. It removes odd `Integer`s in place and steps the index back after each removal.
  - `sum` accumulates the `Integer` elements in an `int`.
- **The modern `Example.java`.** It is the stream rewrite: `filterEvenNumbers`, `sum` and `max`. A separate module proves that, on lists holding only `Integer`s, the modern version agrees with the legacy one.

## Modules

| file | module | contents |
|---|---|---|
| `wrappers.dfy` | `Wrappers` | `Option`. |
| `text.dfy` | `Text` | The Python `str` operations the parsers use: `isspace`/`strip`, `split`/`join`, line splitting, `find`/`in`, and ASCII `lower`. |
| `csv_parser.dfy` | `CsvParser` | Rows as insertion-ordered dictionaries, and `parse_csv_content`. |
| `log_summary.dfy` | `LogSummary` | The summary of a log's lines. |
| `library.dfy` | `LibraryCatalog` | `Author`, `Book`, `describe`, and the `Library` class with its `catalog` map field. |
| `java_int.dfy` | `JavaInt` | 32-bit `int`, wrapping `+`, and the truncating `%`. |
| `legacy_example.dfy` | `LegacyExample` | `RawList`, a class with a mutable element sequence, plus the in-place filter loop and the summing loop. |
| `modern_example.dfy` | `ModernExample` | The stream pipelines as functions. |
| `migration.dfy` | `Migration` | Legacy and modern agree on `Integer`-only lists. |

## Choices the docstrings leave open

- **Header line.** The CSV header is the first line that is not blank.
- **Blank lines.** A line is blank when `strip()` leaves nothing, so whitespace-only lines are skipped.
- **Empty input.** A text with no non-blank line parses to the empty list.
- **Fields.** They are the pieces of a split on `,`, each stripped. There is no quoting.
- **Line boundaries.** Both parsers split their text into lines as `str.splitlines()` does, not as `split("\n")` does. Besides `\n` and `\r`, the boundaries are `\v`, `\f`, `\x1c`, `\x1d`, `\x1e`, `\x85`, `\u2028` and `\u2029`.
- **Rows.** A row is an insertion-ordered dictionary, and assignment follows Python's `d[k] = v`.
  - A duplicated header name keeps its first position and takes the later value.
  - A header name that equals a generated `extra_k` name is handled the same way.
- **Error lines.** "Containing the word ERROR" means a substring test on the lower-cased line, so `ERRORS` and `error:` count.
- **Warning lines.** The `WARNING:` marker is matched case-sensitively anywhere in the line. The message is the stripped text after its first occurrence.
- **Duplicate warnings.** Repeated messages collapse to their first occurrence, in first-appearance order.
- **Java `int` overflow.** It is modelled explicitly. Both `sum`s return the exact sum wrapped to 32 bits, so no no-overflow assumption is needed.
- **Java `%`.** It truncates toward zero, and `RemTwo` shows that `n % 2 != 0` selects exactly the odd numbers, negative ones included.

## Model

| member | source | states |
|---|---|---|
| CsvParser.ParseCsv | training_repo/python_examples/file_io.py:21-30 | The result has one row per non-blank line after the header, in source order. Each row is built from that line's stripped fields against the header's stripped names. A text with no non-blank line gives no rows. |
| CsvParser.Fields | training_repo/python_examples/file_io.py:26-27 | Every field of a line is stripped of surrounding whitespace and holds no comma. |
| CsvParser.ParseValuesStripped | training_repo/python_examples/file_io.py:26-30 | Every present value of every parsed row is one of the stripped fields of its own data line. It is a string as trimmed, with no coercion. |
| CsvParser.ParseHeaderKeys | training_repo/python_examples/file_io.py:27-30 | Every header name is a key of every parsed row, short or long. |
| CsvParser.MakeRowHasHeaderKeys | training_repo/python_examples/file_io.py:27-30 | Every header name is a key of a row, whatever the line holds. |
| CsvParser.MakeRowUnique | training_repo/python_examples/file_io.py:24-25 | A row never holds a key twice. |
| CsvParser.MakeRowSize | training_repo/python_examples/file_io.py:29-30 | With distinct header names, a row has at least as many keys as the header has columns. |
| CsvParser.MakeRowClean | training_repo/python_examples/file_io.py:27-30 | With distinct header names that do not clash with the generated names, the row is the header zipped with the fields. Missing fields are `None`. The surplus fields follow as `extra_1`, `extra_2`, ... in position order. |
| CsvParser.MakeRowColumn | training_repo/python_examples/file_io.py:27-29 | For a header of distinct names, none of them an `extra_j` name the line generates: header column `i` maps to field `i` when the line has one, and to `None` otherwise. |
| CsvParser.MakeRowExtra | training_repo/python_examples/file_io.py:29-30 | For every header, repeated names and columns named `extra_j` included: `extra_j` maps to the `j`-th field beyond the header, because the surplus fields are assigned last. |
| CsvParser.ExampleExtraClash | training_repo/python_examples/file_io.py:29-30 | A header column named `extra_1` gives way to the first surplus field: header `extra_1` with fields `a`, `b` maps `extra_1` to `b`. |
| CsvParser.MakeRow | training_repo/python_examples/file_io.py:27-30 | A row holds no value that is not one of its line's fields: values stay strings, with no coercion and no invented text. |
| CsvParser.PutGet | training_repo/python_examples/file_io.py:24-25 | After `row[k] = v`, `k` maps to `v` and every other key keeps its value. |
| CsvParser.PutUnique | training_repo/python_examples/file_io.py:24-25 | Assignment keeps a dictionary free of repeated keys. |
| CsvParser.AssignKeys | training_repo/python_examples/file_io.py:27-30 | After a run of assignments, the keys are exactly the old keys and the assigned ones. |
| CsvParser.AssignFresh | training_repo/python_examples/file_io.py:27-30 | Assigning fresh, distinct keys appends them in order. |
| CsvParser.ExtraKeyInjective | training_repo/python_examples/file_io.py:29-30 | Two surplus positions get the same generated name exactly when they are the same position. |
| CsvParser.DecimalRoundTrip | training_repo/python_examples/file_io.py:29-30 | Reading back the decimal digits used in `extra_<j>` gives `j`. |
| CsvParser.FieldsOfPadded | training_repo/python_examples/file_io.py:26-27 | A line of comma separated pieces, each a stripped core with whitespace on either side, has exactly one field per piece, and field `k` is core `k`. |
| CsvParser.FieldsOfPaddedPair | training_repo/python_examples/file_io.py:26-27 | A line of two padded pieces reads as the two cores. |
| CsvParser.ParseOneRow | training_repo/python_examples/file_io.py:21-30 | Two non-blank lines with two fields each, under distinct header names, parse to one row pairing each name with its field. |
| CsvParser.FieldsOfRecord | training_repo/python_examples/file_io.py:26-27 | Stripped, comma-free fields joined with commas split and strip back to themselves. |
| CsvParser.DocumentLines | training_repo/python_examples/file_io.py:27 | The non-blank lines of a written table are its header record and then its data records. |
| CsvParser.ParseDocument | training_repo/python_examples/file_io.py:21-30 | Parsing a written table gives, for each data row in order, the row of exactly the fields written. |
| CsvParser.RegularRow | training_repo/python_examples/file_io.py:24-27 | A line with one field per distinct header column becomes the header zipped with its fields, with keys exactly the header. |
| CsvParser.TwoByTwoText | training_repo/python_examples/file_io.py:21-30 | A text that spells out a two-column table with two data rows is that table written as comma separated lines. |
| CsvParser.ParseTwoByTwo | training_repo/python_examples/file_io.py:21-30 | Such a text, with distinct header names and plain fields, parses to the two rows pairing each name with its field. |
| CsvParser.ParseRoundTrip | training_repo/python_examples/file_io.py:21-30 | A regular table written as comma separated lines parses back to one dictionary per data row. Its keys are exactly the header names in order, and each holds that row's field. |
| CsvParser.ExampleSimple | training_repo/python_examples/file_io.py:44-45 | `"name,age\nAlice,30\nBob,25"` parses to the two rows of the docstring. |
| CsvParser.ExampleMissing | training_repo/python_examples/file_io.py:46-47 | `"id,value\n1,foo\n2"` parses to the docstring's rows, with `value` `None` in the short row. |
| CsvParser.ExampleLoad | training_repo/tests/test_file_io.py:34-43 | The text the `load_csv_file` test writes parses to the expected two rows. |
| CsvParser.ExamplePadded | training_repo/python_examples/file_io.py:26-27 | `" name , age \n Alice , 30 "` parses to the single row `{'name': 'Alice', 'age': '30'}`: spaces around names and values are stripped. |
| Text.Strip | training_repo/python_examples/file_io.py:26-27 | `strip()` never lengthens the text. |
| Text.StripSpec | training_repo/python_examples/file_io.py:26-27 | `strip()` leaves text that neither starts nor ends with whitespace, and it is empty exactly for all-whitespace text. |
| Text.StripFramed | training_repo/python_examples/file_io.py:26-27 | `strip()` removes whitespace from both ends and nothing else: its result is a slice framed by whitespace. |
| Text.StripUnique | training_repo/python_examples/file_io.py:26-27 | Stripping whitespace-framed stripped text recovers exactly that text. |
| Text.StripIdempotent | training_repo/python_examples/file_io.py:26-27 | Stripping twice is stripping once. |
| Text.StripKeepsAbsent | training_repo/python_examples/file_io.py:26-27 | Stripping introduces no character that was not there. |
| Text.Split | training_repo/python_examples/file_io.py:22-25 | A split has one more piece than the text has separators, and no piece holds a separator. |
| Text.JoinSplit | training_repo/python_examples/file_io.py:22-25 | Joining the pieces of a split with the separator gives back the text. |
| Text.SplitJoin | training_repo/python_examples/file_io.py:22-25 | Splitting joined separator-free pieces gives back the pieces. |
| Text.NonBlank | training_repo/python_examples/file_io.py:27 | No kept line is blank, and no more lines are kept than there were. |
| Text.NonBlankAppend | training_repo/python_examples/file_io.py:27 | Dropping blank lines commutes with concatenation, so kept lines stay in input order. |
| Text.Lines | training_repo/python_examples/file_io.py:27-35 | `str.splitlines()` on the raw text: one more line than there are line-boundary characters, and no line holds a boundary character. Partners: `CsvParser.LinesOfDocument` and `LogSummary.SummariseJoined`, which join lines and get them back. |
| Text.ContainsIgnoringCase | training_repo/python_examples/model_script.py:106 | `needle.lower() in haystack.lower()`: true exactly when the lower-cased needle occurs at some position of the lower-cased haystack. Partner: `ExactMatchIgnoringCase`. |
| Text.ExactMatchIgnoringCase | training_repo/python_examples/model_script.py:106 | An exact occurrence is also a case-insensitive one. |
| LogSummary.IsError | training_repo/python_examples/file_io.py:83 | A line is an error line exactly when its lower-cased text holds `error` somewhere. |
| LogSummary.WarningMessage | training_repo/python_examples/file_io.py:84-85 | The message of a warning line is stripped, and shorter than the line by at least the length of `WARNING:`. |
| LogSummary.WarningMessageOf | training_repo/python_examples/file_io.py:84-85 | The message is exactly the text after the first `WARNING:` with its surrounding whitespace removed: for a line made of a marker-free prefix, the marker, whitespace, a stripped core and whitespace, the message is that core. |
| LogSummary.Summarise | training_repo/python_examples/file_io.py:79-85 | `error_count` is at most `line_count`, which is at most the number of lines. The warnings are distinct, no more than the lines, and exactly the messages of the marked lines. |
| LogSummary.SummariseText | training_repo/python_examples/file_io.py:76-85 | On the text of a file, `error_count` is at most `line_count`, which is at most the number of lines, and the warnings are distinct. |
| LogSummary.SummariseJoined | training_repo/python_examples/file_io.py:76-85 | Lines without line breaks, joined by newlines, summarise as those lines. |
| LogSummary.ErrorLine | training_repo/python_examples/file_io.py:83-85 | A line starting with `error` in any letter case and without a `W` is a non-blank error line with no warning. |
| LogSummary.Unique | training_repo/python_examples/file_io.py:84-85 | The warnings list has each message once, and holds exactly the messages that occur. |
| LogSummary.WarningsFromLines | training_repo/python_examples/file_io.py:84-85 | A message is a warning exactly when some line with the marker yields it. |
| LogSummary.ErrorLineNotBlank | training_repo/python_examples/file_io.py:82-83 | A line mentioning ERROR is not empty. |
| LogSummary.ErrorsWithinLines | training_repo/python_examples/file_io.py:82-83 | `error_count` is at most `line_count`, which is at most the number of lines. |
| LogSummary.SummariseAppend | training_repo/python_examples/file_io.py:80-85 | Summarising a log in two parts: the counts add up, and the warnings are those of both parts. |
| LogSummary.TestSummary | training_repo/tests/test_file_io.py:46-60 | The test log joined with newlines summarises to 5 lines, 2 errors and the one warning `Disk space low`. |
| LibraryCatalog.Describe | training_repo/python_examples/model_script.py:58-62 | The description opens with a double quote, closes with `)`, and is as long as title, author name and ISBN plus the 15 characters of the fixed text. |
| LibraryCatalog.DescribeExample | training_repo/python_examples/model_script.py:61-62 | The docstring's `"1984" by George Orwell (ISBN: 1234567890)`, whatever the biography. |
| LibraryCatalog.DescribeTitle | training_repo/python_examples/model_script.py:61-62 | A title without double quotes sits between the description's first two quotes. |
| LibraryCatalog.DescribeInjective | training_repo/python_examples/model_script.py:61-62 | The description determines title, author name and ISBN, for titles without `"` and ISBNs without spaces. |
| LibraryCatalog.StoredBook | training_repo/python_examples/model_script.py:76 | In a catalog keyed by ISBN, a book is stored exactly when its ISBN maps to it. |
| LibraryCatalog.Library.constructor | training_repo/python_examples/model_script.py:82-83 | A new library has an empty catalog. |
| LibraryCatalog.Library.AddBook | training_repo/python_examples/model_script.py:85-90 | The catalog maps the book's ISBN to it, replacing any earlier book, and every other entry is unchanged. |
| LibraryCatalog.Library.RemoveBook | training_repo/python_examples/model_script.py:94-98 | A present ISBN: returns the stored book and deletes only that key. An absent ISBN: returns `None` and leaves the catalog unchanged. |
| LibraryCatalog.Library.AddThenRemove | training_repo/python_examples/model_script.py:85-98 | `add_book` of a book under a new ISBN, then `remove_book` of that ISBN, returns the book and leaves the catalog as it was. |
| LibraryCatalog.Library.RemoveThenAdd | training_repo/python_examples/model_script.py:85-98 | `remove_book` of a stored ISBN, then `add_book` of the returned book, leaves the catalog as it was. |
| LibraryCatalog.Library.Select | training_repo/python_examples/model_script.py:103-124 | The stored books satisfying a test, each once. There are as many as there are ISBNs whose book passes. |
| LibraryCatalog.Library.SearchByTitle | training_repo/python_examples/model_script.py:103-107 | Exactly the stored books whose lower-cased title contains the lower-cased keyword, each once. A title holding the keyword verbatim is always found. The catalog is not changed. |
| LibraryCatalog.Library.SearchByAuthor | training_repo/python_examples/model_script.py:112-117 | Exactly the stored books whose author name contains the given name ignoring case, each once. The result is empty exactly when no book matches. |
| LibraryCatalog.Library.ListBooks | training_repo/python_examples/model_script.py:122-124 | Every stored book exactly once, and as many books as ISBNs. |
| JavaInt.Wrap | training_repo/java_migration/legacy_java/Example.java:47 | An `int` result is the one congruent to the exact value modulo 2^32. It equals the exact value when that is in range. |
| JavaInt.WrapAdd | training_repo/java_migration/legacy_java/Example.java:43-48 | Wrapping each `+=` gives the wrap of the exact sum. |
| JavaInt.Add | training_repo/java_migration/legacy_java/Example.java:47 | `int` addition is exact addition modulo 2^32, and exact when there is no overflow. |
| JavaInt.Rem | training_repo/java_migration/legacy_java/Example.java:28 | `%` is smaller in magnitude than the divisor and takes the dividend's sign. |
| JavaInt.RemTwo | training_repo/java_migration/legacy_java/Example.java:28 | `n % 2 != 0` holds exactly for odd `n`, negative ones included. |
| LegacyExample.FilterEvenNumbers | training_repo/java_migration/legacy_java/Example.java:22-34 | In place, the list becomes the old list with its odd `Integer`s removed and everything else in order. No odd `Integer` remains. The new length is the old length minus the number of odd `Integer`s. |
| LegacyExample.WithoutOdd | training_repo/java_migration/legacy_java/Example.java:24-33 | Filtering never lengthens the list. |
| LegacyExample.WithoutOddMembers | training_repo/java_migration/legacy_java/Example.java:24-33 | An element remains exactly when it was there and is not an odd `Integer`, so non-`Integer`s and even numbers are kept. |
| LegacyExample.WithoutOddSnoc | training_repo/java_migration/legacy_java/Example.java:26-31 | Filtering one more element keeps it exactly when it is not an odd `Integer`. |
| LegacyExample.WithoutOddAppend | training_repo/java_migration/legacy_java/Example.java:24-33 | Filtering works piece by piece, so the kept elements keep their relative order. |
| LegacyExample.NoOddLeft | training_repo/java_migration/legacy_java/Example.java:17-18 | No element of the filtered list is an odd `Integer`. |
| LegacyExample.WithoutOddLength | training_repo/java_migration/legacy_java/Example.java:10-11 | The new length is the old length less the number of odd `Integer`s. |
| LegacyExample.WithoutOddIdempotent | training_repo/java_migration/legacy_java/Example.java:24-33 | Filtering a filtered list changes nothing. |
| LegacyExample.Sum | training_repo/java_migration/legacy_java/Example.java:42-51 | The result is the exact sum of the `Integer` elements wrapped to 32 bits. The empty list gives 0. |
| LegacyExample.IntegerSumAppend | training_repo/java_migration/legacy_java/Example.java:44-48 | The exact sum of a concatenation is the sum of the parts. |
| LegacyExample.IntegerSumIgnoresOthers | training_repo/java_migration/legacy_java/Example.java:45-48 | A non-`Integer` element adds nothing to the sum. |
| LegacyExample.IntegerSumEvenOnly | training_repo/java_migration/legacy_java/Example.java:22-51 | The exact sum is the sum after filtering plus the sum of the odd `Integer`s removed. |
| ModernExample.FilterEvenNumbers | training_repo/java_migration/modern_java/Example.java:23-27 | The new list is no longer than the input, and every element of it is even. |
| ModernExample.FilterMembers | training_repo/java_migration/modern_java/Example.java:23-27 | A number is in the result exactly when it is in the input and even. |
| ModernExample.FilterPositions | training_repo/java_migration/modern_java/Example.java:23-27 | The result reads the input at strictly increasing positions, and every position holding an even number is read: the evens in input order. |
| ModernExample.FilterAppend | training_repo/java_migration/modern_java/Example.java:24-26 | Filtering a concatenation is concatenating the filtered parts. |
| ModernExample.TotalAppend | training_repo/java_migration/modern_java/Example.java:35-39 | The exact sum of a concatenation is the sum of the parts. |
| ModernExample.Sum | training_repo/java_migration/modern_java/Example.java:35-39 | The result is the exact sum of the elements wrapped to 32 bits. The empty list gives 0. |
| ModernExample.Max | training_repo/java_migration/modern_java/Example.java:47-51 | The result is empty exactly for the empty list. Otherwise it is an element of the list and at least every element. |
| Migration.FilterAgrees | training_repo/java_migration/modern_java/Example.java:8-13 | On an `Integer`-only list, what the legacy filter leaves is what the modern filter returns. |
| Migration.TotalAgrees | training_repo/java_migration/modern_java/Example.java:8-13 | On an `Integer`-only list both exact sums are the same. |
| Migration.SumAgrees | training_repo/java_migration/modern_java/Example.java:35-39 | Both `sum`s return the same `int`, overflow included. |
| Migration.LegacyOnIntegers | training_repo/java_migration/legacy_java/Example.java:9-13 | Running the legacy filter and then `sum` on an `Integer`-only raw list leaves the modern filter's result. The total is the modern `sum` of it. |

## Left out

- `load_csv_file` and the read step of `summarise_log_file`: UTF-8 file I/O and `FileNotFoundError` propagation. Both functions are modelled on the text once read, and `summarise_log_file` on its lines.
- `python_examples/api_client.py`: HTTP, JSON, timeouts and retries are network plumbing. `api_client.py` is not part of this model.
- `python_examples/data_processing.py`: floating-point statistics and grading. `data_processing.py` is not part of this model.
- `tests/test_file_io.py` as a program: the pytest harness with `tmp_path`. Its expectations appear as the lemmas `ExampleSimple`, `ExampleMissing`, `ExampleLoad` and `TestSummary`.
- Quoting and escaping of CSV fields: a plain comma split is modelled.
- Unicode case folding: `lower()` is modelled for ASCII letters only, and every other character is compared as it is.
- Text.Lines: `str.splitlines()` treats `"\r\n"` as one boundary and gives no line after a final boundary or for empty text. The model splits at every boundary character, so it has one more line than there are boundary characters. This only adds empty lines, and both parsers drop those.
- Python object identity and aliasing of `Book` and `Author` values: books are compared by value.
- Java `null` elements in the modern stream version (a `NullPointerException`) and `ClassCastException`: the modern list holds `int` values only. The legacy raw list may hold `null` and other objects, which both loops skip.
- CsvParser.MakeRowSize: requires distinct header names, because with a repeated name the Python dictionary merges the two columns into one key.
- JavaInt.Rem: states the magnitude and sign of the remainder and, through `RemTwo`, its parity. It does not state the full identity `a == (a / b) * b + a % b`.
- LibraryCatalog.Library.Select and the searches: the catalog is modelled as an unordered map, so the insertion order a Python `dict` keeps is not captured. The results list books in some order of their ISBNs. The docstrings of `search_by_title` and `list_books` say their order does not matter. The docstring of `search_by_author` says nothing about order, and the model leaves it open too.

# CPSO registry scraper: the key-refinement pipeline in Dafny

The repository scrapes the public register of the College of Physicians and
Surgeons of Ontario by postal code. Because a search stops at a server-side cap
(reported as `totalcount == -1`), the pipeline refines every capped key by one
more character of the postal code's local delivery unit (LDU) and searches
again. This project models the three scripts that make up that loop, with the
network, the clock, pandas and the file system taken out:

- `permutations.dfy` (module `Permutations`), for
  `code/create-postal-code-permutations.py`:
  - the letter and digit alphabets;
  - the three LDU expansions, each a loop that extends a list;
  - the case-insensitive level dispatch, with its `ValueError`;
  - `load_postal_codes` over an in-memory JSON list or CSV table;
  - the "true length" filter, which ignores the `'+'` that the first expansion inserts.
- `output.dfy` (module `Output`), for `code/create-output.py`:
  - `format_phone`;
  - `process_data` as a transform from the loaded records to three tables: the
    summary, the detail table (deduplicated, with phone and fax formatted in
    place on an array) and the capped subset;
  - the two ways it stops early: no file matched, or no file could be loaded.
- `scraper.dfy` (module `Scraper`), for `code/scrape-cpso.py`:
  - `fetch_with_backoff` as a retry loop over injected attempt outcomes, with
    the sleeps recorded as a list of durations;
  - the request-body case split;
  - the raw file name;
  - the collection loop of `fetch_results_with_rate_limit`.
- `records.dfy` holds the JSON records passed from the scraper to the
  aggregation step. `seqs.dfy` holds order-preserving filtering and its
  selection lemmas. `wrappers.dfy` holds `Option` and `Result`.

Each loop in the source is a method with invariants. Each method is proved
equal to a specification function, and the properties the source promises are
proved about those functions as lemmas.

## Model

| member | source | states |
|---|---|---|
| Permutations.Alphabets | code/create-postal-code-permutations.py:12-14 | `ValidLetters` has 20 letters. A character is in it iff it is an ASCII uppercase letter other than D, F, I, O, Q, U. The letters are in strictly increasing order. `ValidDigits` is `'0'..'9'` in order. |
| Permutations.LettersAreValid | code/create-postal-code-permutations.py:13 | Every listed letter is an uppercase ASCII letter outside the excluded six. |
| Permutations.ValidAreLetters | code/create-postal-code-permutations.py:13 | Every uppercase ASCII letter outside the excluded six is listed. |
| Permutations.LettersIncrease | code/create-postal-code-permutations.py:13 | The letters keep alphabetical order. |
| Permutations.ExpandSize | code/create-postal-code-permutations.py:26-65 | Extending by the children of each parent gives `|codes| * |alphabet|` codes. |
| Permutations.ExpandAt | code/create-postal-code-permutations.py:26-65 | Entry `k` of the expansion is parent `k / |alphabet|`, then the separator, then character `k % |alphabet|`. |
| Permutations.ExpandEntry | code/create-postal-code-permutations.py:26-65 | Entry `i * |alphabet| + j` exists and is parent `i`, then the separator, then character `j`. |
| Permutations.ExpandAll | code/create-postal-code-permutations.py:26-31 | The extend loop builds exactly the parent-by-parent expansion. |
| Permutations.GenerateLdu1Permutations | code/create-postal-code-permutations.py:16-31 | Returns `10 * n` codes. Entry `k` is `codes[k / 10] + "+" + digit k % 10`. |
| Permutations.GenerateLdu2Permutations | code/create-postal-code-permutations.py:33-48 | Returns `20 * n` codes. Entry `k` is `codes[k / 20]` followed by letter `k % 20`. |
| Permutations.GenerateLdu3Permutations | code/create-postal-code-permutations.py:50-65 | Returns `10 * n` codes. Entry `k` is `codes[k / 10]` followed by digit `k % 10`. |
| Permutations.Lower | code/create-postal-code-permutations.py:102 | Lowering keeps the length. It maps each ASCII uppercase letter to its lowercase letter and leaves every other character alone. |
| Permutations.ParseLevelSpec | code/create-postal-code-permutations.py:102-112 | A level is accepted iff it is four characters: `l`, `d`, `u` in either case, then `1`, `2` or `3`. That digit picks the level. |
| Permutations.GeneratePermutations | code/create-postal-code-permutations.py:102-112 | An accepted level returns that level's expansion. Any other level fails with the `Invalid level` message. |
| Permutations.TrueLengthAppend | code/create-postal-code-permutations.py:199 | Length with `'+'` removed adds up over concatenation. |
| Permutations.FilterByTrueLength | code/create-postal-code-permutations.py:192-201 | Keeps, in input order, the codes whose true length is the one the level requires (3, 4 or 5). A code is kept iff it is an input with that true length. |
| Permutations.ChildrenTrueLength | code/create-postal-code-permutations.py:29-63 | At every level, each child's true length is its parent's plus one. |
| Permutations.ExpandTrueLength | code/create-postal-code-permutations.py:26-65 | If all parents have true length `m`, all children have true length `m + 1`. |
| Permutations.NextLevelKeepsChildren | code/create-postal-code-permutations.py:192-201 | If the parents pass one level's filter, the next level's filter keeps every child. |
| Permutations.ExpandLength | code/create-postal-code-permutations.py:26-65 | Rendered length of a child is the parent's length plus the separator plus one. |
| Permutations.ChildrenLength | code/create-postal-code-permutations.py:29 | Each child of one parent has length `|parent| + |sep| + 1`. |
| Permutations.LoadPostalCodes | code/create-postal-code-permutations.py:119-164 | The loader returns the intended codes for every input: JSON, CSV, or an unreadable or other file (nothing). |
| Permutations.LoadedCodesSpec | code/create-postal-code-permutations.py:137-156 | A CSV with both columns gives, in row order, exactly the codes of the rows with totalcount -1. The same holds for a JSON list holding objects. A JSON list of plain strings comes back unchanged. |
| Permutations.FirstUncapped | code/create-postal-code-permutations.py:138-142 | Gives the position of the first JSON entry that is not an object with totalcount -1, or the list's length if there is none. |
| Permutations.LoadJsonAsWritten | code/create-postal-code-permutations.py:133-142 | The JSON loop as written returns the as-written result. The result is rebound to the input list, and later appends grow the list being iterated. |
| Permutations.AsWrittenAgreesOnUniformLists | code/create-postal-code-permutations.py:137-142 | The as-written and intended results agree on a list of only capped objects, and on a list of only strings. |
| Permutations.FirstEntryUncapped | code/create-postal-code-permutations.py:137-142 | If the first JSON entry is not a capped object, the loop as written returns the whole input list followed by the codes of the capped objects after that entry. |
| Permutations.MixedAsWritten | code/create-postal-code-permutations.py:137-142 | For any two-entry list whose first entry is not capped and whose second is, the loop as written returns both entries and then the second entry's code. |
| Permutations.MixedIntended | code/create-postal-code-permutations.py:119-142 | For the same kind of two-object list, the intended loader returns the capped entry's code alone. |
| Permutations.MixedJsonListKeepsObjects | code/create-postal-code-permutations.py:137-142 | Gives a two-object list on which the as-written loop returns both objects plus a code, where the intended result is that one code. |
| Output.FormatPhone | code/create-output.py:15-32 | The formatter returns a value iff the input has exactly ten ASCII digits. |
| Output.DigitsOfAppend | code/create-output.py:26 | Removing non-digits distributes over concatenation. |
| Output.DigitsOfPunctuate | code/create-output.py:30 | The punctuated form of ten digits has those same ten digits. |
| Output.FormatPhoneShape | code/create-output.py:26-30 | A formatted number has 14 characters: `(`, `)`, space and `-` in fixed places, and digits elsewhere. Its digits are the input's digits in order. |
| Output.FormatPhoneIdempotent | code/create-output.py:26-30 | Formatting a formatted number returns it unchanged. |
| Output.DashedDigits | code/create-output.py:26 | Dashes between groups of digits are dropped. |
| Output.FormatPhoneDashedExample | code/create-output.py:26-30 | `416-555-1234` formats to `(416) 555-1234`, which formats to itself. |
| Output.FormatPhoneShortExample | code/create-output.py:29-32 | `12345` formats to None. |
| Output.SummaryRowsAppend | code/create-output.py:64-84 | The summary rows of a sequence of files are the rows of its parts, in order. |
| Output.DetailRowsAppend | code/create-output.py:79-81 | The detail rows of a sequence of files are the rows of its parts, in order. |
| Output.RowsOfOneFile | code/create-output.py:68-84 | A loaded file gives one summary row, with `'unknown'` and 0 for absent keys, plus its results (none when they are absent or empty). A file that fails to load gives nothing. |
| Output.DropDuplicateIdsSelects | code/create-output.py:94-95 | Deduplication keeps, in order, exactly the rows that are the first to carry their `cpsonumber`. |
| Output.DropDuplicateIdsDistinct | code/create-output.py:94-95 | Kept rows have pairwise distinct ids, and every id of the input survives. |
| Output.DedupByCpso | code/create-output.py:94-95 | The deduplication loop computes the first-of-each-id selection. |
| Output.FormatColumn | code/create-output.py:98-101 | Reassigning a column in place formats that cell of every row and changes nothing else. |
| Output.FormatContactColumns | code/create-output.py:97-101 | The table after formatting is the phone- and fax-formatted table. |
| Output.ContactsFormatted | code/create-output.py:97-101 | Every phone and fax cell is None or a 14-character formatted number. The id and other fields are unchanged. |
| Output.CappedRowsSpec | code/create-output.py:103-107 | The capped subset holds, in order, exactly the summary rows with totalcount -1 and a 7-character postal code. |
| Output.Ldu1KeyLengths | code/create-output.py:106 | LDU1 keys from 3-character areas render with 5 characters. |
| Output.Ldu2KeyLengths | code/create-output.py:106 | LDU2 keys from those render with 6 characters. |
| Output.Ldu3KeyLengths | code/create-output.py:106 | LDU3 keys from those render with 7 characters. |
| Output.CappedLengthPicksFullCodes | code/create-output.py:104-107 | Among keys generated from 3-character areas with totalcount -1, only full LDU3 keys are selected. Areas, LDU1 and LDU2 keys never are. |
| Output.UnknownCodeIsCapped | code/create-output.py:74-107 | A record with no postal code and totalcount -1 gets the 7-letter default `'unknown'`, so it is selected as capped. |
| Output.ProcessData | code/create-output.py:34-107 | The file loop, deduplication, in-place formatting and capped selection compute the aggregate of the loaded files. |
| Output.AggregatedSpec | code/create-output.py:56-107 | No files gives the early return. Files with none loaded give the missing-column error. Otherwise, when the id column exists, detail ids are distinct; phone and fax are formatted; and the capped rows are exactly the summary rows with -1 and length 7. |
| Output.NoRowsIffNothingLoaded | code/create-output.py:64-84 | The summary is empty iff no file loaded. |
| Scraper.FetchWithBackoff | code/scrape-cpso.py:81-119 | The retry loop returns the result, sleeps and attempt count of the retry specification. |
| Scraper.BackoffFromShape | code/scrape-cpso.py:86-116 | From any retry count, the loop stops within `max_retries` attempts. The j-th sleep from there is `delay * 2^j`. Every attempt before the last is retryable. |
| Scraper.BackoffFromEnd | code/scrape-cpso.py:86-119 | A payload is returned iff the last attempt was a 200, and it is that attempt's payload. A fatal exception returns nothing without sleeping. Retryable failures stop only at `max_retries`, with a sleep after each. |
| Scraper.BackoffNoAttempt | code/scrape-cpso.py:86-119 | With `max_retries <= 0`, no attempt, no sleep, no result. |
| Scraper.FatalSpec | code/scrape-cpso.py:104-110 | An outcome is fatal iff it is an exception whose message has `Invalid control character at: line` at some position. |
| Scraper.BackoffSpec | code/scrape-cpso.py:81-119 | Makes between 1 and `max_retries` attempts. The k-th sleep is `initial_delay * 2^k`. The result is the first 200 payload, or nothing on a fatal error or after `max_retries` retryable failures. |
| Scraper.CaseBase | code/scrape-cpso.py:50-53 | The body for `Any`, and for `Family+Doctor` without a name, encodes the three base fields. |
| Scraper.CaseSpecialist | code/scrape-cpso.py:54-55 | The body for a specialist without a name adds `SpecialistType=Psychiatry`. |
| Scraper.CaseFamilyNamed | code/scrape-cpso.py:56-57 | The body for a named family-doctor search puts `lastName` before `postalCode`. |
| Scraper.CaseSpecialistNamed | code/scrape-cpso.py:58-59 | The body for a named specialist search has the name and the specialist type. |
| Scraper.RequestBodyEncodesForm | code/scrape-cpso.py:50-59 | A body exists iff the doctor type has a branch. It is then the form encoding of the fields the rules select. |
| Scraper.FormFieldsSpec | code/scrape-cpso.py:50-59 | `lastName` is sent iff neither the type nor the name is `Any`. `SpecialistType` is sent iff the type is `Specialist`. `Any` sends only the three base fields. |
| Scraper.RawFileNameShape | code/scrape-cpso.py:76 | The file is `<output_dir>/raw/` followed by `{postal_code}+{doctor_type}+{last_name}.json`. |
| Scraper.RawFileNamesDistinct | code/scrape-cpso.py:76 | Distinct postal codes under the same search are saved to distinct files. |
| Scraper.FetchResults | code/scrape-cpso.py:10-79 | The collection loop computes the collection specification, or the unbound-body error for an unknown doctor type with at least one code. |
| Scraper.KeptIndicesSpec | code/scrape-cpso.py:64-66 | The kept positions are strictly increasing and are exactly those whose fetched payload is a non-empty object. |
| Scraper.CollectRequests | code/scrape-cpso.py:26-64 | One body is sent per postal code, in input order. |
| Scraper.CollectResults | code/scrape-cpso.py:64-79 | Results and saved files follow exactly the kept positions, in order. Each is tagged with its own postal code and saved under its own file name. |
| Scraper.CollectTagsKeys | code/scrape-cpso.py:64-79 | There are at most as many results as codes. Each is a non-empty object tagged with one of the input codes. |

## Left out

- HTTP: the session, headers, `session.get` and `session.post`, and cookies are abstract. Each attempt's outcome is a parameter: a status and a parsed object, or an exception message. A 200 whose body does not parse is an exception.
- The random delay between postal codes (`random.uniform`, `time.sleep`) is left out. Backoff sleeps are recorded as integer durations, not slept.
- File I/O is not modelled. This covers `json.load` and `json.dump`, `os.makedirs`, `glob`, pandas CSV reading and writing, `save_results_to_file` and `save_permutations`. Inputs are in-memory records. Saved files are (name, content) pairs.
- Progress bars (`tqdm`) and `print` logging are left out. So is the total that `run_simple_scrape` only prints.
- The command-line front ends are left out: argparse, the `main` blocks and the `sys.exit` paths. The output file name chosen in `generate_and_save_permutations` is also left out.
- `load_postal_codes_from_file` in `code/scrape-cpso.py` is left out. It is file-format sniffing; its dict branch iterates keys.
- `code/scrape-postal-codes.py` is not part of this model. It scrapes Wikipedia.
- Permutations.LoadPostalCodes: JSON values that are not a list, and list entries that are neither an object nor a string, are outside the model.
- Permutations.LoadPostalCodes: an object without `postal_code` (whose code Python reads as None) is outside the model.
- Permutations.LoadPostalCodes: a CSV without both columns is read through one code column, either `postal_code` or the first column. Pandas' type inference on that column is not modelled; codes are strings.
- Output.FormatPhone: the `str()` of a float or NaN cell is not modelled. An absent or null cell is None, which formats to None as Python's `'nan'`/`'None'` would.
- Output.FormatPhone: only the ASCII digits `0`-`9` count as digits. Python's `\D` on a `str` also keeps every other Unicode decimal digit, so a number written with ten fullwidth digits formats in the source but gives None here.
- Permutations.Lower: lowers ASCII letters only. No other character lowers to a character of `ldu1`, `ldu2` or `ldu3`, so the dispatch is unaffected.
- Scraper.RawFileNameShape: uses POSIX `os.path.join`. Windows separators are not modelled, nor is a postal code that starts with `/`.
- Scraper.FetchResults: a JSON `null` is read as an absent key. So a fetched `{"postal_code": null}` counts as empty and is dropped, where Python finds the dict truthy and keeps it. A payload with `"results": null` is kept and saved, where the progress message's `len(...)` raises `TypeError` and ends the collection loop before the save.
- Scraper.FetchResults: a payload that is a JSON list or scalar, not an object, is outside the model. Setting `postal_code` on it would raise.
- Scraper.FetchWithBackoff: a negative initial delay is recorded as a negative sleep, and the retries go on. In Python, `time.sleep` at code/scrape-cpso.py:113 is outside the `try`, so a negative delay raises `ValueError` at the first retryable failure. The only caller passes the default delay of 2, so no reachable behaviour differs.
- Output.ProcessData: a JSON `null` is read as an absent key. So two detail rows whose `cpsonumber` is `null` are both kept, where pandas creates the column and keeps one of them. A raw file whose `postal_code` is `null` gets `'unknown'` and can be selected as capped, where Python keeps `None` (rendered length 4, never capped).
- Output.ProcessData: the CSV rendering of the tables and the backslash rewrite of the glob pattern are not modelled.

## Findings

| source | as written | input that shows it | evidently intended | confidence | as-written member | corrected member |
|---|---|---|---|---|---|---|
| code/create-postal-code-permutations.py:137-142 | Any JSON entry that is not a capped object executes `postal_codes = data`. This makes the result the input list itself, and each later capped object appends its code to the list being iterated. So a list that is not all capped objects comes back whole, objects included, followed by those codes. | `[{"postal_code": "K1A", "totalcount": 5}, {"postal_code": "K1B", "totalcount": -1}]` returns both objects and then `"K1B"`. | `["K1B"]`: the codes whose totalcount is -1, in order, as the docstring says. A list of plain strings is returned unchanged. | not executed | Permutations.LoadJsonAsWritten, Permutations.MixedJsonListKeepsObjects | Permutations.LoadPostalCodes, Permutations.LoadedCodesSpec |

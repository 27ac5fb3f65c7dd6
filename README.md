# OCR comparison dashboard: a verified model of its core

The dashboard sends each uploaded document to an OCR service twice, once
with "extra accuracy" and once without. It then compares the two JSON
answers. This project models that comparison in Dafny and proves what it
does:

- `flatten_json` turns a nested JSON value into a dictionary from path keys
  to scalar leaves, plus the keys in visit order (`Flatten`).
- `generate_comparison_results` gives a ✔/✘ verdict per key of the first
  answer. `generate_comparison_df` builds the full comparison table and
  `generate_mismatch_df` the mismatch-only table (`Compare`).
- `send_request` picks a MIME type from the file extension (`Mime`).
- `prepare_tree_data` turns the flat table back into a nested tree for the
  grid's tree view, appending nodes to lists in place (`TreeBuilder`).
- The runner page has two guards: the upload size limit and "Run OCR" with
  no file (`Runner`).
- The parser registry is a name-to-record dictionary. A form adds a
  parser, a button deletes one, and each app id gets an occurrence count
  (`Registry`).
- The page-generating variant of the registry also derives a page file name
  from each new parser (`ParserPages`).

`Text` holds the Python string operations the core uses: `strip`, ASCII
`lower`, `split`/`join` on one character, `replace` of one character, and
decimal formatting of list indices. `Json` is the decoded JSON value.
`Wrappers` holds `Option`.

Each source file keeps its own form:

- The recursive closure of `flatten_json`, which mutates `out` and `order`,
  is a class `Flatten.Flattener`. Its recursive method is proved against
  the pure reference walk `Flatten.Walk`.
- The three `generate_*` loops are methods with loop invariants. Each is
  proved against a function: `Verdicts`, `FullRows` or `MismatchRows`.
- `prepare_tree_data` mutates shared lists. These are objects
  (`TreeBuilder.NodeList`), and the proofs reason about a ghost snapshot of
  their contents that the methods keep in step with the objects.
- The registry dictionary is a class `Registry.ParserStore`. Its methods are
  proved against the pure transitions `Registry.Add` and `Registry.Delete`.

Some behaviours of the code, which the model keeps as they are:

- Path parts are joined by a single `_`, and list elements are keyed by
  their index alone.
- The verdict dictionary has the first answer's keys only. A key that only
  the second answer has gets no verdict.
- Values are matched only by the string rule or by equality. There is no
  date-aware or numeric-string matching, so `"10"` against `10` is a
  mismatch.
- `order` is not de-duplicated. A key reached twice is listed twice.
- A missing right-hand value is the string `"N/A"`. It is compared by the
  string rule, so a left value `" n/a "` matches a missing key.

## Model

| member | source | states |
|---|---|---|
| Flatten.Flattener.Flatten | ocr_utils.py:15-24 | the recursive `flatten(x, name)` appends to `order` exactly the keys of the leaves `Walk` visits, in order, and assigns those leaves into `out` in order |
| Flatten.FlattenJson | ocr_utils.py:11-27 | `flatten_json(y)` returns the dictionary `FlatMap(y)` and the list `FlatOrder(y)` |
| Flatten.FlatMapScalar | ocr_utils.py:16-24 | no value in the flattened dictionary is an object or an array |
| Flatten.OrderMatchesMapKeys | ocr_utils.py:22-24 | a key is in the flattened dictionary exactly when it is in `order` |
| Flatten.FlatMapKeepsLastLeaf | ocr_utils.py:23 | a leaf that no later leaf shares a key with is what the dictionary holds under its key, so on a collision the last leaf visited wins |
| Flatten.FlatOrderIsJoinedPaths | ocr_utils.py:18-24 | `order` has one entry per scalar leaf in depth-first field order, and each entry is that leaf's path of field names and indices joined by `_` |
| Flatten.WalkIsKeyedPaths | ocr_utils.py:15-24 | the prefix-accumulating walk equals an independent definition: the leaves' paths, keyed by joining |
| Flatten.TrailIsJoin | ocr_utils.py:23 | dropping the trailing `_` of the accumulated prefix gives the path's parts joined by `_` |
| Flatten.EmptyFieldAddsNothing | ocr_utils.py:17-18 | an empty object or empty array as a field's value adds nothing to the dictionary or to `order` |
| Flatten.EmptyItemAddsNothing | ocr_utils.py:20-21 | an empty object or empty array as the last element of a list adds nothing to the dictionary or to `order` (an earlier one would still shift the later elements' indices) |
| Flatten.KeyExamples | ocr_utils.py:18-23 | `{"a":{"b":1}}` gives key `a_b`, `{"a":["x"]}` gives `a_0`, and a scalar at the root is stored under `""` |
| Flatten.CollisionExample | ocr_utils.py:23-24 | `{"a_b":1,"a":{"b":2}}` lists `a_b` twice in `order` while the dictionary keeps only the value 2 |
| Flatten.RecordKeys | ocr_utils.py:23 | after the assignments, the dictionary's keys are the old keys plus the keys assigned |
| Flatten.RecordValues | ocr_utils.py:23 | every value in the dictionary is an old value or the value of some assigned leaf |
| Text.NatToString | ocr_utils.py:21 | `str(i)` of a list index is its decimal form: non-empty, all digits, reading back as `i`, and with no leading zero (`"0"` for zero), so it never contains `_` |
| Compare.ComparisonResults | ocr_utils.py:30-46 | the loop builds `Verdicts` of the first answer's order: a verdict for each of those keys, comparing the two values or `"N/A"` |
| Compare.Verdicts | ocr_utils.py:34-45 | the verdict dictionary has exactly the keys of the order, and each verdict is ✔ iff the two values agree under the string/equality rule |
| Compare.VerdictKeysAreFirstDocument | ocr_utils.py:31-35 | the verdict keys are exactly the keys of the first answer; keys found only in the second never appear |
| Compare.MissingRightComparesWithPlaceholder | ocr_utils.py:36-43 | a key missing from the second answer is compared with `"N/A"`: ✔ iff the first value is a string that strips and lower-cases to `n/a` |
| Compare.SelfComparisonAllMatch | ocr_utils.py:39-45 | comparing an answer with itself gives ✔ for every key and an empty mismatch table |
| Compare.AgreeExamples | ocr_utils.py:40-43 | `"Ok"` agrees with `"ok "`, equal numbers agree, the string `"10"` does not agree with the number 10, and a number does not agree with the `"N/A"` placeholder |
| Compare.CaseAndMarginsIgnored | ocr_utils.py:41 | `"Ok"` and `"ok "` normalise to the same string |
| Compare.ComparisonTable | ocr_utils.py:49-61 | the loop builds `FullRows`: one row `(key, value or "N/A", value or "N/A", verdict)` per key of the first answer, in order |
| Compare.FullRowsFaithful | ocr_utils.py:54-58 | the full table has one row per key of `order`, each with the first value, the second value or `"N/A"`, and the verdict of the two |
| Compare.MismatchTable | ocr_utils.py:64-76 | the loop builds `MismatchRows`: a row `(key, value, value)` for each key whose verdict is ✘, in order |
| Compare.MismatchRowsAreFilteredFullRows | ocr_utils.py:69-73 | the mismatch table is exactly the full table's ✘ rows, in the same order, without the verdict column |
| Compare.TableCounts | ocr_utils.py:54-73 | the ✔ rows and the ✘ rows of a table together number as many as its rows |
| Mime.Extension | ocr_utils.py:89 | the extension is empty or a suffix of the path that starts with the last `.`, holds no `/` and no other `.`, and has a non-dot character before it in the last path component; it is empty only when no `.` of the last component follows a non-dot character |
| Mime.MimeTypeKnown | ocr_utils.py:90-99 | the MIME type differs from `application/octet-stream` exactly when the lower-cased extension is one of the seven in the table, and it is always a table value or that default |
| Mime.MimeTypeIgnoresCase | ocr_utils.py:89 | upper and lower case in the path give the same MIME type |
| Mime.UpperCaseExtensionExample | ocr_utils.py:89-99 | `x.PDF` gets `application/pdf` |
| Mime.LastDotExample | ocr_utils.py:89-99 | `a.b.GIF` gets `image/gif`, from its last extension only |
| Mime.HiddenFileExample | ocr_utils.py:89-99 | `.png` has no extension and gets `application/octet-stream` |
| TreeBuilder.PrepareTreeData | ocr_runner.py:187-208 | the rows are inserted one by one into a new empty list, each as `InsertRow` states, so every node in the tree was put there for some row's path and no new branch shares an existing list; sibling names are distinct at every level; the top-level names are the rows' first parts, each once, in order of first appearance; no row's path is missing; a row that changed the tree now resolves to a leaf with its values; a row whose path an earlier row had changes nothing; a row with a first part no earlier row had is always added |
| TreeBuilder.InsertRow | ocr_runner.py:189-207 | one row changes the tree exactly when its path was missing, and then the path resolves to a leaf with its values; otherwise no list changes; of the lists that existed before, at most one changes, and it gains exactly one node, appended after its old nodes, named by the part of the path that was missing there, and for a part before the last it is a branch whose `children` is a list made for the row, never an existing one; each list the row creates holds at most one node, the one that continues the path, and its `children`, if any, is made for the row as well; the top-level list gains a node only when the first part was absent |
| TreeBuilder.NewHeadMissing | ocr_runner.py:189-205 | a row whose first part no earlier row had finds no top-level node of that name, so its path is missing and the row is added |
| TreeBuilder.Visit | ocr_runner.py:193-207 | one part: an existing branch is entered; an existing leaf leads to a new list outside the tree; an absent part is appended as a leaf with the row's values for the last part and otherwise as a branch with a new empty `children` |
| TreeBuilder.FindIn | ocr_runner.py:195 | the search returns the position of the first node with that name, or -1 |
| TreeBuilder.PathOf | ocr_runner.py:191 | an attribute splits into at least one part |
| TreeBuilder.DedupSpec | ocr_runner.py:189-205 | the top-level name sequence keeps every first part, each once, ordered by first appearance |
| TreeBuilder.ResolveGrows | ocr_runner.py:195-205 | appending nodes never changes where an existing path leads, so the first row with a path wins |
| Text.Split | ocr_runner.py:191 | `split('_')` gives at least one part and no part contains `_` |
| Text.JoinSplit | ocr_runner.py:191 | joining the parts of a split gives the attribute back |
| Text.SplitJoin | ocr_runner.py:191 | splitting parts joined by `_` gives the parts back when none contains `_` |
| Runner.RunPage | ocr_runner.py:80-115 | the page as intended: an upload over 20·1024·1024 bytes ends the page with an error whatever else happens; "Run OCR" reports no files exactly when no upload within the limit was saved; otherwise it sends the one saved file's path |
| Runner.RunPageAsWritten | ocr_runner.py:80-115 | the page as written: the size guard is the same, but since the module imports neither `tempfile` nor `Image` (lines 3-10), both saving branches fail, so "Run OCR" always reports that there is no file and no request is ever made |
| Text.JoinPath | ocr_runner.py:89 | `os.path.join(dir, name)` ends with the name; it starts with the directory when the name does not start with `/`, and is the name alone when it does |
| Registry.ParserStore.AddNewParser | parser_utils.py:62-87 | the in-place add takes the branch and reaches the state of `Add` on the old registry, and the key order still lists every name exactly once |
| Registry.AddRejects | parser_utils.py:65-77 | the add is rejected for missing fields iff the name, API key or app id is all whitespace, and as a duplicate iff the fields are there and the trimmed name is registered; a rejected add leaves the registry unchanged |
| Registry.AddInsertsOne | parser_utils.py:79-85 | a successful add inserts exactly the new trimmed name, with the five-field record of the trimmed key and app id and the form's other values, and leaves every other entry as it was |
| Registry.PaddedDuplicateExample | parser_utils.py:65-77 | the name `" A"` is a duplicate of a registered `"A"` |
| Registry.ParserStore.DeleteParser | parser_utils.py:119-120 | the in-place delete reaches the state of `Delete` on the old registry, and the key order still lists every name exactly once |
| Registry.DeleteRemovesOne | parser_utils.py:120 | delete removes exactly the named entry and leaves the others as they were |
| Registry.DeleteUndoesAdd | parser_utils.py:79-120 | deleting a parser just added gives back the registry from before the add |
| Registry.ParserStore.AppIdCounts | parser_utils.py:96-102 | the tally loop computes `Tally` of the parsers' app ids in listing order |
| Registry.TallyCounts | parser_utils.py:96-102 | the tally's keys are exactly the app ids, and each count is the number of parsers with that app id |
| Registry.TallySum | parser_utils.py:96-102 | the counts sum to the number of parsers |
| Registry.AddCountsAppId | parser_utils.py:79-102 | a successful add adds one occurrence of its trimmed app id to the tallied app ids |
| Registry.LinkId | parser_utils.py:111 | a parser's link id is the number of parsers sharing its app id, so at least 1 |
| Registry.SharedAppIdSharesLinkId | parser_utils.py:111-112 | two different parsers with one app id get the same link id, and it is at least 2: the id is a count, not a position |
| ParserPages.AddNewParserWithPage | pages/parser_utils.py:44-70 | the add changes the registry as the dashboard's add does, and a page is generated exactly when the parser was added, at `os.path.join("pages", file name)` of the trimmed name |
| ParserPages.PagePathCases | pages/parser_utils.py:74-75 | the page file is `pages/` plus the file name, unless the name starts with `/`: then the path is the file name alone, an absolute path outside `pages/` |
| ParserPages.AbsoluteNameExample | pages/parser_utils.py:74-75 | the parser name `"/x"` puts its page at `/x_parser.py` |
| ParserPages.PageFileName | pages/parser_utils.py:74 | the file name is the name lower-cased with every space made `-`, followed by `_parser.py`; it has no spaces and no upper-case letters |
| ParserPages.PageFileNameCollides | pages/parser_utils.py:74 | names equal up to case and space-for-hyphen get the same page file |
| ParserPages.PageFileNameCollisionExample | pages/parser_utils.py:74 | the two different names `"A b"` and `"a-b"` both get `a-b_parser.py` |
| Text.StripEmptyIffBlank | pages/parser_utils.py:47-57 | a field is empty after `strip()` exactly when it is all whitespace |

The delete button of the page-generating variant (pages/parser_utils.py:117)
is the same statement as the dashboard's (parser_utils.py:120), and its add
validates and inserts as the dashboard's does (pages/parser_utils.py:56-67).
Both are modelled by `Registry.ParserStore.DeleteParser`,
`Registry.ParserStore.AddNewParser` and the lemmas about `Registry.Add` and
`Registry.Delete` above.

## Findings

| source | as written | input that shows it | evidently intended | confidence | as-written member | corrected member |
|---|---|---|---|---|---|---|
| ocr_runner.py:3-10, 84-108 | the module imports neither `tempfile` nor `Image` (PIL), so the PDF branch fails at `tempfile.mkdtemp()` and the image branch at `Image.open`; the `except` at line 108 reports the `NameError` and `file_paths` stays empty | any upload within the 20 MB limit, then "Run OCR" | the upload is saved in a temporary directory and its path is sent to both OCR requests | high; not executed | Runner.RunPageAsWritten | Runner.RunPage |

## Left out

- The Streamlit interface is presentation: widgets, styling, expanders, the
  AgGrid options and its cell renderer.
- HTTP calls are not modelled: the OCR requests with their headers, form
  fields and timing, and the download of the saved registry. So are the
  module-level constants they use, including the undefined
  `GITHUB_API_URL` of the page-generating variant.
- File-system work is not modelled: temporary directories, saving the
  upload, removing the directories, reading and writing the registry file
  (`save_parsers`, `load_parsers`), and writing the generated page's
  contents. The cleanup at ocr_runner.py:135-139 calls `shutil.rmtree`,
  which is not imported either; it would only show a warning per
  directory, and as written no directory is ever created.
- Elapsed-time measurements are floating-point values and are left out.
- A JSON decode error leaves the response variables unbound. That is page
  control flow and is not modelled.
- The DataFrame around each table is not modelled. A table is a sequence of
  rows.
- Json.JsonValue: numbers are one exact numeric type, so `1 == 1.0` holds.
  Python's `True == 1` and a NaN unequal to itself are not modelled.
- Json.JsonValue: an object is a field sequence and may repeat a name, which
  a decoded Python `dict` cannot. Every result holds for any sequence.
- Text.Lower: only ASCII letters are lower-cased. Python's full Unicode case
  mapping is not modelled.
- Registry.LinkId: the link URL around the count, with `urllib.parse.quote`
  of the name, is not modelled.
- Runner.RunPage: `saved` stands for the PDF or image branch having written
  the file. A failure there, which the page reports and survives, is
  `saved == false`. The image decoding itself is not modelled.
- ParserPages.AddNewParserWithPage: the page path follows `os.path.join`,
  so a trimmed name starting with `/` gives an absolute path
  (`ParserPages.PagePathCases`). The model states the path string only.
  The file system is not modelled, so two things are not captured. A name
  such as `../x` gives `pages/../x_parser.py`, which is outside `pages/`.
  A name such as `a/b` gives `pages/a/b_parser.py`, and when `pages/a`
  does not exist, the `open` at pages/parser_utils.py:93 raises
  `FileNotFoundError` after the parser has been saved. Nothing in the add
  rejects such names. Writing the page's contents is not modelled.
- Registry.ParserStore.DeleteParser: in both sources the `del` runs inside
  the `for` over `st.session_state['parsers'].items()`
  (parser_utils.py:105-122, pages/parser_utils.py:104-119). The loop's
  next step raises `RuntimeError` (the dictionary changed size during
  iteration), so every delete ends the listing with an uncaught error.
  This happens after the registry was saved and the success message shown,
  even when the deleted entry was the last one. The model gives the new
  state and not that error.
- Compare.ComparisonTable, Compare.MismatchTable: both source loops look
  up each key in the verdict dictionary (ocr_utils.py:57 and ocr_utils.py:70) and would
  raise `KeyError` on a missing key. The model asks its caller for a
  verdict for every key, as the page provides.

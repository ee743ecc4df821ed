# StudyMate question-answering core, modelled in Dafny

StudyMate answers questions about an uploaded PDF. A FastAPI backend
(`backend/app.py`) records each request in a user-activity table and runs
`main.py` as a subprocess. `main.py` extracts the text, cuts it into
overlapping chunks, looks up the chunks relevant to the question, joins them
into a context string and asks a language model. Extraction, vector search and
the language model are placeholder stubs in the source. The model covers the
three parts that hold real logic:

- **Chunking** (`QaPipeline.ChunkText`): the `for i in range(0, len(text), step)`
  loop of `chunk_text`, with Python's clamped slices and its `strip()` test.
  The method is proved against the specification functions `Windows` (all
  candidate windows) and `Kept` (the windows that are not all whitespace).
  The lemmas then cover the window count `ceil(len(text) / step)`, the
  position and length of each window, document order, and coverage of every
  non-whitespace character.
- **Context assembly** (`QaPipeline.SelectChunks`, `QaPipeline.AssembleContext`):
  `[chunks[i] for i in indices if i < len(chunks)]` followed by
  `"\n\n".join(...)`. A negative index selects from the end of the list, as
  in Python. An index below `-len(chunks)` is an `IndexError`, which `main`
  reports as an error exit. The model returns it as `Err(IndexOutOfRange(i))`
  for the first such index.
- **User tracking** (`Backend.UserTable.TrackUser`, `Backend.ComputeStats`,
  `Backend.AskCommand`):
  - `track_user` finds the first record with the request's id, or appends a
    new one. It then adds the action record and keeps only the last fifty
    actions.
  - `stats` counts the records and the stored actions.
  - `ask` builds the argument vector for `main.py`.
  - The table is a class with a `seq<User>` field. Each record is a value, so
    the in-place update of the aliased dictionary becomes an update at its
    index.

Python built-ins the code relies on are modelled in module `Py`: slice bound
normalisation (negative bounds count from the end, then clamp), negative list
indexing, `str.join`, and `str.isspace()` (the characters `strip()` removes).
Python-only inputs become parameters: the user id (header or `uuid4()`), the
two `datetime.now()` readings, the client address, and the FAISS result
indices.

Two properties of the code deserve stating, since a reader may expect
otherwise:

- **Chunk count.** `range(0, 2500, 800)` also starts a window at 2400, so a
  2500-character text with sizes 1000/200 gives four chunks, not three:
  `[0,1000)`, `[800,1800)`, `[1600,2500)` and `[2400,2500)`. The fourth lies
  wholly inside the third (`QaPipeline.DefaultWindowsOf2500`).
- **Chunk fields.** Chunks carry no index and no character offsets. They are
  bare strings, in a list compacted after whitespace-only windows are dropped.
  `QaPipeline.KeptIndices` recovers each kept chunk's window number, which in
  general is not its list position.

There is no embedder, index, retriever, orchestration state machine or retry
logic in the code beyond the placeholder stubs listed under "Left out".

## Model

| member | source | states |
|---|---|---|
| `QaPipeline.ChunkText` | main.py:38-46 | the loop's result is the list of candidate windows that are not all whitespace, in order; empty text gives an empty list; every chunk has a non-whitespace character; a non-positive step is excluded as `range` raises or yields nothing |
| `QaPipeline.Window` | main.py:43 | the candidate chunk `text[i:i + chunk_size]` starting at `i` |
| `QaPipeline.WindowsFrom` | main.py:42-43 | one candidate chunk per value of `range(start, len(text), step)`, in loop order |
| `QaPipeline.Windows` | main.py:42-43 | all candidate chunks of `chunk_text(text, chunk_size, overlap)`, the range starting at 0 with step `chunk_size - overlap` |
| `QaPipeline.KeptIndices` | main.py:44-45 | the window number of each chunk that passes the `strip()` test, in the order the loop appends them |
| `QaPipeline.Kept` | main.py:44-45 | the filter keeps no more elements than it is given, and each one it keeps has a non-whitespace character |
| `QaPipeline.WindowStart` | main.py:42 | the `k`-th value of `range(0, len(text), step)`, each one step past the previous |
| `QaPipeline.WindowStartProduct` | main.py:42 | the `k`-th value of `range(0, len, step)` is `k * step` |
| `QaPipeline.WindowsFromAt` | main.py:42-43 | window `k` of a range loop from `start` begins `k` steps after `start`, inside the text, and is the slice `text[s:s + chunk_size]` there |
| `QaPipeline.WindowsFromCount` | main.py:42 | the range loop stops at the first start outside the text: the last start is inside and one more step leaves it |
| `QaPipeline.WindowCount` | main.py:42 | there are exactly `ceil(len(text) / step)` candidate windows |
| `QaPipeline.WindowContent` | main.py:42-43 | with a non-negative chunk size, window `k` starts inside the text and is `text[k*step : min(k*step + chunk_size, len)]`, of length `min(chunk_size, len - k*step)`, never longer than `chunk_size` and non-empty when `chunk_size > 0` |
| `QaPipeline.KeptIndicesLength` | main.py:44-45 | there is exactly one window number per kept chunk |
| `QaPipeline.KeptIndexAt` | main.py:44-45 | kept chunk `j` is the candidate window with number `KeptIndices[j]` |
| `QaPipeline.KeptIndexOf` | main.py:44-45 | every candidate window with content is kept, at some position `j` of the kept list |
| `QaPipeline.KeptIndicesIncreasing` | main.py:44-45 | the window numbers of kept chunks strictly increase, so chunks stay in document order |
| `QaPipeline.KeptIndicesExact` | main.py:44-45 | a window is kept if and only if it has a non-whitespace character |
| `QaPipeline.KeptIndicesSpec` | main.py:44-45 | the kept list is the subsequence of the candidate windows with content, picked out by a strictly increasing list of window numbers |
| `QaPipeline.CoveringWindow` | main.py:42-43 | with a non-negative overlap, position `p` lies inside window `p / step`, at its true offset |
| `QaPipeline.Coverage` | main.py:42-45 | with a non-negative overlap, every non-whitespace character of the text lies inside some kept chunk, which is the text's own slice at that chunk's window start |
| `QaPipeline.DefaultWindowsOf2500` | main.py:38-46 | with the defaults 1000/200 a 2500-character text has four windows `[0,1000)`, `[800,1800)`, `[1600,2500)`, `[2400,2500)`; without whitespace all four are kept |
| `QaPipeline.SelectChunks` | main.py:133 | the selection succeeds if and only if no index is below `-len(chunks)`; on failure it names the first such index; on success it has at most one chunk per index |
| `QaPipeline.Admitted` | main.py:133 | every index that passes the filter is below `len(chunks)` and comes from the input |
| `QaPipeline.AdmittedAppend` | main.py:133 | the filter preserves order: filtering a concatenation concatenates the filtered parts |
| `QaPipeline.AdmittedCounts` | main.py:133 | the filter drops exactly the indices `>= len(chunks)` and keeps every other index as often as it occurs |
| `QaPipeline.SelectChunksReference` | main.py:133 | when all indices are usable, the selection is the chunks at the admitted indices, a negative index counting from the end |
| `QaPipeline.SelectChunksAppend` | main.py:133 | selecting for a concatenation of index lists: the first error wins, otherwise the selections concatenate in order |
| `QaPipeline.SelectOne` | main.py:133 | one index: at or past the end it is skipped; `0 <= i` selects `chunks[i]`; `-len <= i < 0` (FAISS's `-1` among them) selects `chunks[len + i]`; below `-len` it is an error, not a skip |
| `QaPipeline.AssembleContext` | main.py:133-134 | the context fails exactly when the selection fails; an empty selection (no indices, or all at or past the end) gives `""` |
| `QaPipeline.ContextLayout` | main.py:134 | the context is the selected chunks with one `"\n\n"` between neighbours: its length, and context of a concatenation = the two contexts joined by the separator |
| `Py.ClampBound` | main.py:43 | how one slice bound is normalised: a negative bound counts from the end, and the result is clamped to `[0, len]`, case by case |
| `Py.Slice` | main.py:43 | Python's `s[lo:hi]` with step 1: both bounds normalised, empty when they cross, never an error |
| `Py.Join` | main.py:134 | `sep.join(parts)`: the parts in order with `sep` between neighbours, `""` for no parts |
| `Py.IsWhitespace` | main.py:44 | the characters `str.isspace()` accepts, which are the ones `strip()` removes |
| `Py.HasContent` | main.py:44 | the truth value of `chunk.strip()`: some character is not whitespace |
| `Py.SliceNonNegative` | main.py:43 | a slice with non-negative bounds is the Dafny slice with both bounds clamped to the length |
| `Py.SliceLast` | backend/app.py:59 | `s[-k:]` for `k > 0` is the last `min(len, k)` elements in order |
| `Py.InIndexRange` | main.py:133 | the indices Python's `chunks[i]` accepts for a list of length `len`: `-len <= i < len` |
| `Py.Position` | main.py:133 | Python's `s[i]` for `-len <= i < len` reads position `i`, or `len + i` for a negative `i` |
| `Py.JoinLength` | main.py:134 | `sep.join(parts)` is as long as all parts plus one separator between each two |
| `Py.JoinAppend` | main.py:134 | joining a concatenation of two non-empty lists joins each and puts one separator between |
| `Backend.IpValue` | backend/app.py:55 | the client host when the request has a client, otherwise `None` |
| `Backend.MakeEntry` | backend/app.py:52-57 | the action record has the fields `action`, `timestamp`, `ip` and the keyword arguments; keyword arguments win over `timestamp` and `ip`; `action` is always the given action |
| `Backend.FirstMatch` | backend/app.py:43 | finds the first record with the id, or reports that none has it |
| `Backend.Truncate` | backend/app.py:59 | `actions[-50:]`, as a Python slice with a negative start; the general `s[-k:]` length and contents are proved in `Py.SliceLast`, and the case `actions + [entry]` in `TruncateAppend` |
| `Backend.Tracked` | backend/app.py:43-59 | the table after one `track_user` call: the first record with the id, or a new record appended at the end, gets the action record appended and its actions cut to the last fifty |
| `Backend.TruncateAppend` | backend/app.py:52-59 | the new action list is the last `min(old_len + 1, 50)` elements of the old list plus the new action, and the new action is last |
| `Backend.TrackedNewUser` | backend/app.py:43-52 | an unknown id appends exactly one record, with that id, the first-seen time and a one-action list; earlier records are unchanged |
| `Backend.TrackedKnownUser` | backend/app.py:43-59 | a known id keeps the table length and changes only the first matching record's action list; later duplicates and all other records are untouched |
| `Backend.TrackedKeepsRecords` | backend/app.py:43-50 | no record is removed, ids and first-seen times are kept, and the tracked id is present afterwards |
| `Backend.TrackedKeepsCap` | backend/app.py:59 | if every record has at most 50 actions before, that holds after |
| `Backend.TrackedKeepsIdsDistinct` | backend/app.py:43-50 | pairwise distinct ids stay pairwise distinct |
| `Backend.TrackedTwice` | backend/app.py:43-50 | a second call with the same id does not grow the table |
| `Backend.UserTable.TrackUser` | backend/app.py:40-62 | returns the given id; the new table is `Tracked` of the old one with the action record built from the parameters; the unique-id and 50-action invariant is preserved |
| `Backend.UserTable.constructor` | backend/app.py:40 | the table starts as the loaded list |
| `Backend.TotalQuestions` | backend/app.py:73 | under the 50-action cap the number of stored actions is at most `50 * len(users)` |
| `Backend.ComputeStats` | backend/app.py:71-73 | `total_users` is the number of records; under the cap `total_questions <= 50 * total_users`; an empty table gives zero questions |
| `Backend.TotalQuestionsUpdate` | backend/app.py:73 | replacing one record changes the total by the difference of the two action counts |
| `Backend.TrackedTotal` | backend/app.py:52-59 | one tracked action adds one question for a new user, and moves a known user's count from `a` to `min(a + 1, 50)` |
| `Backend.Truthy` | backend/app.py:120 | the `if model:` test: the field is present and not the empty string |
| `Backend.AskCommand` | backend/app.py:112-121 | the argument vector `ask` passes to `subprocess.run` |
| `Backend.OptionValue` | main.py:103-108 | how `main`'s parser reads the value after an option flag, taking the arguments two by two |
| `Backend.AskCommandShape` | backend/app.py:112-121 | the command is `python script`, then `--pdf path --question q` at positions 2-5, then `--model m` last and exactly when the model field is present and non-empty; reading the options back pair by pair gives each value `ask` put in |

## Left out

- The stubs `extract_text_from_pdf`, `create_faiss_index`, `search_relevant_chunks` and `query_ibm_granite` are placeholders for a PDF parser, FAISS, sentence embeddings and IBM Granite, all foreign code with floating-point embeddings. The FAISS result indices are a parameter of `AssembleContext`.
- `main()` plumbing (argparse, the file-existence check, progress messages on stderr, JSON output, `sys.exit`). The `IndexError` path is modelled only as the `Err` result, not as the printed message or the exit status.
- `load_users`/`save_users`: file I/O and the fallback to `[]` on unreadable JSON. The table is the constructor's argument. Records from the file are assumed to have `id`, `first_seen` and `actions`. The `KeyError` a malformed record would raise is not modelled.
- `uuid.uuid4()`, `datetime.now()` and `request.client`: their values are parameters of `TrackUser`.
- `users_today` and `last_updated` in `stats`: they need the wall clock and ISO-8601 parsing.
- `ask` I/O: the temporary file, the script-path lookup, `subprocess.run` with its 600-second timeout, HTTP errors, and reading the answer out of stdout with `json.loads`. FastAPI routing and CORS are left out too.
- The lost update when concurrent requests read and rewrite `users.json`: this is concurrency.
- The key order of action dictionaries: a Dafny `map` is unordered, and the order only affects the JSON text written to disk.
- `OptionValue` reads options in pairs and does not model argparse's rule for values that begin with `-`: such a value longer than one character, with no space in it and not a negative number, is taken as an option, and argparse then reports a missing argument.
- Integers are unbounded. FAISS returns 64-bit indices, but no wrap-around can happen for list-sized values.
- Python strings may hold lone surrogate code points and Dafny characters cannot. Only chunking and whitespace testing see individual characters.
- The frontend (`frontend/src/App.tsx`, `frontend/tailwind.config.js`): UI state and styling with no algorithmic content.

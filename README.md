# AIssist-IndexBot: a verified model of the bot's sequential core

AIssist-IndexBot is a Telegram bot. It keeps a folder of documents
(`input/`), builds a vector index over them, answers questions from it, and
records tasks in a Postgres table. Most of its work happens in libraries:
the embedding model, the vector index, the LLM and the database. Four small
sequential algorithms in `bot.py` are the bot's own, and this project models
and proves them.

- **Tasks** (`tasks.dfy`) models the `/task` handler `add_task`:
  - it removes the first `/task` from the message, strips what is left and splits it on newlines;
  - it drops blank lines;
  - each other line gives one task, with an optional status after the first `status:` marker (default `todo`);
  - it records only the tasks whose text is non-empty;
  - its reply lists the recorded tasks or says "No tasks recognized.".

  The database insert is the list of inserted rows.
- **DocList** (`doclist.dfy`) models the `/docs` handler `list_docs`:
  - it sorts the file names by `str.lower`, and the sort is stable;
  - it numbers the names from 1;
  - it accumulates the numbered lines in a buffer;
  - it sends the buffer as one message as soon as the sum of `len(line) + 1` over the buffer exceeds 3500;
  - it sends any remainder at the end.

  The messages sent are the method's output.
- **Readers** (`readers.dfy`) models the `file_extractor` table. It maps twelve file suffixes to the PDF, Docx or generic reader, and it has an explicit "not registered" answer.
- **IndexBuild** (`indexbuild.dfy`) models `build_and_persist_index`:
  - it returns `(None, 0)` for a missing or empty `input/`;
  - it loads every regular file on its own, skipping non-files and swallowing a failed load;
  - it returns `(None, 0)` again when nothing loaded;
  - otherwise it builds one index over all loaded documents, persists it exactly once and returns it with the document count.

  The index directory is a class `IndexStore`. It holds the last persisted index and a write counter.
- **Strings** and **Seqs** hold the Python string and list operations these handlers use, each with its own contract:
  - from `str`: `strip()`, `in`, `split(sep, 1)`, `replace(old, new, 1)`, `split("\n")`, `"\n".join`, `str(int)`, `lower()` and `<=`;
  - the filter/map/concatenate patterns of the loops.

Inputs the handlers read from the outside world are parameters of the model:
- the message text and the chat id;
- the `PROJECT_NAME` setting;
- whether `input/` exists, and the paths of the files `os.walk` finds under it, relative to `input/`;
- the entries `iterdir()` yields, with the outcome of loading each one.

## Model

| member | source | states |
|---|---|---|
| Tasks.MessageLines | bot.py:184 | the lines of the message after the first `/task` is removed and the rest is stripped: at least one line, none holding a newline |
| Tasks.ParseLine | bot.py:186-199 | the parsed text and status are stripped and the status holds no space; a stripped line without `status:` gives its stripped self and status `todo` |
| Tasks.ParseLineKeeps | bot.py:186-199 | every character of the parsed text comes from the line; every character of the status comes from the line or from `todo` |
| Tasks.FirstMarkerThenWord | bot.py:190-196 | only the first `status:` counts; when its stripped remainder has a space, the status is the word before the first space and the text is `(before + rest).strip()` |
| Tasks.FirstMarkerNoSpace | bot.py:190-199 | when the stripped remainder after the first `status:` has no space, the status is that whole remainder and the text is `before.strip()` |
| Tasks.ParseTasks | bot.py:185-200 | the loop's `tasks` list is one task per non-blank line, in line order (`LineTasks`) |
| Tasks.LineTasksInOrder | bot.py:185-200 | a blank line contributes no task, a non-blank line exactly one, at its place between the tasks of the lines before and after it |
| Tasks.RecordTasks | bot.py:207-213 | the inserted rows are exactly the tasks with non-empty text, in order, and the k-th confirmation line renders the k-th inserted row as `[project / status] text` |
| Tasks.RecordedAreTheTasksWithText | bot.py:207-213 | a task is recorded if and only if it was parsed and its text is non-empty, and it is recorded as many times as it was parsed |
| Tasks.InsertedWellFormed | bot.py:184-213 | every recorded task belongs to the chat and project, and has non-empty, stripped, single-line text and a stripped, single-line status that contains no space character |
| Tasks.ReplyLines | bot.py:214-219 | no confirmation lines give "No tasks recognized."; otherwise the reply's lines are the header `"<n> task(s) added:"` followed by `- <line>` for each confirmation line in order |
| Tasks.AddTask | bot.py:178-219 | the inserted rows are the parsed tasks with non-empty text; each is well formed; the reply is "No tasks recognized." exactly when nothing was inserted; otherwise, when the project name holds no newline, its lines are the count header and one bullet per inserted task, in order |
| Strings.Strip | bot.py:184-199 | `strip()` leaves a string with no whitespace at either end |
| Strings.StripTrims | bot.py:184-199 | `strip()` removes a run of whitespace from the front and one from the back and keeps everything between them |
| Strings.StripUnique | bot.py:184-199 | any cut of whitespace from both ends that leaves a middle without surrounding whitespace gives exactly what `strip()` gives, so with `StripTrims` the result is determined |
| Strings.StripEmptyIff | bot.py:186-188 | `strip()` leaves nothing exactly when every character is whitespace |
| Strings.ReplaceFirst | bot.py:184 | `replace("/task", "", 1)` leaves a message without `/task` alone, and otherwise replaces its first occurrence and keeps the text on both sides |
| Strings.ReplaceFirstAt | bot.py:184 | the occurrence of the pattern with none before it is the one replaced |
| Strings.Find | bot.py:190-194 | the index of the first occurrence of a substring, or none exactly when there is no occurrence |
| Strings.SplitOnce | bot.py:191-194 | `split(sep, 1)` gives the text before the first separator and the text after it, which rejoined with the separator give back the string |
| Strings.Split | bot.py:184 | `split("\n")` gives at least one piece, and no piece holds the separator |
| Strings.JoinSplit | bot.py:184 | joining the pieces of a split with the separator gives back the string |
| Strings.SplitJoin | bot.py:215-216 | splitting a join of separator-free pieces gives back the pieces |
| Strings.DecimalRoundTrip | bot.py:215 | the decimal text of a count reads back as that count |
| DocList.SortByLower | bot.py:308 | the sorted list is a permutation of the names |
| DocList.SortSorted | bot.py:308 | the sorted list is in order by lower-cased name |
| DocList.SortStable | bot.py:308 | names with the same lower-cased form keep their input order |
| DocList.MessageLength | bot.py:311-315 | a message is one character shorter than the `len + 1` sum of its lines |
| DocList.ChunkMessages | bot.py:309-317 | the messages are the joins of a chunking of the numbered lines: the chunks laid end to end are exactly `"1. f1" … "n. fn"`, every chunk sent in the loop exceeds 3500 with its last line and not before, and no message is empty |
| DocList.ListDocs | bot.py:297-317 | no folder gives "No documents folder."; an empty listing gives "No documents found."; otherwise the messages chunk the numbered, case-insensitively sorted names |
| DocList.ChunkPrefixesWithin | bot.py:311-315 | every proper prefix of every sent chunk weighs at most 3500 |
| DocList.FirstChunkIsCut | bot.py:311-315 | the first chunk ends at the shortest prefix of the lines that weighs more than 3500, or takes all the lines |
| DocList.NoChunksIffNoLines | bot.py:316-317 | there are no messages exactly when there are no lines |
| DocList.ChunkingUnique | bot.py:309-317 | only one chunking follows the flushing rule, so the messages are determined by the names |
| Readers.ReaderFor | bot.py:93-106 | `.pdf` goes to the PDF reader and `.docx` to the Docx reader; `.doc .odt .xls .xlsx .pptx .txt .md .rst .html .htm` go to the generic reader; every other suffix is not registered |
| Readers.TwelveSuffixes | bot.py:93-106 | the table registers exactly those twelve suffixes |
| IndexBuild.IndexStore.constructor | bot.py:78-80 | a store opens with the index already on disk and no writes |
| IndexBuild.IndexStore.Persist | bot.py:78-80 | persisting records the index and adds one write |
| IndexBuild.LoadDocuments | bot.py:110-128 | the documents are the contributions of the entries in iteration order: none for a non-file or a failed load, all of a loaded file's documents otherwise |
| IndexBuild.BuildAndPersistIndex | bot.py:83-141 | a missing or empty directory gives `(None, 0)`; otherwise the count is the number of loaded documents; an index is returned exactly when the count is positive, and it covers the loaded documents and is persisted exactly once; with no index the store is untouched |
| IndexBuild.LoadedDocumentsAppend | bot.py:112-128 | the documents of two runs of entries are those of the first followed by those of the second |
| IndexBuild.SkippedEntryContributesNothing | bot.py:113-128 | a non-file or a file whose load raises adds nothing, and the later files still count |
| IndexBuild.LoadedFileInOrder | bot.py:117-121 | a loaded file's documents appear at its place in the iteration order |
| IndexBuild.CountIsTotal | bot.py:130 | the document count is the total number of documents the successfully loaded files produced |
| IndexBuild.NothingLoadedIff | bot.py:130-133 | nothing is indexed exactly when no entry is a file whose load produced a document |

## Left out

- Telegram transport (sending replies, the other handlers, `main`): the model returns the reply texts instead of sending them.
- The Postgres connection and INSERT in `add_task`: the inserted rows are the method's output. The `except` branch replies with a database error; a failing database is not modelled.
- `ai_reply`, `load_index`, `query_index` and `index_files_present`: HTTP and library calls outside the core.
- Embedding and `VectorStoreIndex.from_documents`: the index is reduced to the documents it covers, in order.
- Exceptions raised by embedding or by persisting propagate to the caller in the source. The model treats both steps as always succeeding.
- Directory listing and file loading (`os.listdir`, `iterdir`, `is_file`, `SimpleDirectoryReader`, `os.walk`): their results are inputs to the model.
- `LoadDocuments` takes each file's load outcome as given: the reader used and the documents it yields belong to the library.
- Logging, the debug listing of files and the preview of the first document: output only.
- The `ThreadPoolExecutor` and concurrent rebuilds: the source has no lock, and the model treats each build as sequential.
- `setup.py`: one-shot provisioning through subprocesses and prompts.
- Strings.Lower: lower-cases only the ASCII letters, while Python's `str.lower` covers all of Unicode.
- Strings.LexLe: compares characters by code point as Python does, but Dafny's `char` covers only Unicode scalar values.
- Readers.ReaderFor: bot.py only builds the table (bot.py:93-106) and hands it to `SimpleDirectoryReader` (bot.py:117-120), which does the lookup. `ReaderFor` is the exact lookup in the table; the library's own suffix handling, case folding included, is not modelled.
- No build lock and no atomic write of `index/`: the source has neither, so the model has neither.

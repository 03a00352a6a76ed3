# ijhttp-gui backend core, modelled in Dafny

This project models the decision logic of the ijhttp-gui backend, a web front end for JetBrains'
`ijhttp` command-line HTTP client. It covers three parts:

- **The request splitter** (`HttpFileUtil`, built on `Text`). `splitHttpRequests` cuts the text
  of a `.http` file into requests.
  - A line whose trimmed text starts with `###` separates requests.
  - Each request records its trimmed raw text and its 1-based first and last line.
  - Blank requests are dropped.

  The method follows the JavaScript loop line for line. Its postcondition `IsSplit` describes
  the result on its own terms:
  - every block is a maximal run of non-separator lines, and its raw text is that run joined
    and trimmed;
  - the blocks are in file order;
  - every non-blank, non-separator line lies in some block.

  `SplitIsUnique` shows that this description admits exactly one answer.

- **The command line of `runIjhttp`** (`Ijhttp`). This covers the rejection of a missing or
  empty file list, then the argument vector:
  1. `-e`, `-r`, `-L`, `-v`, `-p` each followed by its option, for truthy options only;
  2. then `extraArgs` verbatim;
  3. then the files.

  A parser for the flag section (`ParseFlags`) is the independent partner. The flags always
  read back as exactly the truthy options.

- **The file-record service** (`IjhttpFiles`), over an abstract `http_files` table that maps ids
  to rows and carries an AUTOINCREMENT counter:
  - paging in `queryFiles`, with SQLite's rules for a negative LIMIT or OFFSET;
  - validation and insertion in `createHttpFile`;
  - the dynamically built UPDATE of `updateHttpFile`. A small interpreter (`ExecuteUpdate`) runs
    the built statement, which shows that it sets exactly the given fields.

`Wrappers` holds `Option` (an `undefined`-or-value argument) and `Result` (a thrown error or a
rejected promise).

`ijhttpController.js` (line 19) passes the request's `fileIds` straight to `runIjhttp` as file
paths. Those ids are numbers, and they reach the command line as decimal text when `spawn`
builds the shell command, so `BuildArgs` models each entry of the file list as the string it
becomes.

## Model

| member | source | states |
|---|---|---|
| Text.SplitLines | backend/src/utils/httpFileUtil.js:7 | `split(/\r?\n/)` yields one more piece than the text has LF characters, and no piece contains an LF |
| Text.JoinSplitLinesAll | backend/src/utils/httpFileUtil.js:7 | for every text, joining the split lines with LF gives the text with each CRLF turned into LF (`DropCRBeforeLF`): the splitter removes exactly the line terminators, an LF with at most one CR right before it, and keeps every other CR |
| Text.JoinSplitLines | backend/src/utils/httpFileUtil.js:7 | for text without CR, joining the split lines with LF gives the text back |
| Text.TrimFacts | backend/src/utils/httpFileUtil.js:13 | `trim()` cuts out a slice bounded by non-whitespace, removing only whitespace around it, and is empty exactly when the line is blank |
| HttpFileUtil.SplitHttpRequests | backend/src/utils/httpFileUtil.js:6-39 | the blocks are the maximal separator-free runs of lines with non-blank trimmed text, in file order, with correct 1-based line ranges and raw text; every non-blank non-separator line is in one; there are at most one more blocks than separators |
| HttpFileUtil.SplitLinesIntoRequests | backend/src/utils/httpFileUtil.js:8-38 | the loop over the lines, followed by the filter, yields exactly the split that `IsSplit` describes, with at most one more block than there are separators |
| HttpFileUtil.SplitIsUnique | backend/src/utils/httpFileUtil.js:6-39 | two block lists that both meet the splitter's postcondition are equal, so the postcondition determines the output |
| HttpFileUtil.BlankBlock | backend/src/utils/httpFileUtil.js:38 | a block's trimmed raw text is empty exactly when every line of its run is blank, which is when the final filter drops it |
| HttpFileUtil.NonEmpty | backend/src/utils/httpFileUtil.js:38 | the filter keeps exactly the blocks with non-empty raw text, no more blocks than it was given, and their file order |
| HttpFileUtil.NoDelimiterOneBlock | backend/src/utils/httpFileUtil.js:26-36 | a file without separators and with some non-blank line is one block covering line 1 to the last line |
| HttpFileUtil.WholeFileBlock | backend/src/utils/httpFileUtil.js:26-36 | when no line is a separator and some line is non-blank, the result is the single block of all lines, joined with LF and trimmed |
| HttpFileUtil.SingleRequestFile | backend/src/utils/httpFileUtil.js:31-38 | a non-blank file without separators yields exactly one request, covering every line, whose raw text is the file with each CRLF read as LF, trimmed |
| HttpFileUtil.OnlyDelimitersAndBlanks | backend/src/utils/httpFileUtil.js:13-38 | a file of separators and blank lines only yields no request |
| Ijhttp.BuildArgs | backend/src/services/ijhttp.js:12-22 | rejects exactly a missing or empty file list with the fixed message; otherwise the vector is the flag section (which parses back to the truthy options), then `extraArgs`, then the files, and has length twice the truthy options plus the other two parts |
| Ijhttp.FlagArgsRoundTrip | backend/src/services/ijhttp.js:16-20 | the flag section reads back as exactly the truthy options, each under its own flag, in the order `-e -r -L -v -p` |
| Ijhttp.ProdInsecureExample | backend/src/services/ijhttp.js:16-22 | environment `prod` plus `--insecure` on one file gives `-e prod --insecure <file>` |
| Ijhttp.EmptyOptionsIgnored | backend/src/services/ijhttp.js:16-20 | options set to empty strings produce the same result as absent ones |
| IjhttpFiles.QueryFiles | backend/src/services/ijhttpFiles.js:7-24 | echoes page and page size (defaults 1 and 10); total is the row count; data is the run of the newest-first listing that starts at offset `(page-1)*pageSize` (negative counts as 0), at most `pageSize` long and full unless the listing ends first; data is newest first |
| IjhttpFiles.PagesTile | backend/src/services/ijhttpFiles.js:13-17 | with a positive page size, pages 1..p read in turn are exactly the first `p*pageSize` rows of the listing |
| IjhttpFiles.RowOnItsPage | backend/src/services/ijhttpFiles.js:13-17 | with a positive page size, the row at position i appears on page `i/pageSize+1` at position `i%pageSize` |
| IjhttpFiles.CreateHttpFile | backend/src/services/ijhttpFiles.js:33-44 | fails exactly for a missing or empty name, with the fixed message; otherwise echoes the name and the content (default empty), adds exactly one row under a fresh id, leaves the other rows alone and keeps the table consistent |
| IjhttpFiles.BuildUpdate | backend/src/services/ijhttpFiles.js:60-79 | nothing to set exactly when both fields are undefined; otherwise one SET clause per given field, filename before content, each paired with its value; the id is the last parameter; the SQL holds as many `?` as there are parameters |
| IjhttpFiles.ExecuteBuiltUpdate | backend/src/services/ijhttpFiles.js:77-81 | executing the built UPDATE replaces exactly the given fields of the row with that id and leaves every other row alone |
| IjhttpFiles.UpdateHttpFile | backend/src/services/ijhttpFiles.js:54-90 | a falsy id, no fields, and an unknown id each fail with their message and leave the table unchanged; otherwise the read-back row has exactly the given fields replaced and id and `created_at` kept, no other row changes and the table stays consistent (`updated_at`, which the trigger at db.js lines 20-27 rewrites, is not in the model) |
| IjhttpFiles.UpdateIdempotent | backend/src/services/ijhttpFiles.js:54-90 | repeating an update changes neither the modelled table nor the answer; `updated_at`, which the trigger rewrites on each UPDATE, is not in the model |
| IjhttpFiles.RenameAfterCreate | backend/src/services/ijhttpFiles.js:33-90 | a freshly created file can be renamed by id: the update finds it and keeps its content and `created_at` |

## Left out

- Process execution in `runIjhttp` (`spawn` with `shell: true`, stream collection, exit code, spawn errors, ijhttp.js lines 24-35) is I/O. The model stops at the argument vector. Shell word splitting and quoting of the arguments are not modelled.
- Option values other than strings are not modelled. This covers numbers, booleans and objects, with their own JavaScript truthiness. A non-array `extraArgs` is modelled as absent. A `null` options object, which would throw a TypeError, is not modelled.
- The SQLite engine is replaced by an abstract table (`Table`). This leaves out the schema and constraints in `db.js` and the `updated_at` trigger, since `FileRecord` has no `updated_at`. `COUNT(*)` is the map's size and AUTOINCREMENT is a counter.
- IjhttpFiles.QueryFiles: the `ORDER BY created_at DESC` result is supplied as a `listing` that must be the table's ids newest first (`IsListing`). The order among equal timestamps is left to the storage engine.
- IjhttpFiles.QueryFiles: `page` and `pageSize` are modelled as integers. Query-string values that JavaScript coerces (`"2"`, `NaN`, fractions) are not modelled. Nor are a LIMIT or OFFSET outside the 64-bit integer range, on which SQLite raises an error where the model clamps or leaves the window unbounded, or JavaScript's loss of precision above 2^53 in `(page - 1) * pageSize`.
- IjhttpFiles.CreateHttpFile: the clock is the `now` parameter. A `null` content, which the NOT NULL constraint would reject, and non-string names are not modelled.
- IjhttpFiles.UpdateHttpFile: the id is an integer or absent, and its truthiness is "present and non-zero". `null` field values, which would violate NOT NULL, and non-numeric ids are not modelled.
- The controllers, routes, `app.js` and the frontend are not part of this model. This includes the controller's own gate on update requests at ijhttpFilesController.js line 40. That gate rejects a request whose `fileName` and `content` are both falsy, for example both empty strings. The service itself would accept such a request and store the empty values.

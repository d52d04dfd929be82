# FAQ site backend and self-updater: a Dafny model

This project models two pieces of a small FAQ web service. Both are written as
pure functions over immutable values.

- **The self-updater** (`updater.py`). `check_and_download` decides between
  "download ready" (1), "no update" (0), "asset missing" (-2) and "error" (-1).
  It returns None when `settings.json` is missing. Its inputs are the settings
  file, the latest-release response, the archive download and the outcome of
  saving `main.zip`. `update` runs the
  check, then sequences its outcome: it unpacks and deletes `main.zip`, or logs
  one failure line built from the `error_codes` table. It then writes
  `update_log.txt` and relaunches `main.py`. Each `_log` call appends one
  timestamped line to the log buffer.
- **The FAQ store** (`main.py`). Flask and the JSON files are removed. What is
  left is the loaded state: the summary list from `all.json` and the id-to-record
  map from `faq.json`. `edit` validates the request and fills missing `en`/`ro`
  texts from `ru`. It then upserts the record into the map and the summary into
  the list. `delete` filters the list and removes the map key. The model also
  covers the upload naming rule with its 409 on an existing file, the image filter
  of `list_assets`, the `can_edit` cookie test and the default value of `load`.

Modules: `Wrappers` (Option), `Strings` (Python's `strip`, `lower`, `endswith`,
`join`), `Seqs` (order-preserving filter), `Updater`, `FaqStore`, `Access`,
`Uploads`.

Facts about the code that the model follows:

- `update` unpacks every archive entry with `extractall('.')` (updater.py:82-83). No entry is excluded.
- Neither function installs dependencies (updater.py:22-92).
- Neither function writes `settings.json` itself: `check_and_download` only reads it (updater.py:24-25). `extractall('.')` (updater.py:83) overwrites it, and with it `current_ver`, exactly when the archive contains a `settings.json`. Besides the extracted entries, `update` deletes `main.zip` (updater.py:85) and writes `update_log.txt` (updater.py:89-90).
- A missing `settings.json` makes `check_and_download` return None (updater.py:26-28). `update` then still logs the failure line, writes the log file and relaunches `main.py` (updater.py:78-79, 88-92).
- Only `FileNotFoundError` is caught around the settings load (updater.py:23-28). An unreadable `settings.json` raises out of `update`.
- `update` catches nothing (updater.py:76-92). A failing `extractall`, `os.remove`, log write or `os.startfile` ends the run, and nothing after it runs.
- The edit guard accepts any `can_edit` cookie whose lower-cased text is `"true"` (main.py:27-28). It checks nothing else.
- Versions are compared by plain equality (updater.py:46). A release with no `tag_name` and settings with no `current_ver` compare equal (None == None), so the outcome is 0.
- The `assets` member is read only after the tag test and the "new version found!" line (updater.py:46-53). A null `assets` raises TypeError in the loop, so the outcome is -1.
- `open('main.zip', 'wb')` truncates the file before `write` runs (updater.py:66-67). A failure there returns -1 and can leave `main.zip` damaged.

## Model

| member | source | states |
|---|---|---|
| `Updater.Describe` | updater.py:9-13 | the fallback text 'unknown error' appears exactly for None and for 1; every other outcome code has its own text in the table |
| `Updater.Log` | updater.py:15-17 | `_log` appends exactly one entry and leaves the earlier entries unchanged; the new entry parses back to its timestamp and message |
| `Updater.EntryRoundTrip` | updater.py:17 | a line `[updater.py] - [<ts>]: <message>` gives back exactly its timestamp and message, for any timestamp without `]` |
| `Updater.LogAll` | updater.py:15-17 | a run of `_log` calls keeps the old buffer as a prefix and adds one entry per message, in order, stamped with its time |
| `Updater.FindFrom` | updater.py:52-56 | the asset loop stops at the first asset that has no name or is named main.zip: a KeyError if that asset lacks 'name' or (when it matches) 'browser_download_url', otherwise that asset's URL; no match exactly when every asset has some other name |
| `Updater.CheckAndDownload` | updater.py:22-74 | None iff settings.json is missing; an exception iff the settings are unreadable; 0 iff the tag equals current_ver exactly; -2 iff the tags differ, `assets` is not null, and the asset loop either ends with every asset having another name or stops at a first main.zip asset whose URL is null or empty (an asset without a name before it raises KeyError, so -1); 1 iff the download and the file write also succeed; main.zip holds the downloaded bytes in full iff the result is 1; it is left damaged iff the download succeeded but opening or writing the file raised; a failed release request gives -1 |
| `Updater.NoArchiveAssetMeansMissing` | updater.py:52-60 | with an asset list that names no main.zip, main.zip is not touched and the result is -2, or -1 when some asset lacks its name |
| `Updater.OnlyFirstArchiveAssetCounts` | updater.py:53-58 | when the first main.zip asset has a null or empty URL the result is -2 and main.zip is not touched, even if a later main.zip asset has a usable URL |
| `Updater.NullAssetsFail` | updater.py:44-74 | a null `assets` in a newer release gives -1 after the intro and "new version found!" lines, with the TypeError text, and main.zip is not touched |
| `Updater.ExceptionMeansError` | updater.py:39-74 | a failure in the release request, or in the download or file write once they are reached, gives -1; main.zip is left damaged exactly when the failure was in opening or writing it, and is otherwise not touched |
| `Updater.Sequence` | updater.py:77-92 | after the check: extracts the downloaded archive iff the result is 1; deletes main.zip iff extraction succeeded; with no failing step writes the joined log to update_log.txt and relaunches; it never relaunches before writing the log; a check that raised gives no log file and no relaunch |
| `Updater.SequenceLogs` | updater.py:77-90 | the buffer after a run is the old buffer followed by one entry per logged message, entry k stamped with the clock at position k; the check's messages come first; a check that raised logs nothing |
| `Updater.ReadyCheckMessages` | updater.py:80-88 | after outcome 1 the check's messages are followed by the unpacking, deletion and closing lines, cut short after the line of the step that raises |
| `Updater.FailedCheckMessages` | updater.py:78-79 | when the check did not give 1, the check's messages are followed by exactly the failure line and the closing line |
| `Updater.Update` | updater.py:76-92 | extracts the downloaded bytes iff the check gave 1; with no failing step and readable or missing settings, finishes, writes the log file and relaunches main.py; unreadable settings mean no log file, no relaunch and an unchanged buffer |
| `Updater.UpdateLogsOneFailureLine` | updater.py:78-79 | an outcome other than 1 gives exactly one "update failed. code: …" line, right after the check's messages; outcome 1 gives none |
| `Updater.MissingSettingsLogsUnknownError` | updater.py:26-28 | a missing settings.json returns None; update then logs "update failed. code: None (unknown error)", writes the log and relaunches |
| `FaqStore.Load` | main.py:13-18 | a failed read gives an empty list for all.json and an empty object for any other file name; a successful read gives the parsed value |
| `FaqStore.LoadStore` | main.py:67-68 | the store a handler starts from: the list read from all.json or an empty list, and the map read from faq.json or an empty map |
| `FaqStore.Fill` | main.py:61-65 | a missing, null or empty en/ro value becomes the ru value; a truthy en/ro value and every other language stay as they were; the keys grow by en and ro only; a truthy ru title makes all three titles truthy |
| `FaqStore.FillIdempotent` | main.py:61-65 | filling an already filled object changes nothing |
| `FaqStore.Upsert` | main.py:77-90 | the list keeps its length when an item has the id and grows by one otherwise; the new summary is in the result |
| `FaqStore.UpsertSpec` | main.py:77-90 | only the first item with the same id is replaced, and all other positions stay; with no such item the summary is appended at the end |
| `FaqStore.UpsertIdempotent` | main.py:77-90 | upserting the same summary twice equals upserting it once |
| `FaqStore.Parse` | main.py:51-56 | the id is the request's id with leading and trailing whitespace removed: a contiguous slice with only whitespace around it and none at its ends, empty exactly when the id was missing or all whitespace; missing titles and contents become empty maps and missing tags an empty list, and present members are kept as sent |
| `FaqStore.Edit` | main.py:48-95 | 400 iff the stripped id is empty or the ru title is missing or empty, and then the store is unchanged; otherwise 201, the map gains exactly the id, the other keys keep their records, and the list keeps its length when the id was present and grows by one otherwise |
| `FaqStore.EditWritesRecord` | main.py:70-90 | an accepted edit stores the full filled record under the stripped id, its en and ro titles are non-empty, and its summary is in the list |
| `FaqStore.EditOnMissingFiles` | main.py:67-95 | with both files missing, an accepted edit answers 201 and leaves exactly one summary and one record, both for the stripped id |
| `FaqStore.EditIdempotent` | main.py:48-95 | sending the same edit twice gives the same reply and store as sending it once |
| `FaqStore.Delete` | main.py:97-115 | 400 iff the id is missing or empty, and then the store is unchanged; otherwise 200, the list keeps exactly the items with a different id, and the map loses exactly that key |
| `FaqStore.DeleteKeepsOrder` | main.py:108 | the filter keeps the remaining items in their original relative order |
| `FaqStore.DeleteIdempotent` | main.py:108-110 | deleting twice gives the same state as deleting once |
| `FaqStore.DeleteUndoesEdit` | main.py:70-110 | deleting the id of an accepted edit gives the same store as deleting it without the edit |
| `Strings.Strip` | main.py:52 | `str.strip()` gives the contiguous slice left after removing leading and trailing whitespace: only whitespace around it, none at its ends, and empty iff the input is all whitespace |
| `Access.CanEditSpellings` | main.py:27-29 | the edit guard admits a request iff its cookie is present and spells "true" in any mix of cases; a missing cookie counts as "" and is refused |
| `Uploads.SplitExt` | main.py:129 | `os.path.splitext`: root and extension concatenate back to the path; the extension is non-empty iff the last path component has a dot with some non-dot character before it; a non-empty extension starts with the only dot in it, has no separator, and follows a base name that is not dots only |
| `Uploads.SplitExtRoundTrip` | main.py:129 | splitting `dir + stem + "." + suffix` gives back `dir + stem` and `"." + suffix`, when `dir` is empty or ends in a separator, the stem has no separator and is not dots only, and the suffix has neither dots nor separators |
| `Uploads.CustomName` | main.py:128-131 | the custom name lower-cased ends with the file's lower-cased extension; the extension is appended iff it was not already there |
| `Uploads.CustomNameIdempotent` | main.py:128-131 | applying the naming rule to its own result changes nothing |
| `Uploads.StoredName` | main.py:126-134 | a non-empty custom name is stored as its sanitized form carrying the file's lower-cased extension (appended only when missing); an absent or empty custom name falls back to the sanitized client file name |
| `Uploads.Upload` | main.py:117-141 | 400 iff there is no file part or its filename is empty; 409 when the stored name is empty (the folder itself) or matches an existing file up to letter case; 200 stores the contents under a non-empty name that no existing file matches up to letter case; no status other than 200 changes the folder |
| `Uploads.UploadNeverOverwrites` | main.py:136-140 | a file already in the folder keeps its contents after any upload |
| `Uploads.IsImageIgnoresCase` | main.py:160 | the image test gives the same answer for a name and for its lower-cased form |
| `Uploads.ListAssets` | main.py:156-163 | an unreadable folder gives 500; otherwise 200, and a name is listed iff it is in the folder and ends, case-insensitively, in .png, .jpg, .jpeg, .gif, .svg or .webp |
| `Uploads.ListAssetsKeepsOrder` | main.py:160 | the images keep the order of the directory listing |

## Left out

- HTTP and network I/O (`requests.get`, `raise_for_status`, `response.json`): each is an input value that either succeeds or raises with an opaque message. A response body that is not a JSON object raises at `latest_release.get` (updater.py:44), before any line after the intro is logged, so it is modelled as a failed release request.
- Asset entries that are not JSON objects, and an `assets` member that is neither null nor a list, are not modelled.
- Filesystem work (writing `main.zip`, `extractall`, `os.remove`, writing `update_log.txt`, the JSON `load`/`save` calls, `os.path.exists`, `os.listdir`, `file.save`): the model works on the values they read or write. The upload folder is a map from name to bytes.
- Failures of the FAQ JSON files beyond a missing or malformed file are not modelled. A `load` that raises anything other than FileNotFoundError or JSONDecodeError propagates out of the handler; a non-UTF-8 file raising UnicodeDecodeError is one case. A `save('faq.json')` that fails after `save('all.json')` succeeded (main.py:92-93) leaves the list and the map out of step. The model treats each handler's two saves as one step.
- `Updater.CheckAndDownload`: a failure in `open('main.zip', 'wb')` and a failure in `f.write` are both reported as a damaged main.zip. The model does not tell apart a file that was never opened from one that was truncated or partly written.
- `Updater.Sequence`: a step that raises part-way is taken to have done nothing. That covers a partially extracted tree and a partially written log file.
- `print`, the `datetime.now()` timestamps and the `os.startfile` relaunch: timestamps come from a `clock` parameter, and the relaunch is a flag on the result.
- Flask routing, `render_template`, `send_from_directory`, `jsonify` and request parsing: only status codes and resulting data are modelled. The `/all`, `/get`, `/`, `/assets` and `/edit_page` routes are not part of this model. Each guarded handler is modelled as what runs once `Access.CanEdit` holds; otherwise the decorator answers 401 and nothing changes.
- `werkzeug.secure_filename` is a foreign library, so it is a function parameter of `Uploads.Upload`.
- `Access.CanEditSpellings`: `str.lower()` is modelled for ASCII letters only. Non-ASCII case mappings are not modelled.
- `Uploads.CustomName`: the same ASCII-only `lower()`.
- `Uploads.ListAssets`: the same ASCII-only `lower()`.
- `Uploads.SplitExt` follows the Windows flavour of `os.path`, with both `/` and `\` as separators, because the program relaunches itself through the Windows-only `os.startfile`.
- `Uploads.Upload`: `os.path.exists` is taken to ignore letter case, as on the Windows file system the program targets, and the case folding is the ASCII-only `lower()`. Non-ASCII case mappings are not modelled.
- `Uploads.Upload`: the `if file:` test is always true once the filename is non-empty, so its implicit fall-through is not modelled.
- JSON values of unexpected types are not modelled: a `null` id, titles or contents (an AttributeError, so 500, at main.py:52, 58 or 64), a non-string id, numeric titles, tags of any shape, a summary without an `id`, an all.json item with members other than id, titles and tags (`edit` updates the matching item in place and `delete` keeps other items whole, so such members survive in the source, main.py:80-81 and 108), or a request body that is not an object. The edit request's members are optional strings, string maps and string lists.
- Exception messages other than the KeyError text (`'name'`, `'browser_download_url'`) and the TypeError text for a null `assets` (`Updater.NotIterable`) are opaque strings supplied with the failing input.

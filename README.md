# NBN provider scraper: parsing, log retention and stamped names

This project models the core of `NBNProviderScraper` in `jsonextractor.py`
and proves properties of the model in Dafny. The scraper collects the
retail service providers listed on the NBN web page into a list of
records, keeps a small rolling set of log files, and writes its results
under time-stamped file names. Three pieces are modelled:

- **`parse_providers`** (`providers.dfy`, module `Providers`).
  - A page is the sequence of its `rsplist-item` containers, in document order.
  - Each container records what the three HTML lookups find: the name text, the phone text and the first anchor. The anchor's `href` may be missing.
  - The scraper is a class whose `providers` list grows across calls.
  - The loop builds one partial record per container and appends it when `all(provider.values())` holds.
  - The loop stops with `KeyError` when an appended record has no `name`.
  - The module also has the evidently intended, corrected filter (see Findings).
- **The retention step of `setup_logging`** (`logretention.dfy`, module `LogRetention`).
  - The log directory is a class over a listing of entries, each with a name and its `os.path.getctime` value (`ctime`).
  - With five or more `ExtractNBNProviderstoJSON_*.log` files present, the one that sorts first by `ctime` is deleted.
  - The sort is stable, so the first one listed wins on ties.
  - A failed deletion is reported, not raised.
  - Then the run's own log file is opened.
- **Time-stamped names** (`naming.dfy`, module `Naming`).
  - `strftime('%Y%m%d_%H%M%S')` and its inverse.
  - POSIX `os.path.splitext`.
  - `save_to_json`'s name `base + "_" + timestamp + ext`, with its inverse.

The remaining modules are `Text` (`text.dfy`) and `Wrappers` (`wrappers.dfy`). `Text` holds Python's `str.strip()` with `str.isspace()`'s whitespace set. `Wrappers` holds the `Option` type.

## Model

| member | source | states |
|---|---|---|
| Text.LeadingCut | jsonextractor.py:131 | where `strip` starts: everything skipped is whitespace and the first kept character is not |
| Text.TrailingCut | jsonextractor.py:131 | where `strip` ends: everything dropped is whitespace and the last kept character is not |
| Text.Strip | jsonextractor.py:131 | `.strip()` leaves no whitespace at either end, and its result is empty exactly when the text is all whitespace |
| Text.StripInfix | jsonextractor.py:131 | the stripped text is a contiguous piece of the original, with only whitespace cut on either side |
| Text.StripKeepsStripped | jsonextractor.py:131 | stripping text with no surrounding whitespace returns it unchanged |
| Providers.Values | jsonextractor.py:144 | `provider.values()` has exactly one entry per key present (so at most three), and a string is among them iff some present key holds it |
| Providers.Accepted | jsonextractor.py:144 | `all(provider.values())`: each present field is non-empty; `AcceptedIsAllValues` ties it to `Values` |
| Providers.AcceptedIsAllValues | jsonextractor.py:144 | the acceptance test holds iff every value present is non-empty, so `{}` passes |
| Providers.StripOpt | jsonextractor.py:131 | a stripped optional field is present iff the element was found, and its value is stripped |
| Providers.RaisesKeyError | jsonextractor.py:144-147 | the `Found provider` line raises `KeyError` iff the container has no name div, its phone (if any) is non-empty after stripping and its link (if it counts) is non-empty after stripping |
| Providers.Candidate | jsonextractor.py:127-142 | `name` iff the name div exists, `phone` iff the phone span exists, and `website` iff the first anchor has a non-empty raw `href`; every value is stripped |
| Providers.BuildCandidate | jsonextractor.py:127-142 | the field-by-field construction of the dict yields exactly `Candidate(c)` |
| Providers.Scan | jsonextractor.py:125-149 | one call appends at most one record per container |
| Providers.ScanKeepsOnlyAccepted | jsonextractor.py:144-145 | every appended record passed `all(values)` and holds only stripped values |
| Providers.AcceptedCandidatesSnoc | jsonextractor.py:125-145 | the reference list of accepted candidates extends container by container, in document order |
| Providers.ScanAppendsAccepted | jsonextractor.py:125-145 | when nothing raises, the appended records are exactly the accepted candidates, in document order |
| Providers.ScanStopsAtRaise | jsonextractor.py:146-149 | once the loop has raised, later containers change nothing |
| Providers.ScanRaisesIff | jsonextractor.py:144-149 | the loop raises iff some container yields an accepted record without a `name` key |
| Providers.CompleteIsKept | jsonextractor.py:144-146 | a container whose three fields are present and non-empty after stripping is appended without raising |
| Providers.Candidates | jsonextractor.py:125-142 | the candidate records of a page, one per container, in order |
| Providers.CompleteContainersAllKept | jsonextractor.py:125-149 | a page of complete containers yields exactly their records, in order, without raising |
| Providers.TwoCompleteContainers | test_jsonextractor.py:27-58 | two complete containers yield exactly their two records in order without raising; a container whose three texts are already stripped is stored with those texts unchanged |
| Providers.CleanCandidate | jsonextractor.py:131-142 | for a complete container, the record holds its raw texts unchanged iff all three are already stripped |
| Providers.CleanComplete | jsonextractor.py:144 | non-empty, already-stripped texts in all three elements make a container complete and clean |
| Providers.TestPageParsed | test_jsonextractor.py:27-58 | the page of the test, with its two literal providers, parses to exactly those two records, in order, without raising |
| Providers.IncompleteRecordStored | jsonextractor.py:144-145 | as written: a container with only a name div, whose name is non-blank, is stored as a one-key record, while the corrected filter keeps nothing |
| Providers.NamelessRecordAbortsParse | jsonextractor.py:144-149 | as written: a nameless accepted record is stored, the log line raises `KeyError`, and a complete provider after it is lost |
| Providers.CompleteRecord | jsonextractor.py:144 | corrected: a container yields a record iff it is complete; the record's three fields are non-empty and stripped |
| Providers.CompleteRecords | jsonextractor.py:125-149 | corrected: at most one record per container, each with three non-empty fields |
| Providers.CompleteRecordsConcat | jsonextractor.py:125-149 | corrected: containers are processed independently, so a page's records are those of its halves in order, and the pass never stops early |
| Providers.AsProviders | jsonextractor.py:144 | the corrected records seen as dicts with all three keys, one per record |
| Providers.CorrectionAgreesOnFullContainers | jsonextractor.py:125-149 | on pages where every container has a name div, a phone span and a first anchor with a non-empty `href`, the code as written and the corrected filter give the same records and nothing raises |
| Providers.HreflessAnchorDiffers | jsonextractor.py:140-145 | a container with a name, a phone and an anchor without `href` is stored without `website` as written, while the corrected filter keeps nothing |
| Providers.ProviderScraper.constructor | jsonextractor.py:28 | a new scraper's list is empty |
| Providers.ProviderScraper.ParseProviders | jsonextractor.py:114-149 | an empty page warns and leaves the list unchanged; otherwise the old list is kept as a prefix and exactly `Scan`'s records are appended; the outcome says whether `KeyError` ended the call |
| Naming.Pad | jsonextractor.py:53 | a zero-padded field has exactly the requested width and only digits |
| Naming.DecimalValue | jsonextractor.py:53 | a digit string of length w denotes a number below 10^w |
| Naming.PadValue | jsonextractor.py:53 | reading back a padded number gives the number |
| Naming.ValuePad | jsonextractor.py:53 | padding the value of a digit string to its length gives the string back |
| Naming.FormatTimestamp | jsonextractor.py:53 | `%Y%m%d_%H%M%S` is 15 characters, `_` at index 8, digits elsewhere |
| Naming.TimestampRoundTrip | jsonextractor.py:53 | parsing a formatted timestamp gives back the date and time |
| Naming.ParseTimestampExact | jsonextractor.py:53 | formatting a parsed timestamp gives back the text, so each timestamp names one second |
| Naming.TimestampFields | jsonextractor.py:53 | a timestamp-shaped text is its six digit fields around the `_` |
| Naming.RFind | jsonextractor.py:160 | the index of the last occurrence of a character, or -1 when there is none |
| Naming.RFindConcat | jsonextractor.py:160 | the last occurrence in a concatenation is in the right part if it has one, else in the left |
| Naming.SplitExt | jsonextractor.py:160 | `base + ext == filename`; `ext` is empty or starts with `.` and holds no other `.` or `/`; an extension is split off iff the last path component has a `.` after some non-dot character, and then at the last `.` |
| Naming.ExtensionWhere | jsonextractor.py:160 | the last component has an extension iff its last `.` comes after the last `/` and is preceded, within the component, by a non-dot character |
| Naming.DefaultNameSplit | jsonextractor.py:151-161 | the default name `nbn_providers.json` splits into `nbn_providers` and `.json` |
| Naming.DotFileSplit | jsonextractor.py:160 | a leading-dot name such as `.bashrc` has no extension |
| Naming.ExtensionChars | jsonextractor.py:160 | the text after the last dot that follows the last slash holds no `.` or `/` |
| Naming.SplitExtInsert | jsonextractor.py:159-161 | inserting a piece free of `.` and `/` between base and extension does not move the split |
| Naming.InsertWithoutExtension | jsonextractor.py:160 | appending such a piece to a name with no extension leaves no extension |
| Naming.InsertBeforeExtension | jsonextractor.py:159-161 | inserting such a piece before an extension keeps that extension |
| Naming.InsertedSeparators | jsonextractor.py:160 | after the insertion, the last `.` is the extension's and the last `/` is the base's |
| Naming.StampedName | jsonextractor.py:159-161 | the stamped name is 16 characters longer than the original |
| Naming.NoSeparatorsInStamp | jsonextractor.py:161 | `"_" + timestamp` holds no `.` or `/` |
| Naming.StampRoundTrip | jsonextractor.py:159-161 | the original name and the time can be read back from the stamped name, so different names or seconds never collide |
| Naming.UnstampSplit | jsonextractor.py:159-161 | reading back a name whose split ends the base with the stamp |
| LogRetention.LogFileName | jsonextractor.py:53-54 | the run's log name matches the retention filter and has a fixed length |
| LogRetention.LogFileNameInjective | jsonextractor.py:53-54 | runs started in different seconds get different log files |
| LogRetention.IsLogName | jsonextractor.py:58-59 | the filter's test: the name starts with the prefix and ends with `.log` |
| LogRetention.LogNameParts | jsonextractor.py:58-59 | a name passes the filter iff it is the prefix, some text and `.log`, in that order |
| LogRetention.LogFiles | jsonextractor.py:58-59 | an entry is selected iff it is listed and its name has the prefix and the `.log` suffix |
| LogRetention.LogFilesConcat | jsonextractor.py:58-59 | the selection keeps listing order: the log files of concatenated listings are those of the first followed by those of the second |
| LogRetention.SelectLogFiles | jsonextractor.py:58-59 | the selection loop computes exactly `LogFiles` |
| LogRetention.Insert | jsonextractor.py:63 | insertion adds exactly one element, and it or the old head comes first |
| LogRetention.SortByCtime | jsonextractor.py:63 | the sort is a permutation |
| LogRetention.InsertSorted | jsonextractor.py:63 | insertion keeps a list in `ctime` order |
| LogRetention.SortSorted | jsonextractor.py:63 | the sorted list is in `ctime` order |
| LogRetention.FirstOldest | jsonextractor.py:63-64 | reference definition: the first-listed entry of least `ctime` |
| LogRetention.SortHeadIsFirstOldest | jsonextractor.py:63-64 | element 0 after the stable sort is the oldest file, the first one listed among equals |
| LogRetention.Victim | jsonextractor.py:63-64 | the file chosen for deletion is a listed log file whose `ctime` is no later than any log file's |
| LogRetention.RemoveName | jsonextractor.py:66 | deleting a name never grows the listing and leaves no entry of that name |
| LogRetention.Pruned | jsonextractor.py:61-66 | the listing after a successful retention step is no longer, and at five or more log files the victim is gone |
| LogRetention.PruneReport | jsonextractor.py:61-69 | nothing is reported iff there are fewer than five log files; a removal iff there are five or more and the deletion succeeds; otherwise an error; either report names the victim |
| LogRetention.RemoveAbsentName | jsonextractor.py:66 | deleting a name that is not listed changes nothing |
| LogRetention.RemoveNameAt | jsonextractor.py:66 | deleting a listed name removes exactly that entry and keeps the others in order |
| LogRetention.RemoveNameDistinct | jsonextractor.py:66 | names stay distinct after a deletion |
| LogRetention.OldestLogRemoved | jsonextractor.py:61-66 | with five or more log files, exactly one entry goes: the log file of least `ctime`, the first listed among equals; everything else stays in place and one log file fewer remains |
| LogRetention.DropOneLogFile | jsonextractor.py:58-66 | removing one log file from a listing leaves one log file fewer |
| LogRetention.Opened | jsonextractor.py:76 | opening the log file keeps the old listing as a prefix, adds at most one entry and makes the name present; an existing file is left as it is |
| LogRetention.OpenedDistinct | jsonextractor.py:76 | opening the log file keeps names distinct and makes the file present |
| LogRetention.RetentionBound | jsonextractor.py:58-76 | when the deletion succeeds or none is needed, after pruning and opening the log-file count is at most the larger of the old count and five |
| LogRetention.FailedDeletionGrows | jsonextractor.py:66-76 | when the deletion fails the error is only printed and the new log file is still opened, so the log-file count grows by one: five log files become six |
| LogRetention.LogDirectory.constructor | jsonextractor.py:58 | the directory holds the given listing |
| LogRetention.LogDirectory.PruneOldest | jsonextractor.py:58-69 | below five log files nothing changes; at five or more the victim is removed, or on failure reported with the directory unchanged |
| LogRetention.LogDirectory.SetupLogging | jsonextractor.py:46-79 | the run's log name is the stamped one and present afterwards; the outcome is the retention report; the new listing is the pruned one (when the deletion succeeded) plus the new log file |

## Left out

- HTML fetching and parsing (Selenium, BeautifulSoup) are not modelled. A page is given as its containers, with each lookup's result already extracted. The `except AttributeError` branch is not modelled, because with the lookups resolved to optional values no attribute access can fail.
- `fetch_webpage`, `setup_selenium`, `run`, `main` and `Main.py` are not part of this model. They are browser control and program wiring.
- `save_to_json` is modelled only for its file name. The JSON encoding, the `OUTPUT` directory and `os.path.join` are not modelled.
- The URL file read in the constructor, `os.makedirs` and `os.path.join` for the `Logs` directory are not modelled. They are file-system I/O.
- `datetime.now()` is a parameter, a `DateTime`. `ctime` values are integers given with the listing. A log file opened in this run gets the `ctime` passed as `now`.
- `os.path.getctime` is the creation time only on Windows; on POSIX it is the time of the last inode status change, which every write to a log file moves forward. The model takes `ctime` as given, so the file deleted is the log file of least `ctime`, which on POSIX need not be the one created first.
- `os.remove` is modelled by a boolean parameter that says whether it succeeds. The two printed messages of the retention step become `PruneOutcome` values, and the empty-page warning becomes `ParseOutcome.NoProviderElements`.
- The `Found provider` info line is modelled only for its `KeyError` on a record without a name (`RaisesKeyError`); what it writes to the log is not. The other logging calls are not modelled.
- The logging configuration (`basicConfig`, handlers, format) is left out. Only the creation of the log file by the file handler is modelled.
- Naming.ValidDateTime: years are limited to 1000..9999, so that `%Y` always prints four digits. Years below 1000, which `strftime` prints with fewer digits on some platforms, are not modelled.
- Naming.SplitExt: only POSIX `os.path.splitext` is modelled, with `/` as the only separator. The Windows variant, which also splits at `\` and drive letters, is not.
- LogRetention.SortByCtime: full stability of the sort is not proved. Only the property the code relies on is proved: element 0 is the first-listed oldest entry (`SortHeadIsFirstOldest`).
- Text.IsSpace: the whitespace set is `str.isspace()` over the characters Dafny's `char` can hold. Unicode normalisation and encodings are not involved.

## Findings

| source | as written | input that shows it | evidently intended | confidence | as-written member | corrected member |
|---|---|---|---|---|---|---|
| jsonextractor.py:144 | `all(provider.values())` only checks the values present, so a record missing keys (even `{}`) is appended | a container with only a `div.name` "X" | the comment "Only add if all fields have values": keep a record only when name, phone and website are all present and non-empty | not executed | Providers.IncompleteRecordStored | Providers.CompleteRecord |
| jsonextractor.py:146 | the log line reads `provider['name']` after appending; for an accepted record without a name this raises `KeyError`, which `except AttributeError` does not catch, so the whole parse stops | a container with a phone and a link but no name div, followed by a complete container | every container is processed on its own, and the complete provider after it is still recorded | not executed | Providers.NamelessRecordAbortsParse | Providers.CompleteRecordsConcat |

`ProviderScraper.ParseProviders` models the code as written, so the findings stay visible in the main model. The corrected filter is `CompleteRecords`. `CorrectionAgreesOnFullContainers` proves that the two agree on every page whose containers all have a name div, a phone span and a first anchor with a non-empty `href`; `HreflessAnchorDiffers` shows that an anchor without `href` is not enough.

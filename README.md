# Medical receipt organizer, modelled in Dafny

The receipt organizer renames scanned medical receipts. A vision model reads
each file and describes it as JSON. The tool turns that reply into a record
(`ReceiptData.from_json`) and builds the name
`YYYY-MM-DD_Provider_Patient_Amount.ext` from it (`FileRenamer`). It then
renames the file in its own directory, adding `_1`, `_2`, … when the name is
already taken and refusing a name that would leave the directory. The
command line driver (`process_single_file`, `process_files`) runs this over
every discovered file, asks for confirmation when told to, and counts the
files processed, skipped and failed.

The model has seven modules, one file each:

- `Wrappers`: `Option` and `Result`.
- `PyText`: the parts of Python's `str` that the code relies on. These are
  ASCII character classes, `lower`, `capitalize`, `split()`, `strip()`,
  `find`/`rfind`, and decimal rendering and reading.
- `Json`: decoded JSON values and Python truthiness.
- `Paths`: `pathlib` over paths written as segment lists. `Path.resolve()` is
  normalisation over `.` and `..`. The file system is a class whose one field
  maps each directory, by its resolved path, to the names of its entries.
  `exists()` and `os.rename` look a path up the way the kernel does, segment
  by segment (`Walk`): a `..` is only taken from a directory that was
  reached, so a path through a missing directory does not exist even when it
  climbs back out of it.
- `Models`: `ReceiptData` and `from_json`. Every field holds a decoded JSON
  value, because the dataclass does not check types and `from_json` copies
  values unchanged. `json.loads` is the parameter `decode`, where `None` means
  `JSONDecodeError`.
- `Renamer`: `sanitize`, `format_amount`, `generate_new_name`,
  `resolve_conflict` (a method with the source's probing loop) and
  `execute_rename` (a method that updates the file system in place). Each is
  specified by a function.
- `Cli`:
  - `ProcessResult`.
  - `process_single_file`, a method that fills in the result, ticks a
    `Counter` object and renames through the file system.
  - `process_files`, a method with the worker override and two loops: one
    runs every file, the other collects the results.

  The functions `SingleFile` and `Run` specify these methods.

The collaborators of the command line driver are parameters:

- the image bytes of each file (`None` when the file cannot be read);
- the extractor, as a function from bytes to a record or an exception;
- the answer typed at each confirmation prompt;
- the answer of `check_available`.

Amounts are exact real numbers. `{amount:.2f}` is the exact value rounded
half to even at the second decimal.

Three behaviours follow the code as written:

- An exception raised by `extractor.extract` propagates out of
  `process_single_file` (receipt_organizer/cli.py:69). tests/test_cli.py:121-152
  expects an error result reading "extraction failed" instead, but the code
  has no handler that produces one. `Cli.ExtractionFailurePropagates` states
  the code's behaviour.
- `re.match` checks only the start of the date
  (receipt_organizer/renamer.py:63). A date such as `2024-01-15/../../x` is
  therefore copied into the name verbatim (`Renamer.DateSuffixReachesName`),
  and only the traversal guard of `execute_rename` stops it.
- `exists()` goes through the directories a name names, while the traversal
  guard resolves it lexically. In a directory without a subdirectory `d`,
  the name `d/../../x` does not exist, so `resolve_conflict` keeps it, and
  `execute_rename` refuses it (`Renamer.ClimbThroughMissingDirectory`).

## Model

| member | source | states |
|---|---|---|
| Models.MatchEnd | receipt_organizer/models.py:28 | a match of `\{[^{}]*\}` that starts at a given index ends exactly where this says, and nowhere else |
| Models.SearchFrom | receipt_organizer/models.py:28 | the match found is a brace-delimited, brace-free span; no match starts further left; `None` means there is no match at all |
| Models.SelectJson | receipt_organizer/models.py:28-30 | the whole reply is decoded when nothing matches; otherwise the text decoded is the reply's own `{…}` span with no inner braces that starts leftmost |
| Models.NoBraceSelectsAll | receipt_organizer/models.py:28-30 | a reply without an opening brace is decoded whole |
| Models.WrappedObjectSelected | receipt_organizer/models.py:28-30 | prose without braces, a flat object and any trailing text: the flat object is what gets decoded |
| Models.ParseDecimalDefined | receipt_organizer/models.py:45-47 | on a residue of digits and dots, `float` succeeds exactly when there is at most one dot and at least one digit |
| Models.AmountResidue | receipt_organizer/models.py:45 | the characters `re.sub(r"[^\d.]", "", s)` keeps: the digits and dots of the text, in order |
| Models.ParseDecimal | receipt_organizer/models.py:45-47 | `float` on a residue: digits, optionally with one dot anywhere among them but not the dot alone; never negative |
| Models.ParseDotted | receipt_organizer/models.py:45 | digits, a dot and digits, with a digit on at least one side, read as the whole part plus the fraction over the matching power of ten |
| Models.AmountFromText | receipt_organizer/models.py:43-47 | a text amount becomes a non-negative number exactly when its residue parses, and `None` otherwise, never an error |
| Models.AmountOfDigitResidue | receipt_organizer/models.py:43-47 | a text whose residue is digits only becomes the integer those digits spell |
| Models.AmountOfDottedResidue | receipt_organizer/models.py:43-47 | a text whose residue is digits, a dot and digits (a digit on at least one side) becomes the whole part plus the fraction |
| Models.NormalizeAmount | receipt_organizer/models.py:43-47 | only a text amount is rewritten; any other value passes through untouched |
| Models.RecordOf | receipt_organizer/models.py:39-49 | the record of a decoded object: each declared field from the object where present, the amount normalised, the declared defaults otherwise |
| Models.FromJson | receipt_organizer/models.py:21-49 | an undecodable reply gives `ReceiptData(is_medical_receipt=False)`; a decoded non-object is an error; a decoded object gives the record whose six fields are the object's values where present (the amount normalised) and the declared defaults otherwise |
| Models.UnknownKeysIgnored | receipt_organizer/models.py:39-40 | adding keys outside the six declared fields to the decoded object does not change the record |
| Models.OmittedFlagDefaultsTrue | receipt_organizer/models.py:19 | a decoded object without `is_medical_receipt` gives a record marked as a medical receipt |
| Models.AmountWithSymbolExample | tests/test_models.py:21-24 | `"$45.99"` reads as 45.99 |
| Models.AmountWithCodeExample | tests/test_models.py:26-29 | `"USD 100.50"` reads as 100.50 |
| Models.AmountWithoutDigitsExample | tests/test_models.py:31-34 | `"not a number"` leaves an empty residue and reads as `None` |
| Models.NotJsonAtAll | tests/test_models.py:36-39 | the reply `not json at all`, which the decoder rejects, gives the default record with `is_medical_receipt` false |
| PyText.SplitWs | receipt_organizer/renamer.py:30 | `str.split()`: the maximal runs of non-whitespace characters, in order |
| PyText.Capitalize | receipt_organizer/renamer.py:31 | `str.capitalize`: the first character upper case, the rest lower case |
| PyText.Strip | receipt_organizer/cli.py:99 | `str.strip()`: the text without leading and trailing whitespace |
| Json.Truthy | receipt_organizer/renamer.py:23 | Python truthiness of a decoded value: `None`, `False`, zero, and empty texts, lists and objects are falsy |
| PyText.JoinSplitWs | receipt_organizer/renamer.py:30-31 | splitting on whitespace and joining drops exactly the whitespace characters |
| PyText.SplitUnwords | receipt_organizer/renamer.py:30 | words joined by single spaces split back into the same words |
| PyText.DigitsValueNatStr | receipt_organizer/renamer.py:46 | the decimal digits rendered for `int(amount)` read back as that number |
| Paths.JoinPath | receipt_organizer/renamer.py:88 | `directory / name`: the segments of a relative name follow the directory's; an absolute name replaces it |
| Paths.Normalize | receipt_organizer/renamer.py:117 | `Path.resolve()` without symbolic links: `..` removes the segment before it and stays at the root, empty and `.` segments vanish |
| Paths.Walk | receipt_organizer/renamer.py:89 | the kernel's lookup of a path, one segment at a time, through directories that exist; `..` goes to the parent of the directory reached |
| Paths.WalkResolves | receipt_organizer/renamer.py:89 | a lookup that succeeds ends where `Path.resolve()` says |
| Paths.WalkFailsBeyond | receipt_organizer/renamer.py:89 | once a lookup fails, no longer path through it can be looked up |
| Paths.WalkSameDirectories | receipt_organizer/renamer.py:120 | a lookup depends only on which directories exist, not on their other entries |
| Paths.PathExists | receipt_organizer/renamer.py:89 | `exists()`: the path looks up to a directory, or its last segment is an entry of the directory its parent looks up to |
| Paths.MissingDirectoryHidesPath | receipt_organizer/renamer.py:89 | a path that goes on through a missing subdirectory does not exist |
| Paths.NormalizeIsNormal | receipt_organizer/renamer.py:117 | a resolved path has no empty, `.` or `..` segment |
| Paths.NormalizeNormal | receipt_organizer/renamer.py:117 | resolving a path that is already normal changes nothing |
| Renamer.Sanitize | receipt_organizer/renamer.py:17-37 | a missing or empty text gives `UNKNOWN`; every result is `UNKNOWN` or 1 to `max_length` characters long |
| Renamer.SanitizeKeepsWordCharacters | receipt_organizer/renamer.py:26-37 | the result is the first `min(n, max_length)` word characters of the text, case aside, with the first one upper case; with no word character left, the result is `UNKNOWN` |
| Renamer.SanitizeCamelCase | receipt_organizer/renamer.py:29-31 | a text that filters to words separated by single spaces yields the words capitalised and concatenated, when they fit |
| Renamer.TitleWord | receipt_organizer/renamer.py:31 | `capitalize` leaves a word alone when it is a capital followed by lower-case letters |
| Renamer.SanitizeDrSmith | tests/test_renamer.py:40-42 | `"Dr. Smith's Clinic!"` becomes `DrSmithsClinic` |
| Renamer.SanitizeCvsPharmacy | tests/conftest.py:31 | `"CVS Pharmacy"` becomes `CvsPharmacy`: letters after a word's first are lowered |
| Renamer.SanitizeJohnDoe | tests/conftest.py:32 | `"John Doe"` becomes `JohnDoe` |
| Renamer.SanitizeTruncatesLongName | tests/test_renamer.py:48-52 | fifty `A`s are cut to exactly 30 characters |
| Renamer.SanitizePunctuationOnly | receipt_organizer/renamer.py:37 | `"!!!"` keeps no character and gives `UNKNOWN` |
| Renamer.RoundHalfEven | receipt_organizer/renamer.py:48 | the result is within one half of the value, and even on a tie |
| Renamer.FormatAmount | receipt_organizer/renamer.py:39-48 | `None` gives `UNKNOWN`; otherwise the currency comes first, then a minus sign exactly when the amount is negative, then digits without a dot for a whole amount, or a dot and exactly two digits at the end for any other amount |
| Renamer.WholeAmountReadsBack | receipt_organizer/renamer.py:45-46 | after the currency, a whole amount is written as a minus sign exactly when it is negative, then digits that read back as its magnitude |
| Renamer.FractionReadsBack | receipt_organizer/renamer.py:47-48 | after the currency, any other amount is written as a minus sign exactly when it is negative, then a number that reads back as its magnitude rounded half to even at cents |
| Renamer.FormatAmountReadsBack | receipt_organizer/renamer.py:44-48 | for every amount, the text after the currency is a minus sign exactly when the amount is negative, then a number at most half a cent from its magnitude, and equal to it when the amount has at most two decimals |
| Renamer.FormatAmountWithDecimals | tests/test_renamer.py:88-90 | 45.99 in USD gives `USD45.99` |
| Renamer.FormatAmountWholeNumber | tests/test_renamer.py:92-94 | 100.0 in USD gives `USD100` |
| Renamer.FormatAmountOtherCurrency | tests/test_renamer.py:100-102 | 50.0 in SGD gives `SGD50` |
| Renamer.DatePart | receipt_organizer/renamer.py:62-66 | the date is kept verbatim exactly when it is a text starting with `\d{4}-\d{2}-\d{2}`; any other falsy or text date gives `REVIEW`; a truthy non-text date raises |
| Renamer.TextArgument | receipt_organizer/renamer.py:69-70 | a falsy field reaches `sanitize` as `None`; a text reaches it unchanged; any other truthy value raises |
| Renamer.AmountArgument | receipt_organizer/renamer.py:71 | `None` and numbers pass; booleans count as 1 and 0; texts, lists and objects raise |
| Renamer.CurrencyText | receipt_organizer/renamer.py:71 | a text currency is rendered as itself; a number, list or object is refused |
| Renamer.MatchesDatePrefix | receipt_organizer/renamer.py:63 | `re.match(r"\d{4}-\d{2}-\d{2}", s)`: four digits, a dash, two digits, a dash and two digits at the start, anything after |
| PyText.IntStr | receipt_organizer/renamer.py:46 | `str(int(amount))`: a minus sign exactly when the integer is negative, then digits whose value is its magnitude |
| Renamer.Fixed2 | receipt_organizer/renamer.py:48 | `{amount:.2f}`: only a sign, digits and a dot, ending in a dot and exactly two digits; a minus sign first exactly when the amount is negative, and the rest reads back as the magnitude rounded half to even at cents |
| Renamer.AmountPart | receipt_organizer/renamer.py:71 | a missing amount gives `UNKNOWN`; otherwise it succeeds exactly when both the amount and the currency convert, and then is `format_amount` of the two; a number with a string currency is formatted directly |
| Renamer.Layout | receipt_organizer/renamer.py:74 | the name starts with the date part followed by an underscore, and ends with the extension |
| Renamer.GenerateNewName | receipt_organizer/renamer.py:50-76 | the name fails exactly when a field holds a value the conversions reject; it ends in the extension; it starts with the date and `_` when the date matches, and with `REVIEW_` otherwise |
| Renamer.FieldOf | receipt_organizer/renamer.py:69-70 | what `sanitize` makes of a field: `UNKNOWN` without word characters, else its first word characters, up to 30, changed only in case, the first one upper case |
| Renamer.SanitizedField | receipt_organizer/renamer.py:69-70 | the provider or patient part of the name is `FieldOf` the field, and is `UNKNOWN` or 1 to 30 word characters |
| Renamer.GeneratedNameFields | receipt_organizer/renamer.py:62-74 | every record whose fields convert is named `date_provider_patient_amount` + extension: the date text or `REVIEW`, provider and patient each `UNKNOWN` or 1 to 30 word characters drawn from the field, and `UNKNOWN` or the currency text followed by the amount as `format_amount` writes it |
| Renamer.SampleReceiptName | tests/test_renamer.py:10-13 | the sample record is named `2024-01-15_CvsPharmacy_JohnDoe_USD45.99.pdf` |
| Renamer.GeneratedNameSlashFree | receipt_organizer/renamer.py:69-74 | with a slash-free date, currency and extension, the generated name holds no slash |
| Renamer.DateSuffixReachesName | receipt_organizer/renamer.py:63 | the date `2024-01-15/../../x` is accepted, and its slash reaches the generated name |
| Renamer.Suffix | receipt_organizer/renamer.py:94 | the suffix is the end of the name: empty, or one dot followed by dot-free characters |
| Renamer.SuffixFromLastDot | receipt_organizer/renamer.py:94 | the suffix is non-empty exactly when the name's last dot is neither its first nor its last character |
| Renamer.Stem | receipt_organizer/renamer.py:93 | stem followed by suffix gives back the name |
| Renamer.TargetName | receipt_organizer/renamer.py:88-94 | the last segment of `directory / filename`, whose stem and suffix the candidates are made from |
| Renamer.Taken | receipt_organizer/renamer.py:89 | `(directory / name).exists()`, looked up as the kernel does |
| Renamer.Candidate | receipt_organizer/renamer.py:98 | `f"{stem}_{counter}{ext}"` |
| Renamer.ProbeTaken | receipt_organizer/renamer.py:99 | the probe of counter n asks whether `directory / candidate n` exists |
| Renamer.FirstFree | receipt_organizer/renamer.py:97-100 | the counter found is free and every smaller one from the start is taken; `None` means every counter up to 1000 is taken |
| Renamer.ResolvedName | receipt_organizer/renamer.py:78-102 | a free name is returned unchanged; a taken one gives `stem_n + suffix` for the smallest free n in 1..1000; the call fails exactly when all 1000 are taken |
| Renamer.FirstFreeCounter | receipt_organizer/renamer.py:97-102 | the `for counter in range(1, 1001)` loop returns the first free counter, or fails when all are taken |
| Renamer.ResolveConflict | receipt_organizer/renamer.py:78-102 | the method, with its probing loop, returns what `ResolvedName` describes |
| Renamer.PlainProbe | receipt_organizer/renamer.py:88-89 | for a one-segment name, `directory / name` exists exactly when the directory can be reached and lists that name or has a subdirectory of that name |
| Renamer.CandidateProbe | receipt_organizer/renamer.py:98-99 | probing `directory / candidate` asks whether the resolved directory holds the candidate |
| Renamer.ResolvedNameIsFree | receipt_organizer/renamer.py:88-100 | `directory / name` never exists for the name returned |
| Renamer.MissingDirectoryNameKept | receipt_organizer/renamer.py:88-90 | a name that goes on through a missing subdirectory is not found, so it is returned unchanged |
| Renamer.EntryOfLeafDirectory | receipt_organizer/renamer.py:89 | in a directory without subdirectories, a name is taken exactly when it is listed |
| Renamer.ResolvedToFirstFree | receipt_organizer/renamer.py:88-100 | in a directory that can be reached, a taken one-segment name becomes the candidate with the first free counter |
| Renamer.ResolvedNameNonEmpty | receipt_organizer/renamer.py:88-100 | a non-empty proposed name never resolves to the empty name |
| Renamer.CandidatesOfTestPdf | receipt_organizer/renamer.py:93-98 | the candidates for `test.pdf` are `test_1.pdf` and then `test_2.pdf` |
| Renamer.ResolveWithoutConflict | tests/test_renamer.py:54-57 | in an empty directory `test.pdf` stays `test.pdf` |
| Renamer.ResolveFirstConflict | tests/test_renamer.py:59-63 | beside `test.pdf` the name becomes `test_1.pdf` |
| Renamer.ResolveSecondConflict | tests/test_renamer.py:65-70 | beside `test.pdf` and `test_1.pdf` the name becomes `test_2.pdf` |
| Renamer.MoveEntry | receipt_organizer/renamer.py:120 | `os.rename` inside one directory: the new name is there, the old one is gone when different, and every other entry and directory stays |
| Renamer.Escapes | receipt_organizer/renamer.py:117 | the guard: the parent of the resolved new path differs from the source's resolved directory |
| Renamer.RenameEffect | receipt_organizer/renamer.py:104-121 | the traversal error is raised exactly when the guard fails; every refusal leaves the files as they were; a rename happens only when both paths are looked up, the source is an entry and neither the source nor the target is a directory, and then returns `source.parent / new_name`, moves the entry within the directory both look up to and changes nothing else; conversely, once the guard and the lookups pass, a source directory, then a target directory is refused and otherwise the rename happens |
| Renamer.ExecuteRename | receipt_organizer/renamer.py:104-121 | the in-place rename returns and leaves what `RenameEffect` describes |
| Renamer.RenameToFreeNameKeepsCount | receipt_organizer/renamer.py:120 | renaming to a name that does not exist replaces nothing: the directory keeps its number of entries |
| Renamer.PlainNameAccepted | receipt_organizer/renamer.py:114-117 | a one-segment name that is not `.` or `..` passes the guard and names that entry of the source's directory |
| Renamer.PlainRenameMovesFile | tests/test_renamer.py:72-79 | renaming an existing file to a plain name returns `source.parent / new_name`; afterwards the new path exists and the old one does not |
| Renamer.ParentEscapeRefused | tests/test_renamer.py:81-86 | `../x` is refused as traversal exactly when the directory is not the root |
| Renamer.ClimbThroughMissingDirectory | receipt_organizer/renamer.py:88-118 | in `/r` without `/r/d`, the name `d/../../x` is kept by `resolve_conflict` and then refused as traversal by `execute_rename` |
| Cli.Blank | tests/test_cli.py:12-17 | a fresh result for a file has no data, no new name, no error and no skip reason |
| Cli.Counter.constructor | receipt_organizer/cli.py:155 | the progress counter starts at 0 |
| Cli.SingleFile | receipt_organizer/cli.py:30-109 | one call of `process_single_file`: the read failure, the extraction, the non-receipt skip, the naming, the prompt and the rename, with the tree and counter tick each leaves |
| Cli.Declines | receipt_organizer/cli.py:99-100 | the answer, stripped and lower-cased, is `n` |
| Cli.ProcessSingleFile | receipt_organizer/cli.py:30-109 | the method's result, file tree and counter are those of `SingleFile` |
| Cli.UnreadableFileFails | receipt_organizer/cli.py:59-66 | without image bytes the result carries `failed to read file` and nothing else; no rename happens and the counter ticks |
| Cli.ExtractionFailurePropagates | receipt_organizer/cli.py:69-70 | an exception of the extractor propagates; no rename happens and the counter does not tick |
| Cli.NonReceiptSkipped | receipt_organizer/cli.py:73-79 | a record that is not a medical receipt is kept and skipped as `not a medical receipt`, with no new name; no rename happens and the counter ticks |
| Cli.ReceiptNamed | receipt_organizer/cli.py:82-87 | a receipt is given `resolve_conflict(parent, generate_new_name(data, suffix))`, and the counter ticks once that name is known; a failure of either step propagates without a tick |
| Cli.NamedStepCases | receipt_organizer/cli.py:96-109 | once the name is known: a declining answer records the skip; a dry run records the name; otherwise exactly this rename is applied, and its refusal propagates |
| Cli.UserDeclines | receipt_organizer/cli.py:97-104 | an answer that strips and lowers to `n` records `skipped by user`, clears the new name and renames nothing |
| Cli.Effects | receipt_organizer/cli.py:82-107 | a call either leaves the tree alone, or applies the one rename of the file to the name in its result |
| Cli.DryRunLeavesTree | receipt_organizer/cli.py:106-107 | a dry run never renames |
| Cli.LiveRenameApplied | receipt_organizer/cli.py:106-107 | outside a dry run, a result with a new name means the file was renamed exactly once, to `file_path.parent / new_name` |
| Cli.SingleFileExclusive | receipt_organizer/cli.py:56-109 | every result returned has exactly one of `new_name`, `skipped_reason` and `error` set, and its call ticked the counter |
| Cli.LiveRenameReplacesNothing | receipt_organizer/cli.py:84-107 | a live rename goes to a path that did not exist, and the directory keeps its number of entries |
| Cli.Run | receipt_organizer/cli.py:160-171 | a run makes one call per file, and the counter stays within the number of files |
| Cli.Collect | receipt_organizer/cli.py:170-171 | collecting gives every call's result in order, or an exception that one of the calls raised |
| Cli.Count | receipt_organizer/cli.py:174-176 | a count never exceeds the number of results |
| Cli.Summary | receipt_organizer/cli.py:170-178 | the totals counted from the results, or the exception a call raised |
| Cli.ProcessFiles | receipt_organizer/cli.py:112-178 | an unavailable service stops the run with nothing touched; no files gives `(0, 0, 0)`; outside confirm mode a worker count below 1 makes the pool raise before any file is handled; otherwise the pool has one worker in confirm mode and the requested number otherwise, every file is processed in turn, and the totals are counted from the results |
| Cli.CollectKeepsFailure | receipt_organizer/cli.py:170-171 | once a call has raised, the run raises that same exception |
| Cli.TotalsPartition | receipt_organizer/cli.py:174-176 | results that each say one thing make processed, skipped and failed add up to their number |
| Cli.RunAccounting | receipt_organizer/cli.py:56-109 | every result in a run says exactly one thing, and when no call raised, the counter equals the number of files |
| Cli.RunPartition | receipt_organizer/cli.py:173-178 | the three totals partition the discovered files, and the progress counter reaches their number |
| Cli.RunFailsIffCallFails | receipt_organizer/cli.py:170-171 | `process_files` raises exactly when one of its calls raised |
| Cli.DryRunKeepsTree | receipt_organizer/cli.py:150-171 | a dry run over any files leaves the directory tree as it was |

## Left out

- Concurrency: the thread pool, `as_completed` and `print_lock`. Files are processed one after another. Naming and renaming are one step, which is what the lock secures.
- Cli.ProcessFiles: when several calls raise, the exception reported is the first in file order, not the first to complete. `with ThreadPoolExecutor` waits for every call, so every file is still processed.
- Printing, verbose output and the wording of the prompt. `input()` is the answer parameter.
- `main`, argparse, `sys.exit` and exit codes. An unavailable service is the result `ServiceUnavailable`.
- The Ollama client in receipt_organizer/extractor.py, and rasterisation and `discover_files` in receipt_organizer/processor.py. These are parameters: the image bytes, the extractor and the list of files.
- `json.loads` is the parameter `decode`. The JSON grammar is not modelled.
- Binary floating point. Amounts are exact reals, and `:.2f` rounds the exact value half to even, so IEEE representation error is not modelled.
- Models.FromJson: an object decoded with a repeated key keeps one value per key, as the decoder's map does.
- Renamer.CurrencyText: a currency that is a number, list or object is refused (an error). Python would render it with `str`.
- Character classes are ASCII. Python's Unicode letters, digits and whitespace beyond ASCII are not modelled, and neither are Unicode case mappings.
- Symbolic links and the working directory. `Path.resolve()` is normalisation of an absolute path over `.` and `..`.
- Paths.Walk: the parent of every directory reached is taken to exist, so `..` always succeeds; permissions are not modelled.
- Renamer.ExecuteRename: renaming a directory, and any operating-system refusal beyond a source or target directory that cannot be looked up, a missing source or a directory in the way, are not modelled. The refusals are told apart only as far as the model needs, not by their `errno`.
- Renamer.FormatAmountReadsBack: the number after the sign is read back with the amount parser of `from_json`, which reads no sign, so the read-back is of the magnitude.
- Renamer.GeneratedNameSlashFree: holds only when the date, the currency and the extension hold no slash. A matching date may carry one (`Renamer.DateSuffixReachesName`).

# protonmanager core, modelled in Dafny

This project models the library module of protonmanager (`protonmanager/lib.py`).
The library installs, lists and removes GE-Proton compatibility tools in Steam's
`compatibilitytools.d` directory. The model covers:

- the `Proton` record and its overloaded comparisons;
- reading an installed tool's `version` file: `"<publish-date> <tag> ..."`;
- converting a release's `published_at` text to a Unix timestamp;
- filtering the releases response;
- the merged, sorted listing of `proton_version_stati`;
- the installed-check scan;
- the control flow of `install_proton_version` and `uninstall_proton_version`.

The file system is a directory listing: a sequence of `Entry(name, versionFile)`.
`versionFile` is the text `f.read()` returns: decoded, with newlines translated to `\n`.
It is `None` when `open(<dir>/version)` fails or the bytes do not decode, since either
way the read raises. The exceptions the model covers — failed reads, parse errors,
out-of-range dates, missing releases and archives — become an `Error` value in a `Result`.
The ones it does not cover, chiefly I/O failures while staging and extracting an install,
are listed under "Left out". Network and file-system actions of the two
commands are returned as a list of `Effect`s, next to the listing that results.

Modules, in dependency order:

| file | module | what it holds |
|---|---|---|
| `outcomes.dfy` | `Outcomes` | `Option`, `Result`, the `Error` raise sites, `AllOk` (a loop that stops at the first raise) |
| `pystr.dfy` | `PyStr` | Python's `str.split(" ")`, `str.strip()`, `int()`, and the decimal text of an integer |
| `proton.dfy` | `ProtonRecord` | the `Proton` record and `==`, `!=`, `>`, `<`, `in` |
| `timestamps.dfy` | `Timestamps` | `strptime(s, "%Y-%m-%dT%H:%M:%SZ")` and `timestamp()`, proleptic Gregorian day counts |
| `inventory.dfy` | `Inventory` | version-file readers, the installed-check scan, the installed records |
| `releases.dfy` | `Releases` | `_get_ge_proton_releases` over a decoded response |
| `ordering.dfy` | `Ordering` | `sorted()` with the record's `<`, projections, permutation lemmas |
| `stati.dfy` | `Stati` | `proton_version_stati` |
| `lifecycle.dfy` | `Lifecycle` | `install_proton_version` and `uninstall_proton_version` |

Three behaviours a reader might not expect; the model follows the code in each:

- **Sort order.** `proton_version_stati` returns records in ascending publish-date
  order (oldest first), not newest first. `sorted()` uses `__lt__`, which is `not __gt__`,
  so it is "published no later than".
- **Unreadable directories.** A directory in `compatibilitytools.d` without a readable
  `version` file makes `proton_version_stati` and the installed-check raise. The model
  returns `Err(VersionFileMissing(dir))`; such a directory is not skipped.
- **Short version files.** A `version` file with no space makes the same operations raise
  (`IndexError`); the model returns `Err(TagFieldMissing(dir))`.

## Model

| member | source | states |
|---|---|---|
| ProtonRecord.EqIsEquivalence | protonmanager/lib.py:25-29 | `==` on records is reflexive, symmetric and transitive, as the merge's membership tests rely on |
| ProtonRecord.ContainsRespectsEq | protonmanager/lib.py:82-83 | `in` on a list of records cannot tell apart two records that are `==`: a release record finds the installed record of its version whatever their flags and dates |
| Ordering.ContainsIsVersionIn | protonmanager/lib.py:81-83 | `x in results` holds exactly when `x`'s version is among the versions of `results`; flags and dates play no part |
| ProtonRecord.LtIsNotGreater | protonmanager/lib.py:34-39 | `<` is "not `>`": publish date no later, reflexive and total; `a < b` and `b < a` both hold exactly when the dates tie |
| ProtonRecord.LtTransitive | protonmanager/lib.py:34-39 | `<` is transitive, so it is a total preorder a sort can use |
| PyStr.Split | protonmanager/lib.py:100 | `split(" ")` yields at least one field, no field holds the separator, and joining the fields with it gives the text back |
| PyStr.SplitJoin | protonmanager/lib.py:100 | splitting the join of separator-free fields gives exactly those fields back |
| PyStr.Strip | protonmanager/lib.py:100 | `strip()` leaves no whitespace at either end and never lengthens the text |
| PyStr.StripPadded | protonmanager/lib.py:100 | `strip()` of text padded by whitespace on both sides is exactly the text, when the text neither starts nor ends with whitespace |
| PyStr.SplitHasSeparator | protonmanager/lib.py:100 | `split(" ")` has a field 1 exactly when the text contains a space |
| PyStr.ParseInt | protonmanager/lib.py:104 | `int()` succeeds only on text whose `strip()` it parses, giving that value; on text without U+001C..U+001F it is exactly `strip()` then parse |
| PyStr.ParseSignedDecimal | protonmanager/lib.py:104 | the decimal text of `n` has no surrounding whitespace, and `int()` reads it back as `n` (negative numbers included) when it has at most 4300 digits, and raises otherwise |
| PyStr.ParseIntDecimal | protonmanager/lib.py:104 | `int()` reads the decimal text of `n` back as `n` even with whitespace around it that `int()` skips, and raises when the text has more than 4300 digits |
| PyStr.ParseIntRejectsSeparator | protonmanager/lib.py:104 | padding before or after the text that holds one of U+001C..U+001F makes `int()` raise, although `strip()` would remove it |
| Timestamps.LeapYearsStep | protonmanager/lib.py:108 | the closed-form leap-year count grows by one past year `y` exactly when `y` is a Gregorian leap year |
| Timestamps.DaysBeforeYearCounts | protonmanager/lib.py:108 | the closed-form day count to 1 January equals counting 365 or 366 days year by year from 1970, backwards as well as forwards |
| Timestamps.DaysBeforeMonthCounts | protonmanager/lib.py:108 | the month table plus leap day equals counting month lengths |
| Timestamps.EpochDaysCounts | protonmanager/lib.py:108 | the days since the epoch of a date equal the counted years and months before it plus its day of the month |
| Timestamps.DaysBeforeYearGrows | protonmanager/lib.py:108 | a later year starts at least a whole year later |
| Timestamps.DaysBeforeMonthGrows | protonmanager/lib.py:108 | a later month starts at least a whole month later |
| Timestamps.DayOfYearBound | protonmanager/lib.py:108 | a valid day of the year falls inside its year |
| Timestamps.EpochSecondsIncreasing | protonmanager/lib.py:108 | a chronologically later date-time has a larger UTC timestamp |
| Timestamps.ParseDateString | protonmanager/lib.py:107 | whatever `strptime` accepts is a real date-time: year 1..9999, a day that exists in its month, time fields in range |
| Timestamps.ParseFormat | protonmanager/lib.py:107 | `strptime` of the canonical `YYYY-MM-DDTHH:MM:SSZ` text of any valid date-time gives that date-time back |
| Timestamps.SecondsRange | protonmanager/lib.py:108 | the first and last second a `datetime` holds, 0001-01-01T00:00:00 and 9999-12-31T23:59:59, are -62135596800 and 253402300799 seconds from the epoch |
| Timestamps.DateTimeRange | protonmanager/lib.py:108 | every date-time `strptime` can return lies between those two seconds |
| Timestamps.SecondsAreDateTimes | protonmanager/lib.py:108 | every second from 0001-01-01T00:00:00 to 9999-12-31T23:59:59 is the reading of some valid date-time: the range `datetime` holds has no holes |
| Timestamps.LocalClockReadsDateTime | protonmanager/lib.py:108 | the wall-clock reading `timestamp()` asks for succeeds exactly when some valid date-time in years 1..9999 reads that second, and it is then the instant shifted by the offset |
| Timestamps.LocalToSeconds | protonmanager/lib.py:108 | CPython's solver for `local(u) == t` (offset at `t`, probe one day earlier, gap fallback), at a fixed offset, returns `t` minus the offset, and raises exactly when the reading at `t` plus the offset or the one a day before `t` leaves years 1..9999 |
| Timestamps.ConvertDateString | protonmanager/lib.py:106-108 | the conversion succeeds exactly when `strptime` accepts the text and `timestamp()`'s probes stay in years 1..9999; a refused text raises `DateStringInvalid`, a date at the calendar's edge raises `TimestampOutOfRange`; success gives the UTC timestamp minus the offset |
| Timestamps.EpochSecondsCounts | protonmanager/lib.py:108 | the UTC timestamp of a date-time is its days since 1970, counted year by year and month by month, in seconds plus its time of day |
| Timestamps.ConvertParsed | protonmanager/lib.py:106-108 | text that `strptime` accepts converts exactly when its date-time is in range for `timestamp()`, and then to the seconds since 1970-01-01T00:00:00 UTC, counted over every year, month and day, minus the local offset; out of range it raises `TimestampOutOfRange` |
| Timestamps.ConvertFormat | protonmanager/lib.py:106-108 | the canonical text of a date-time converts to its UTC timestamp minus the local offset when it is in range for `timestamp()`, and raises `TimestampOutOfRange` otherwise |
| Timestamps.InsideCalendarInRange | protonmanager/lib.py:108 | every date-time in years 2..9998 is in range at any offset within a day, so only the first and last year can raise |
| Timestamps.ConvertFirstDayRaises | protonmanager/lib.py:108 | any time on 0001-01-01 raises at every offset, because the probe a day earlier falls in year 0 |
| Timestamps.ConvertLastSecondRaises | protonmanager/lib.py:108 | 9999-12-31T23:59:59 raises at every offset east of Greenwich, because its wall-clock reading falls in year 10000 |
| Timestamps.ConvertChronological | protonmanager/lib.py:106-108 | of two date-times in range for `timestamp()`, the later one converts to the strictly larger timestamp |
| Timestamps.FormatExample | protonmanager/lib.py:107 | the canonical text of 2022-03-05 08:28:10 is `2022-03-05T08:28:10Z`, the example next to the format |
| Timestamps.ConvertExample | protonmanager/lib.py:107-108 | the date-time of `2022-03-05T08:28:10Z`, the example next to the format, converts from its canonical text to 1646468890 on a UTC machine |
| Inventory.VersionTag | protonmanager/lib.py:94-100 | reading the tag raises for an unreadable file, and for a text with no space (no field 1); otherwise the tag has no space and no surrounding whitespace |
| Inventory.PublishDate | protonmanager/lib.py:102-104 | reading the date raises only for an unreadable file or a first field `int()` refuses; a text without a space is read whole as the date |
| Inventory.InstalledRecord | protonmanager/lib.py:73-78 | a directory's record succeeds exactly when both its tag and its date read; the tag is read first, so its error wins; the record is installed and carries that tag and date |
| Inventory.ReadFields | protonmanager/lib.py:94-104 | for a version file made of space-free fields, the tag is the stripped second field, and the date is `int()` of the first or `PublishDateInvalid` |
| Inventory.ReadSingleField | protonmanager/lib.py:99-100 | a version file without a space has no tag field: reading it raises `TagFieldMissing` |
| Inventory.ReadWrittenFile | protonmanager/lib.py:94-104 | a file `"<date> <tag>"` with any further fields reads as an installed record with that date and the stripped tag, unless the date has more than 4300 digits, which `int()` refuses |
| Inventory.ReadExampleExtraField | protonmanager/lib.py:94-104 | `"1700000000 GE-Proton9-20 extra"` reads as `GE-Proton9-20`, installed, published at 1700000000 |
| Inventory.ReadExampleNewline | protonmanager/lib.py:94-104 | `"1700000000 GE-Proton9-20\n"` reads the same: `strip()` removes the newline |
| Inventory.LocateFrom | protonmanager/lib.py:88-92 | the scan from entry `i` stops at the first entry whose tag is the version, or raises the first read error met before one, or runs out with every entry readable and none matching |
| Inventory.Locate | protonmanager/lib.py:88-92 | the same, over the whole listing |
| Inventory.IsInstalled | protonmanager/lib.py:87-92 | True only when some entry matches with every earlier entry readable, False only when every entry is readable and none matches, an error only from the first unreadable entry |
| Inventory.IsInstalledIff | protonmanager/lib.py:87-92 | `_is_proton_version_installed` is True exactly when some entry matches with every earlier entry readable, False exactly when every entry is readable and none matches, and otherwise raises the first read error |
| Outcomes.AllOk | protonmanager/lib.py:71-79 | a loop over all elements succeeds exactly when each step does; then it has one result per element, in order; otherwise it raises the error of the first failing element |
| Inventory.InstalledRecords | protonmanager/lib.py:71-79 | the first loop of `proton_version_stati` yields one record per directory in listing order, or the first directory's read error |
| Releases.NonDrafts | protonmanager/lib.py:113-115 | the filter keeps exactly the non-draft releases and never adds any |
| Releases.NonDraftsAppend | protonmanager/lib.py:113-115 | the filter distributes over concatenation, so it keeps response order |
| Releases.ReleaseRecord | protonmanager/lib.py:117-123 | a release's record succeeds exactly when its date converts; it is not installed and carries the release's tag and the converted date; otherwise the conversion's error for that text is raised |
| Releases.ReleaseRecords | protonmanager/lib.py:110-125 | one record per non-draft release in order, or the conversion error of the first non-draft release whose date does not convert; drafts are never looked at |
| Releases.ReleaseRecordsShape | protonmanager/lib.py:117-123 | each release record is not installed, carries the release's tag, and its date is the converted `published_at` |
| Ordering.Insert | protonmanager/lib.py:85 | inserting into a date-sorted list keeps it sorted and adds exactly that record |
| Ordering.Sort | protonmanager/lib.py:85 | the sort result is a permutation of its input in non-decreasing publish-date order |
| Ordering.SortedPermutationsAgree | protonmanager/lib.py:85 | any two date-sorted permutations of one list have the same sequence of dates |
| Ordering.DistinctVersionsPermutation | protonmanager/lib.py:85 | a permutation of a list with pairwise distinct versions has pairwise distinct versions |
| Stati.AddMissing | protonmanager/lib.py:81-83 | the second loop only appends: the installed records stay in place, and at most one record is added per release |
| Stati.AddMissingCovers | protonmanager/lib.py:81-83 | after the loop every release's version is `in` the list |
| Stati.AddMissingFresh | protonmanager/lib.py:81-83 | an appended record has a version no earlier record has |
| Stati.AddMissingFirst | protonmanager/lib.py:81-83 | an appended record is the first record of the release list with its version |
| Stati.Merged | protonmanager/lib.py:81-85 | the merged view is date-sorted and has one record per record of the merge loop's result |
| Stati.MergedIsPermutation | protonmanager/lib.py:81-85 | the merged view is a permutation of the installed records plus the appended release records |
| Stati.MergedMembers | protonmanager/lib.py:85 | sorting keeps exactly the records the merge loop produced |
| Stati.MergedKeepsInstalled | protonmanager/lib.py:81-85 | every installed record is in the merged view |
| Stati.AddMissingSources | protonmanager/lib.py:71-83 | with installed records marked installed and release records not, a merged record is installed exactly when it is an installed record, and a not-installed one is the first of its version in the release list and has no installed counterpart |
| Stati.MergedLocalWins | protonmanager/lib.py:71-85 | in the merged view a record whose version is installed is the installed record, and a not-installed record is the first of its version in the release list with no installed counterpart |
| Stati.MergedCoversReleases | protonmanager/lib.py:81-85 | every release version is represented in the merged view |
| Stati.MergedDistinct | protonmanager/lib.py:81-85 | if the installed records have distinct versions, no version appears twice in the merged view |
| Stati.MergedTieOrderOnly | protonmanager/lib.py:85 | any other date sort of the merged records (Timsort's) has the same records and the same dates in the same order; they may differ only among equal dates |
| Stati.InstalledFlags | protonmanager/lib.py:71-79 | the records read from the directories are the directories' records, one per directory, each marked installed |
| Stati.Stati | protonmanager/lib.py:68-85 | a successful listing is in non-decreasing publish-date order |
| Stati.StatiErrors | protonmanager/lib.py:68-85 | a directory read error aborts the listing first; otherwise a release date error does; the listing succeeds exactly when both loops do, and is then the merged view |
| Stati.StatiIsPermutation | protonmanager/lib.py:68-85 | the listing is a permutation of the installed records plus the appended release records, so it has at least one record per directory |
| Stati.StatiKeepsDirectories | protonmanager/lib.py:71-85 | every directory's own record, installed and with its local date, is in the listing |
| Stati.StatiLocalWins | protonmanager/lib.py:71-85 | a listed record whose version a directory has is that directory's record; a record is installed exactly when it comes from a directory; a not-installed record is the first of its version in the release list and no directory has its version |
| Stati.StatiCoversReleases | protonmanager/lib.py:81-85 | every release version is represented in the listing |
| Stati.StatiDistinct | protonmanager/lib.py:68-85 | if the directories hold distinct versions, no version is listed twice |
| Lifecycle.Tarballs | protonmanager/lib.py:47-49 | the download loop keeps exactly the assets whose names end in `.tar.gz` |
| Lifecycle.TarballsAppend | protonmanager/lib.py:47-49 | the download filter distributes over concatenation of asset lists, so it keeps the release's order and every repeated asset |
| Lifecycle.Downloads | protonmanager/lib.py:50-53 | one download per kept asset, in order, saved under the asset's name |
| Lifecycle.ArchiveStagedIffOffered | protonmanager/lib.py:47-54 | `<version>.tar.gz` is in the staging directory exactly when the release offers an asset of that name |
| Lifecycle.Unpack | protonmanager/lib.py:55 | extraction adds every directory of the archive, keeps every directory it does not overwrite, and adds nothing else |
| Lifecycle.Install | protonmanager/lib.py:41-56 | install succeeds exactly when the scan says not installed, the release exists and offers `<version>.tar.gz`; when it fails by one of the modelled raises the listing is unchanged (an I/O failure while staging or extracting is not modelled, see "Left out"); the first action is the release lookup, only `.tar.gz` files are downloaded, and extraction of the archive comes last |
| Lifecycle.InstallRefuses | protonmanager/lib.py:42-43 | an installed version, or a scan that raises, stops install before any network or disk action |
| Lifecycle.InstallNeedsArchive | protonmanager/lib.py:47-54 | without `<version>.tar.gz` in the release, the tarballs are downloaded but nothing is extracted and `ArchiveNotStaged` is raised |
| Lifecycle.InstallThenInstalled | protonmanager/lib.py:41-56 | after a successful install whose archive holds a directory for the version, the scan reports it installed when every directory is readable |
| Lifecycle.InstallTwice | protonmanager/lib.py:41-43 | installing the same version again is refused with `AlreadyInstalled` |
| Lifecycle.ScanErrorIsFileError | protonmanager/lib.py:87-92 | the scan raises only version-file read errors |
| Lifecycle.Uninstall | protonmanager/lib.py:58-66 | uninstall succeeds exactly when the scan says installed, and then deletes the first directory whose tag is the version and nothing else; "not installed" is raised exactly when the scan says False; a scan error is passed on; on failure nothing changes |
| Lifecycle.UninstallRemovesOne | protonmanager/lib.py:62-66 | a successful uninstall removes exactly one directory, the matched one, and keeps every other |
| Lifecycle.UninstallThenNotInstalled | protonmanager/lib.py:58-66 | when at most one directory carries the version, after uninstalling it the scan no longer reports it installed |

## Left out

- HTTP requests: the releases list and the tag lookup are inputs. The response is already decoded; a response that is not a list of objects with the expected keys is not modelled. The `per_page` parameter (`amount=30`) only shapes the request.
- `PROTON_DIR` and `Path.home()`: the directory is the listing parameter. The listing order is taken as given, since `os.listdir` order is arbitrary.
- Streaming downloads in 1 MiB chunks and the temporary staging directory: each download is one `Download` effect. Not modelled: a failure to create the temporary directory (`tempfile.TemporaryDirectory()`), a failure to open or write a downloaded file, a network failure mid-download, and clean-up errors. Each would raise out of `install` with files already staged.
- Tar extraction: the archive's contents are a parameter, the directories it unpacks. A corrupt archive, an I/O error part-way through `extractall` (which leaves a partly written tree in the install directory), members outside the target, and partial overwrites inside an existing directory are not modelled. An unpacked directory replaces one of the same name as a whole.
- Python's `\d` and `int()` accept non-ASCII Unicode decimal digits; the model accepts ASCII digits only.
- PyStr.ParseInt: the 4300-digit limit is CPython's default from 3.10.7 and 3.11 on. Python 3.10.0 to 3.10.6 have no limit, and the `python_requires='>=3.10'` in `setup.py` allows them. `sys.set_int_max_str_digits` and `PYTHONINTMAXSTRDIGITS` can change the limit. The model fixes it at the default, 4300.
- A missing `compatibilitytools.d`: `os.listdir(PROTON_DIR)` then raises `FileNotFoundError` (`lib.py` lines 62, 71 and 88), so install, uninstall and the listing all raise on a machine without that directory. The model's listing always exists, and a missing directory is treated as an empty one.
- `shutil.rmtree` failures, such as missing permissions or a file vanishing meanwhile, are not modelled: the `RemoveTree` effect always succeeds.
- Read errors of a version file other than a failing `open()` or a failed decode are not modelled separately. Either of those two makes `versionFile` `None`, and the reader raises `VersionFileMissing`.
- `datetime.timestamp()` on a naive datetime uses the machine's local time zone. The model takes a fixed offset from UTC as a parameter. Daylight-saving transitions and ambiguous or missing local times are not modelled. The model keeps CPython's solver and its range errors in years 1 and 9999. The platform's `localtime()` limits are not modelled; on Windows it refuses instants before 1970.
- Stati.MergedTieOrderOnly: the order among records with equal publish dates is not fixed. Python's Timsort and the model's insertion sort may order them differently; the lemma proves that they agree on everything else.
- `Proton.__gt__` returns `None` when compared with a non-`Proton`, making `__lt__` True. Only records are compared in the code, so only records are modelled.
- Paths built from a version string containing `/` or `..` are not modelled; a directory name is an opaque string.
- The command-line front end and packaging are not part of this model.
- `uninstall_proton_version` scans the directory twice, once to check and once to delete. Both scans read the same unchanged files, so the model scans once and uses the first match for both.

# wheelhouse-uploader, modelled in Dafny

wheelhouse-uploader publishes the Python wheels, Windows installers and
source archives built by CI into a cloud storage container. It also fetches
them back from the HTML index it keeps there. This project models its core
in Dafny and proves properties of that model:

- **Filename codec** (`filenames.dfy`, `wheelhouse_uploader/utils.py`).
  - `parse_filename` maps an artifact filename to
    `(distname, version, pyversion, kind, tags)`. The extension selects one
    of three grammars: wheel, `bdist_wininst` installer, or source archive.
  - `_wheel_escape` is the name escaping these grammars share. It has a
    quirk: `re.UNICODE` (32) is passed where `re.sub` expects its count, so
    at most 32 runs of characters are replaced.
  - Errors are modelled as `Result` values carrying the Python exception:
    a `ValueError` with its reason, or an `IndexError`. Callers that catch
    only `ValueError` behave as the source does.
- **Version handling** (`versions.dfy`).
  - `is_dev`, `has_stamp`, `local_stamp`, and the 14-digit UTC timestamp.
  - The PEP 440 parser, `safe_version` and version ordering belong to
    external packages. They are passed in as a `VersionLib` of function
    values.
  - The laws that stamping relies on are stated as predicates
    (`Lawful`, `TotalPreorder`) and required where they are used.
- **Development builds** (`devbuilds.dfy`).
  - `stamp_dev_wheel` renames a development wheel so that it carries its
    build time.
  - `matching_dev_filenames` lists the development builds that fill the
    same `(distname, kind, tags)` slot as a reference build, newest first.
    It is a loop plus an insertion sort, proved against a specification
    function.
- **Download side** (`fetch.dfy`, `wheelhouse_uploader/fetch.py`).
  - The older `parse_filename`, which compares raw project names.
  - The loop of `fetch_artifacts` that turns the links of an index page
    into `(url, path)` download pairs.
- **Upload side** (`upload.dfy`, `wheelhouse_uploader/upload.py`).
  - The `Uploader` class: `upload` with its retry budget, `_upload`,
    `_scan_local_files` and `upload_file`.
  - It runs against an in-memory `Store` class standing in for the libcloud
    driver. The store holds:
    - a map from container name to `Bucket` (objects plus listing order);
    - an account table, so that bad credentials raise `InvalidCreds`;
    - a schedule of transient request failures;
    - a log of the objects written.
  - Each method of `Uploader` is proved against the pure attempt
    specification `Sync`. Lemmas about `Sync` state what one attempt
    leaves in the container:
    - every file, under its base name;
    - the merged `metadata.json` manifest;
    - the rendered `index.html`.
  - Further lemmas state that a second attempt changes nothing.

Shared string helpers (`text.dfy`) restate the Python string operations used
(`split`, `rsplit`, `endswith`, slicing, `replace`, `os.path.join`,
`os.path.basename`) on `seq<char>`. `errors.dfy` holds `Option`, `Result`
and the exception values.

## Behaviour of the code worth knowing

- **Nothing is deleted.** `upload.py:51-108` removes no object and no
  manifest entry. The manifest is only ever merged into
  (`metadata.update`), and development builds are neither pruned nor
  stamped on the upload path.
- **Index order.** The index lists objects in the order
  `list_container_objects` returns them; it does not sort them.
- **Scan order.** The local scan takes `os.listdir` order; it does not sort
  it.
- **Retry budget.** `retry_on_error=3` allows four attempts: the first one
  and three retries.
- **Legacy wheel parser rejects its own doctest.** `fetch.py:52` requires
  the wheel python tag to be longer than four characters. Yet the doctest at
  `fetch.py:19-21` expects `scikit_learn-0.15.2-cp34-none-win32.whl` to
  parse. The model keeps the length check. `Fetch.DocumentedWheelRejected`
  proves that this documented example is rejected, and
  `Fetch.ShortTagRejected` proves it for every tag of four characters or
  fewer.
- **Index markup.** The index item markup `<a></li>` (`upload.py:99`,
  `upload.py:102`) is kept as written.

## Model

| member | source | states |
|---|---|---|
| Text.Split | wheelhouse_uploader/utils.py:106 | `str.split` on one separator: at least one piece, no piece holds the separator, and joining the pieces gives the input back |
| Text.SplitJoin | wheelhouse_uploader/utils.py:106 | splitting a join of separator-free pieces gives the pieces back |
| Text.RSplit | wheelhouse_uploader/utils.py:151-152 | `rsplit(sep, 1)` unpacking fails exactly when the separator is absent; otherwise head + sep + tail is the input and the tail holds no separator |
| Text.RSplitLast | wheelhouse_uploader/utils.py:168-169 | `rsplit` splits at the last separator |
| Text.LastIndex | wheelhouse_uploader/utils.py:151 | the index found holds the character and no later index does; -1 exactly when the character is absent |
| Text.Basename | wheelhouse_uploader/fetch.py:111-114 | the last `/`-segment of a link: slash-free, a suffix of the link, the whole link when it has no `/`, and otherwise preceded by a directory and `/` |
| Text.PathJoin | wheelhouse_uploader/upload.py:118 | `os.path.join`: ends with the name; an absolute name or empty folder gives the name alone; otherwise the folder is a prefix, followed by one `/` exactly when the folder does not already end in one, and then the name |
| Text.BasenameJoin | wheelhouse_uploader/upload.py:134 | the base name of a joined path is the slash-free name that was joined, so `upload_file` stores each scanned file under its listed name |
| Text.Slice | wheelhouse_uploader/utils.py:157 | Python's `s[n:]` clamps: the tail when `n` is in range, empty past the end |
| Text.DropSuffix | wheelhouse_uploader/utils.py:84-98 | `filename[:-len(ext)]` followed by the extension gives the filename back |
| Text.ReplaceChar | wheelhouse_uploader/fetch.py:48 | `str.replace` of one character: same length, each position replaced exactly when it held that character |
| Text.RemoveChar | wheelhouse_uploader/utils.py:160 | `pythontag.replace('.', '')`: a character occurs in the result exactly when it occurs in the tag and is not a dot; a tag without dots is returned unchanged, and a one-character string loses that character exactly when it is the dot |
| Text.RemoveCharAppend | wheelhouse_uploader/utils.py:160 | removal works piece by piece: removing from a concatenation concatenates the removals, so the kept characters stay in order |
| Filenames.DropRun | wheelhouse_uploader/utils.py:14-15 | consuming one run of the escape pattern leaves a string that is empty or starts with a kept character, and is shorter when a run was there |
| Filenames.DropRunSuffix | wheelhouse_uploader/utils.py:14-15 | what consuming a run keeps is a suffix of the input |
| Filenames.DropRunDrops | wheelhouse_uploader/utils.py:14-15 | every character consumed before that suffix lies outside `[\w.]`, so exactly one maximal run is consumed |
| Filenames.SubstituteCleans | wheelhouse_uploader/utils.py:14-15 | with no more runs than the count allows, the escaped string holds only word characters and `.` |
| Filenames.SubstituteLeavesRest | wheelhouse_uploader/utils.py:14-15 | with more runs than the count, some character outside the kept set survives the escape |
| Filenames.SubstituteClean | wheelhouse_uploader/utils.py:14-15 | escaping a clean string changes nothing |
| Filenames.SubstituteCleanPrefix | wheelhouse_uploader/utils.py:14-15 | escaping keeps a clean prefix verbatim and escapes what follows it with the same count |
| Filenames.EscapeDash | wheelhouse_uploader/utils.py:14-15 | two clean words joined by `-` escape to the words joined by `_` |
| Filenames.EscapeIdempotent | wheelhouse_uploader/utils.py:14-15 | `_wheel_escape` is idempotent and clean for names with at most 32 runs; with more runs (the count = `re.UNICODE` quirk) its output is not clean |
| Filenames.PythonVersion | wheelhouse_uploader/utils.py:120-131 | the python version of a wheel tag, case by case: the host version for `py2.py3`; `X` for a three-character `pyX`; `X.Y` for a four-character `pyXY` or `ppXY` and for any `cpXY…` of four or more characters; an IndexError exactly for a `cp` tag shorter than four characters; the unsupported-tag ValueError exactly in every other case |
| Filenames.ParseWheel | wheelhouse_uploader/utils.py:105-141 | a parsed wheel has wheel format and, when a project is expected, its escaped name; no failure is an unrecognized extension |
| Filenames.ParseExe | wheelhouse_uploader/utils.py:144-165 | an installer parse fails only with a ValueError, and a success has installer format and the escaped expected name |
| Filenames.ParseInstaller | wheelhouse_uploader/utils.py:151-165 | the installer name after the python tag is settled: fails only with a ValueError, and a success has installer format and the escaped expected name |
| Filenames.ParseSource | wheelhouse_uploader/utils.py:168-176 | a source archive parse fails only with a ValueError; a success has no python version and source format |
| Filenames.ParseFilename | wheelhouse_uploader/utils.py:18-102 | the unrecognized-extension error occurs exactly when none of the four extensions ends the name; the parsed format agrees with the extension in both directions |
| Filenames.ExtensionsExclusive | wheelhouse_uploader/utils.py:84-98 | at most one of `.whl`, `.exe`, `.zip`, `.tar.gz` ends a name, so the dispatch order does not matter |
| Filenames.WheelFromComponents | wheelhouse_uploader/utils.py:105-141 | a wheel built from five or more dash-free components parses to the first component verbatim, the normalised second, and the tags of the next three, or to the python-tag error |
| Filenames.WheelTooShort | wheelhouse_uploader/utils.py:113-117 | for any number of dash-free components: fewer than three, or a python tag shorter than three characters, is a ValueError; three or four components with a long enough tag pass that check and fail with an IndexError |
| Filenames.WheelFields | wheelhouse_uploader/utils.py:105-141 | a parsed wheel is its dash-separated components plus `.whl`, and name, version and tags are read from the first five components |
| Filenames.ProjectNameCheck | wheelhouse_uploader/utils.py:108-111 | giving an expected project name only filters: the result equals the unchecked parse or becomes a name mismatch, and a kept result carries the escaped project name |
| Filenames.WheelNameFiltered | wheelhouse_uploader/utils.py:108-111 | the same filtering for the wheel grammar |
| Filenames.InstallerNameFiltered | wheelhouse_uploader/utils.py:153-156 | the same filtering for the installer grammar |
| Filenames.SourceNameFiltered | wheelhouse_uploader/utils.py:170-173 | the same filtering for the source archive grammar |
| Filenames.ExeWithPythonTag | wheelhouse_uploader/utils.py:144-165 | `dist-version.platform-pyX.exe` parses to the escaped name, the normalised version, python version `X`, the tag without dots and the escaped platform |
| Filenames.ExeBasenameWithTag | wheelhouse_uploader/utils.py:144-165 | the same, stated on the installer basename |
| Filenames.ExeTagged | wheelhouse_uploader/utils.py:145-150 | a trailing dash-free segment starting with `py` is taken as the python tag |
| Filenames.InstallerFields | wheelhouse_uploader/utils.py:151-165 | `dist-version.platform` with a dash-free version and dot-free platform splits into those fields |
| Filenames.ExeWithoutPythonTag | wheelhouse_uploader/utils.py:145-150 | an installer whose platform holds no python tag (it may contain `-`, as `win-amd64` does, when its last `-` segment does not start with `py`) parses to the escaped name, the normalised version, the running interpreter's version and its tag, and the escaped platform |
| Filenames.ExeBasenameWithoutTag | wheelhouse_uploader/utils.py:145-150 | the same, stated on the installer basename |
| Filenames.DocumentedUntaggedInstaller | wheelhouse_uploader/utils.py:80-82 | the documented `sklearn-template-0.0.3.win-amd64.exe` parses to `sklearn_template`, the normalised `0.0.3`, the running interpreter's version and platform `win_amd64` |
| Filenames.SklearnTemplateEscaped | wheelhouse_uploader/utils.py:80-82 | the documented name `sklearn-template` escapes to `sklearn_template` |
| Filenames.WinAmd64Escaped | wheelhouse_uploader/utils.py:80-82 | the documented platform `win-amd64` escapes to `win_amd64` |
| Filenames.SourceArchive | wheelhouse_uploader/utils.py:168-176 | `dist-version.tar.gz` and `.zip` parse to the escaped name, the normalised version, no python version and no tags |
| Versions.HasStamp | wheelhouse_uploader/utils.py:263-279 | fails exactly when the version does not parse; otherwise true exactly when there is a local segment and it starts with 14 digits |
| Versions.LocalStamp | wheelhouse_uploader/utils.py:282-316 | fails exactly when the version does not parse; otherwise the result is exactly public part + `+` + the timestamp of the clock reading, then `_` + old local segment when there was one |
| Versions.Digits | wheelhouse_uploader/utils.py:312 | zero-padded decimal of the given width: all digits, and reading them back as a decimal number gives the input |
| Versions.Timestamp | wheelhouse_uploader/utils.py:312 | `strftime("%Y%m%d%H%M%S")` gives 14 digits |
| Versions.TimestampOrder | wheelhouse_uploader/utils.py:285-286 | a strictly later clock reading gives a strictly larger timestamp string |
| Versions.DigitsLess | wheelhouse_uploader/utils.py:312 | zero-padded decimals of equal width compare as the numbers do |
| Versions.StampOrder | wheelhouse_uploader/utils.py:282-316 | stamps of two versions with the same public part, taken at successive clock readings, compare as strings in that order whatever their old local segments (or lack of one) |
| Versions.StampTextOrder | wheelhouse_uploader/utils.py:312-316 | the order of equal-width timestamps carries over to the stamped texts of two versions with one public part, whatever follows the timestamps |
| Versions.DocumentedStampOrder | wheelhouse_uploader/utils.py:288-308 | the documented stamps: `deadbeef` sorts after `cafebabe`, yet `0.1.dev0+deadbeef` stamped first sorts before `0.1.dev0+cafebabe` and `0.1.dev0` stamped later |
| Versions.TimestampLead | wheelhouse_uploader/utils.py:312 | the timestamp of a clock reading never starts with `0`, so reading a numeric local segment as a number keeps it whole |
| Versions.StampedIsStamped | wheelhouse_uploader/utils.py:263-316 | under the version library's laws, a stamped development version is still a development version and counts as stamped |
| DevBuilds.StampDevWheel | wheelhouse_uploader/utils.py:319-358 | every outcome exactly: parse errors propagate; a release build keeps its name; a development installer or archive is a ValueError; an already stamped development wheel keeps its name; an unstamped one is renamed to the wheel name rebuilt with its locally stamped version |
| DevBuilds.StampKeepsSlot | wheelhouse_uploader/utils.py:319-358 | under the version library's laws, a successful stamp gives a name that parses to the same slot and python version, and a development build stays a development build |
| DevBuilds.WheelFilenameParses | wheelhouse_uploader/utils.py:357-358 | the wheel name rendered from dash-free fields parses back to those fields |
| DevBuilds.StampDashFree | wheelhouse_uploader/utils.py:312-316 | a stamped development version holds no `-`, so it fits in a wheel name |
| DevBuilds.StampedWheel | wheelhouse_uploader/utils.py:319-358 | the renamed wheel parses to the same name, tags and python version, with a stamped development version |
| DevBuilds.StampIdempotent | wheelhouse_uploader/utils.py:331-334 | stamping the output of a successful stamp, at any later time, leaves it unchanged |
| DevBuilds.CandidatesExact | wheelhouse_uploader/utils.py:246-258 | the loop collects exactly the inputs that parse, are development versions and fill the slot; its only failure is an IndexError |
| DevBuilds.DevMatchesExact | wheelhouse_uploader/utils.py:233-258 | an unparseable or release reference matches nothing; otherwise the matches are exactly the development builds in the reference's slot |
| DevBuilds.CandidatesErrorPersists | wheelhouse_uploader/utils.py:246-252 | an IndexError ends the scan: no later filename changes the result |
| DevBuilds.SortNewestFirst | wheelhouse_uploader/utils.py:259 | the sort returns a permutation of its input ordered by descending version |
| DevBuilds.InsertKeepsOrder | wheelhouse_uploader/utils.py:259 | inserting a name after every version it does not exceed keeps the order descending |
| DevBuilds.MatchingDevFilenames | wheelhouse_uploader/utils.py:195-260 | `matching_dev_filenames`: fails exactly when the specification does; otherwise a permutation of the exact matches, newest version first |
| DevBuilds.CollectMatching | wheelhouse_uploader/utils.py:246-258 | the loop returns the specified candidates in input order, each with its parsed version |
| Fetch.ParseWheel | wheelhouse_uploader/fetch.py:46-65 | exact outcomes: a name-mismatch error exactly when the first component is not the project name with `-` replaced by `_`; a malformed-wheel error for fewer than three components or a tag of four characters or fewer; the unsupported-tag error for a long tag that is neither `py2.py3` nor `cp…`; otherwise the verbatim version and the host or `X.Y` python version |
| Fetch.ParseExe | wheelhouse_uploader/fetch.py:68-76 | a legacy installer parse fails only with a ValueError; a success starts with the project name |
| Fetch.ParseSource | wheelhouse_uploader/fetch.py:79-84 | a source archive parses exactly when its name starts with the project name, and the version is what follows the separator |
| Fetch.ParseFilename | wheelhouse_uploader/fetch.py:14-44 | every failure is a ValueError; the unrecognized-extension error occurs exactly when no extension matches; kind agrees with extension; only source archives lack a python version |
| Fetch.WheelAccepted | wheelhouse_uploader/fetch.py:46-65 | a wheel with the project's name and a `py2.py3` or long `cp` tag parses to its verbatim version |
| Fetch.ShortTagRejected | wheelhouse_uploader/fetch.py:52-53 | every python tag of four characters or fewer is rejected |
| Fetch.DocumentedWheelRejected | wheelhouse_uploader/fetch.py:19-21 | the documented `cp34` wheel example is rejected by the length check |
| Fetch.ExeAccepted | wheelhouse_uploader/fetch.py:68-76 | an installer `project?version.platform-tag.exe` parses to the text before the last dot and the tag after `py` |
| Fetch.ExeBlockAccepted | wheelhouse_uploader/fetch.py:68-76 | the same, stated on the basename |
| Fetch.DocumentedInstaller | wheelhouse_uploader/fetch.py:23-25 | the documented installer example parses to version `0.15.1-rc`, python `2.7` |
| Fetch.SourceAccepted | wheelhouse_uploader/fetch.py:79-84 | a source archive `project?version.zip` or `.tar.gz` parses to that version |
| Fetch.SourceBlockAccepted | wheelhouse_uploader/fetch.py:79-84 | the same, stated on the basename |
| Fetch.DocumentedSources | wheelhouse_uploader/fetch.py:27-31 | the documented source archive examples parse to version `0.15.1` |
| Fetch.ResolveLink | wheelhouse_uploader/fetch.py:107-110 | the index URL is a prefix and the link a suffix of the absolute URL, joined by exactly one `/` when the index URL lacks one |
| Fetch.SelectArtifacts | wheelhouse_uploader/fetch.py:104-124 | the loop's list is the specification's selection of the links, in link order |
| Fetch.SelectStep | wheelhouse_uploader/fetch.py:111-124 | one turn appends the next link's transfer exactly when its filename parses and its version is wanted |
| Fetch.SelectedSound | wheelhouse_uploader/fetch.py:115-124 | every selected transfer comes from an accepted link |
| Fetch.SelectedComplete | wheelhouse_uploader/fetch.py:115-124 | every accepted link's transfer is selected |
| Fetch.SelectedAppend | wheelhouse_uploader/fetch.py:104-124 | selecting from a concatenation selects from each part in turn, so link order is kept |
| Fetch.FetchSelection | wheelhouse_uploader/fetch.py:104-124 | a transfer is downloaded exactly when some link parses, has a wanted version and maps to it |
| Fetch.UnfilteredKeepsParsed | wheelhouse_uploader/fetch.py:121-122 | without a version, or with an empty one, every link whose filename parses is kept |
| Upload.Merge | wheelhouse_uploader/upload.py:81 | `metadata.update(local_metadata)`: keys are the union, local entries win, remote entries survive otherwise |
| Upload.MergeIdempotent | wheelhouse_uploader/upload.py:81 | merging the same local entries twice changes nothing |
| Upload.Scanned | wheelhouse_uploader/upload.py:115-127 | the scan fails only on a missing path, and every recorded file path is a readable file |
| Upload.ScanFails | wheelhouse_uploader/upload.py:115-123 | the scan fails exactly when a non-hidden, non-directory name is not a readable file |
| Upload.ScanKeys | wheelhouse_uploader/upload.py:115-127 | the local manifest records exactly the non-hidden, non-directory names |
| Upload.ScanEntry | wheelhouse_uploader/upload.py:118-127 | each recorded name has the sha256 and size of the file at its joined path, and that path is in the file list |
| Upload.ScanOrigin | wheelhouse_uploader/upload.py:118-122 | every file path is the joined path of a recorded name |
| Upload.ScanBasenames | wheelhouse_uploader/upload.py:118-134 | for slash-free names, the manifest keys are exactly the base names of the file paths, so the manifest is keyed as the uploads are named |
| Upload.ScanFailurePersists | wheelhouse_uploader/upload.py:123 | once reading a file fails, the scan stays failed |
| Upload.ScanStep | wheelhouse_uploader/upload.py:115-127 | one turn of the scan loop in terms of the previous state |
| Upload.Uploader.ScanLocalFiles | wheelhouse_uploader/upload.py:110-128 | the loop computes the specified scan, failing on a missing folder or file |
| Upload.IndexPage | wheelhouse_uploader/upload.py:91-104 | the page starts with the header and ends with the footer |
| Upload.ItemsAppend | wheelhouse_uploader/upload.py:93-103 | the link lines of a listing are those of its parts in order |
| Upload.ItemsSingle | wheelhouse_uploader/upload.py:94-103 | one object gives one link line, or none for a `.json` or `.html` object |
| Upload.ItemsStep | wheelhouse_uploader/upload.py:93-103 | one turn of the index loop in terms of the previous lines |
| Upload.HrefFragment | wheelhouse_uploader/upload.py:95-103 | the link carries `#sha256=d` exactly when the manifest records digest `d`, and is the bare name exactly when it records none |
| Upload.IndexLinks | wheelhouse_uploader/upload.py:91-104 | every listed object other than the index and manifest has its link line on the page, between header and footer |
| Upload.IndexSkipsOwnObjects | wheelhouse_uploader/upload.py:94 | the index and the manifest objects add no line to the index |
| Upload.Put | wheelhouse_uploader/upload.py:139-141 | a write creates or replaces the object, and lists it only when new |
| Upload.PutConsistent | wheelhouse_uploader/upload.py:139-141 | a write keeps the listing naming every object once |
| Upload.LoadManifest | wheelhouse_uploader/upload.py:59-67 | a missing manifest reads as empty; reading fails exactly when the stored object is not a manifest |
| Upload.UploadedObjects | wheelhouse_uploader/upload.py:71-78 | the uploads add or replace objects and never remove one |
| Upload.WrittenNames | wheelhouse_uploader/upload.py:134-141 | every uploaded path leaves an object under its base name |
| Upload.UploadedListing | wheelhouse_uploader/upload.py:71-78 | uploads of names already present leave the listing and the object names unchanged |
| Upload.UploadedConsistent | wheelhouse_uploader/upload.py:71-78 | the uploads keep the listing naming every object once |
| Upload.SyncedContents | wheelhouse_uploader/upload.py:51-108 | after an attempt every file is stored under its base name, no object is removed, the manifest is the merge of remote and local entries, the index (when enabled) is exactly the page rendered from that manifest and the listing after the uploads, and a consistent listing stays consistent |
| Upload.SyncedIndexLinks | wheelhouse_uploader/upload.py:51-108 | with a consistent listing, the index an attempt writes links every uploaded package file under its base name |
| Upload.PublishedObjects | wheelhouse_uploader/upload.py:80-108 | the manifest object holds the merged manifest, the index (when enabled) the page rendered from it and the listing; the object names become exactly the old ones plus those two; every other object is unchanged; consistency is kept |
| Upload.SyncIdempotent | wheelhouse_uploader/upload.py:37-108 | `_upload` is idempotent: a second successful attempt on the container a successful attempt left changes nothing |
| Upload.SyncedAgain | wheelhouse_uploader/upload.py:51-108 | re-running the uploads and publication over their own result gives the same container |
| Upload.PublishedAgain | wheelhouse_uploader/upload.py:80-108 | publishing again over a container that only had the same objects rewritten gives the same container |
| Upload.Store.constructor | wheelhouse_uploader/upload.py:32-35 | the driver starts with the given accounts, containers and fault schedule and no writes |
| Upload.Store.Request | wheelhouse_uploader/upload.py:135 | a request fails with InvalidCreds for unknown credentials, otherwise as the schedule says |
| Upload.Store.GetContainer | wheelhouse_uploader/upload.py:54-56 | reports whether the container exists, or the request's failure |
| Upload.Store.CreateContainer | wheelhouse_uploader/upload.py:57 | on success the container exists and is empty |
| Upload.Store.GetObject | wheelhouse_uploader/upload.py:60-66 | the stored object or none, or the request's failure; nothing changes |
| Upload.Store.PutObject | wheelhouse_uploader/upload.py:83-85 | on success the object is written and logged; on failure nothing changes |
| Upload.Store.ListObjects | wheelhouse_uploader/upload.py:89 | the container's object names in listing order |
| Upload.Uploader.constructor | wheelhouse_uploader/upload.py:23-30 | the uploader keeps its credentials, driver, index flag and digest function |
| Upload.Uploader.UploadFile | wheelhouse_uploader/upload.py:130-141 | fails with InvalidCreds exactly for bad credentials; on success the file is stored under its base name and that write is logged |
| Upload.Uploader.UploadFiles | wheelhouse_uploader/upload.py:71-78 | on success the container holds the specified uploads and the log the file writes in order; with clean credentials and no faults it succeeds |
| Upload.Uploader.RenderIndex | wheelhouse_uploader/upload.py:91-104 | the page built line by line is the specified index page |
| Upload.Uploader.Prepare | wheelhouse_uploader/upload.py:53-67 | gets or creates the container and reads its manifest; fails with InvalidCreds exactly for bad credentials |
| Upload.Uploader.Publish | wheelhouse_uploader/upload.py:80-108 | on success the manifest and, when enabled, the index are written and logged in that order |
| Upload.Uploader.UploadOnce | wheelhouse_uploader/upload.py:51-108 | `_upload`: fails with InvalidCreds exactly for bad credentials; on success the container is what `Sync` specifies and the log holds every file, then the manifest, then the index; with clean credentials and no faults its result is `Sync`'s |
| Upload.Uploader.Upload | wheelhouse_uploader/upload.py:37-49 | `upload`: between one and `retry_on_error + 1` attempts; bad credentials end it after one attempt and nothing else raises InvalidCreds; any other failure uses the whole budget; success leaves the container as one `Sync` from the state before the last attempt |

## Left out

- Network, file-system and clock I/O. The libcloud driver is the in-memory
  `Store`, the local folder is a `Disk` value, and the clock reading is an
  `Instant` parameter. `urlopen`, `download` and the download thread pool
  (`fetch.py:87-98`, `fetch.py:125-138`) are not modelled.
- The `href` regular-expression scan of the index page in `fetch_artifacts`
  (`fetch.py:11`, `fetch.py:104-106`). The model takes the extracted links
  as its input.
- Concurrency. The `ThreadPoolExecutor` of `_upload` is modelled as a
  sequential loop in submission order. The model does not capture uploads
  interleaving, or the first failure being raised after the other uploads
  have run.
- The `sleep(1)` back-off in `upload` and the `print` progress messages.
- `Upload.Uploader.Upload`: the retry is modelled as a loop instead of the
  recursive call of `upload.py:48-49`. It does not say which fault is
  reported beyond "not InvalidCreds". On success it describes the container
  from the state before the last attempt, not the original one. No lemma
  relates an attempt that follows a failed one, whose partial writes stay in
  the container, to a single clean attempt from the original state.
- JSON encoding and decoding of the manifest, and the HTML text held in
  storage. Objects are the tagged values `FileData`, `ManifestData` and
  `PageData`. A stored manifest that is not a `ManifestData` stands for a
  document `json.load` rejects.
- SHA-256 is the injected function `sha256` of the `Uploader`.
- PEP 440 parsing, `safe_version` and `parse_version` ordering are external
  to the repository. They are the `VersionLib` parameter, constrained only
  by `Lawful` and `TotalPreorder` where a proof needs them.
- `Filenames.IsWordChar`: `\w` is modelled as ASCII letters, digits and `_`.
  Python's Unicode word characters are not modelled.
- `Versions.Timestamp`: the timestamp assumes a four-digit year
  (`UtcTime` restricted to years 1000-9999).
- `DevBuilds.SortNewestFirst`: it does not state the stability of
  Python's sort (the relative order of equal versions).
- `Upload.Put`: a new object name is appended to the end of the listing.
  The order of the index therefore rests on the assumption that the
  provider's `list_container_objects` returns objects in the order they
  were first written; real providers may sort them instead.
- `Upload.Uploader.UploadFiles`: InvalidCreds implies bad credentials, but
  not the converse. With no paths, no request is made and bad credentials
  go unnoticed.
- `get_container_cdn_url` (`upload.py:143-150`): it only calls the driver.
  `make_driver` (`upload.py:32-35`) is the `store` field. `max_workers`
  has no effect in a sequential model.
- `wheelhouse_uploader/cmd.py`, `wheelhouse_uploader/commandline.py` and
  `setup.py` are command-line and packaging wiring, and are not part of
  this model.

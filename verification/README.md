# er-downloader update logic in Dafny

er-downloader installs a game mod and keeps it up to date. Its Rust backend
makes a few plain decisions, and most of the code around them is network,
disk and UI glue. This project models those decisions as pure functions and
proves what they promise. Apart from the cases listed under "Left out",
every outcome of that glue is an input to the model: a curl transfer, a
Dropbox link, a file-system call, a zip extraction, a dialog answer.

- `format_size` (module `Sizes`, with `Decimal` for the sub-kilobyte digits)
  picks the unit by the 1024-based thresholds. Below one kilobyte it prints
  the exact decimal count followed by ` bytes`.
- `check_updates` (module `Updates`, with `Versions` and `Text`) reads the
  installed version marker and the remote `UpdateInfo` (`latest`, `least`
  and the key→path `updates` map). From them it decides between four
  outcomes:
  - an empty list: no version file, an unsupported old version, or already
    current;
  - an error from the metadata request;
  - a panic: a newer-than-latest install, or an unreadable version;
  - the list of newer update paths, sorted by version.
- `download_file` (module `Download`) handles one resumable transfer:
  - an unknown size is an error;
  - an existing file at least as long as the reported size is skipped, and
    the call succeeds without a transfer;
  - otherwise, once the directory, the size request and the file all
    succeed, a transfer resumes from the existing length;
  - after a transfer that completes without error, the call succeeds exactly
    when the final length equals the reported size, and otherwise fails with
    "Download incomplete".

  The module also gives the progress events the callback emits and the
  display name they carry.
- `download_updates` (module `Driver`) has two paths.
  - An empty list: after a confirmation, download and extract the full
    archive.
  - A non-empty list: each update in turn, with at most three calls of
    `download_file` per archive (up to two retries). Then `version.txt` is
    rewritten with the marker of the last update. Only the full install
    returns `true`.

Modelling choices:

- The `version_compare` crate is split in two.
  - Its parser is a parameter, `parse: string -> Option<Version>`. `None`
    means `Version::from` could not read the string, so the `unwrap()`
    panics.
  - Its comparison is concrete: versions are sequences of naturals, compared
    lexicographically, with missing trailing components read as zero.
- The iteration order of the `HashMap` is a parameter, `order`, that lists
  each key once.
- `sort_by` is modelled as a stable insertion sort. Its comparator only runs
  when there are at least two entries.
- `str::replace(pat, "")` is modelled as a left-to-right scan that deletes
  each match and resumes after it (`Text.RemoveAll`).
- Curl reports the content length as an `f64` that is cast `as u64`. The
  cast saturates: a missing length (-1) becomes 0 and takes the "Could not
  determine file size" branch.
- The output file is opened in append mode, so each retry resumes from the
  length that the previous call left behind. The retry loop threads that
  length from call to call.

## Model

| member | source | states |
|---|---|---|
| `Sizes.FormatSize` | src-tauri/src/helpers.rs:66-80 | exactly one unit is chosen: GB iff bytes ≥ 1024³, MB iff 1024² ≤ bytes < 1024³, KB iff 1024 ≤ bytes < 1024², bytes iff below 1024; below 1024 the text is canonical decimal digits that parse back to `bytes`, then " bytes"; a scaled size has quotient at least 1 and, below GB, under 1024 |
| `Sizes.FormatSizeMonotone` | src-tauri/src/helpers.rs:71-79 | a larger byte count never selects a smaller unit |
| `Decimal.Show` | src-tauri/src/helpers.rs:78 | `{}` of an integer: canonical digits (no leading zero) that parse back to the number |
| `Decimal.ShowValue` | src-tauri/src/helpers.rs:78 | printing is the inverse of reading on canonical digit strings, so the printed text is the only canonical spelling of the number |
| `Text.RemoveAll` | src-tauri/src/helpers.rs:175 | `replace(pat, "")` never lengthens the string |
| `Text.RemoveChar` | src-tauri/src/helpers.rs:175 | removing a one-character pattern such as "v" removes every occurrence of it and keeps every other character with its multiplicity |
| `Text.RemoveKeeps` | src-tauri/src/downloader.rs:82 | removal only deletes: every character of the result occurs in the input |
| `Text.RemoveAbsent` | src-tauri/src/downloader.rs:276 | a string without the pattern is unchanged by the removal |
| `Text.RemoveAppend` | src-tauri/src/downloader.rs:276 | removal distributes over concatenation when no occurrence spans the seam |
| `Text.RemoveTrailing` | src-tauri/src/downloader.rs:82 | removing ".zip" from `stem.zip`, where the stem has no ".zip", gives the stem |
| `Text.RsplitOnce` | src-tauri/src/downloader.rs:234 | `rsplit_once(c)` is `None` iff `c` does not occur; otherwise the string is `before + c + after` with no `c` in `after` |
| `Text.LastSplitUnique` | src-tauri/src/downloader.rs:234 | the split at the last separator is unique |
| `Text.FileName` | src-tauri/src/downloader.rs:66-69 | the file name is a suffix without '/', preceded by '/' unless it is the whole string, and it is the whole string when there is no '/' |
| `Text.FileNameOfPath` | src-tauri/src/downloader.rs:66-69 | the file name of `dir/name` is `name` |
| `Versions.CompareFlip` | src-tauri/src/helpers.rs:186-191 | swapping the compared versions swaps less and greater and keeps equal |
| `Versions.CompareTransitive` | src-tauri/src/helpers.rs:181-192 | the order used by the sort is transitive, strictly so when either step is strict |
| `Versions.CompareEqSameLength` | src-tauri/src/helpers.rs:158 | between versions with the same number of components, equal means identical |
| `Versions.TrailingZero` | src-tauri/src/helpers.rs:158 | a trailing zero component does not change a version ("1.2" equals "1.2.0") |
| `Versions.Compare` | src-tauri/src/helpers.rs:140 | the crate's `compare`, also behind `<` and `compare_to`: every version compares equal to itself |
| `Versions.NumericComponents` | src-tauri/src/helpers.rs:177 | two versions that differ only in their last component compare as those numbers do (less, equal, greater in both directions), so "1.10" is newer than "1.9" |
| `Updates.Select` | src-tauri/src/helpers.rs:173-180 | the loop panics iff some key is unreadable; otherwise it keeps exactly the values of the keys newer than the installed version |
| `Updates.SelectCount` | src-tauri/src/helpers.rs:173-180 | with each key visited once, one value is kept per newer key |
| `Updates.Insert` | src-tauri/src/helpers.rs:181-192 | inserting into a version-sorted list keeps it sorted and readable and places the new entry first or after the old first |
| `Updates.InsertPermutes` | src-tauri/src/helpers.rs:181-192 | insertion adds exactly the new entry to the list's multiset |
| `Updates.SortByVersion` | src-tauri/src/helpers.rs:181-192 | the sorted list is in ascending version order |
| `Updates.SortPermutes` | src-tauri/src/helpers.rs:181-192 | the sort is a permutation of its input |
| `Updates.Order` | src-tauri/src/helpers.rs:181-192 | the sort panics iff it has at least two entries and one of them is unreadable; otherwise it returns a permutation of its input, in ascending version order when the comparator ran |
| `Updates.SortedPairwise` | src-tauri/src/helpers.rs:181-192 | ascending order between neighbours means ascending order between any two entries |
| `Updates.CheckUpdates` | src-tauri/src/helpers.rs:105-227 | with no version file the result is the empty list, before any metadata is used; a failed request is an error; an unreadable current, latest or least panics; below least gives the empty list whatever latest and the map are; equal to latest gives the empty list; newer than latest panics |
| `Updates.Pending` | src-tauri/src/helpers.rs:159-194 | the update branch never returns an error; its only panics are `unwrap()` on `None`; a returned list is no longer than the map |
| `Updates.SelectMultiplicity` | src-tauri/src/helpers.rs:173-180 | with each key visited once, each value occurs in the selection once per newer key that maps to it |
| `Updates.PendingUnreadableKey` | src-tauri/src/helpers.rs:174-176 | a key that cannot be read after removing its 'v's makes the update branch panic |
| `Updates.PendingReturnsList` | src-tauri/src/helpers.rs:173-194 | with every key readable, the update branch returns a list iff fewer than two updates are newer or every newer update's value is readable |
| `Updates.PendingList` | src-tauri/src/helpers.rs:173-194 | a returned list holds exactly the values of the newer keys, each value as many times as there are newer keys mapping to it, in ascending version order |
| `Updates.CheckUpdatesList` | src-tauri/src/helpers.rs:173-194 | when current is supported and older than latest, a returned list holds exactly the values whose key, with 'v's removed, is newer than current, each value as many times as there are such keys mapping to it, sorted ascending by the version of the value with 'v's removed |
| `Download.AsU64` | src-tauri/src/downloader.rs:37 | the `as u64` cast of the reported length: negatives become 0, values above the range saturate, in-range values are kept |
| `Download.DisplayName` | src-tauri/src/downloader.rs:66-69 | the name shown in progress events has no '/', is no longer than the path, and is the file name itself when that has no ".zip" |
| `Download.DisplayNameOfArchive` | src-tauri/src/downloader.rs:66-69 | the event name for `dir/stem.zip` is `stem` |
| `Download.Reporting` | src-tauri/src/downloader.rs:70-71 | only callback calls with a positive total emit an event |
| `Download.ReportingMembers` | src-tauri/src/downloader.rs:70-71 | the emitting calls are exactly the calls with a positive total |
| `Download.ReportingOne` | src-tauri/src/downloader.rs:70-71 | a single callback call is kept, once, exactly when its total is positive |
| `Download.ReportingAppend` | src-tauri/src/downloader.rs:70-71 | the decision is made per call: filtering `a + b` gives the kept calls of `a` followed by those of `b`, so every emitting call is kept once and in order, repeated values included |
| `Download.ProgressEvents` | src-tauri/src/downloader.rs:70-93 | one event per emitting callback call, in order, with current size equal to the resume offset plus curl's count for that call |
| `Download.ReportingNondecreasing` | src-tauri/src/downloader.rs:70-72 | keeping only the emitting calls keeps curl's count non-decreasing |
| `Download.ProgressMonotone` | src-tauri/src/downloader.rs:60-72 | when curl's count never goes back, the reported size never goes back and never falls below the resume offset |
| `Download.DownloadFile` | src-tauri/src/downloader.rs:24-133 | a directory, size-request or open failure is returned as that error; a zero total after the cast is the unknown-size error, and only that is; an existing file at least as long as the total is a success without transfer; a transfer starts iff every earlier step succeeded and the file is shorter than the total, resumes at the existing length, and grows the file by what it writes; a failed transfer or final length read is that error; after a clean transfer the call succeeds iff the final length equals the total, otherwise "Download incomplete"; success implies the file is at least the total |
| `Download.DownloadEvents` | src-tauri/src/downloader.rs:70-122 | no event without a transfer; otherwise one progress event per emitting callback, named by the display name, and, only on success, a completion event at the full size named "Download completed successfully" |
| `Driver.VersionMarker` | src-tauri/src/downloader.rs:276 | the marker is no longer than the update path, and equals it when neither "/updates/" nor ".zip" occurs |
| `Driver.MarkerOfUpdatePath` | src-tauri/src/downloader.rs:276 | the version marker of `/updates/name.zip` is `name` |
| `Driver.LengthBefore` | src-tauri/src/downloader.rs:44-46 | the output file never shrinks across the calls of a retry loop: append mode keeps what earlier calls wrote |
| `Driver.LengthBeforeStep` | src-tauri/src/downloader.rs:44-46 | each call starts from the length the previous call left behind |
| `Driver.RetryFrom` | src-tauri/src/downloader.rs:254-274 | from any point of the loop, at most three calls in all, and giving up only at the third |
| `Driver.RetryFromStopsAtFirstSuccess` | src-tauri/src/downloader.rs:254-274 | every call before the last failed, and the archive was fetched iff the last call succeeded |
| `Driver.DownloadWithRetries` | src-tauri/src/downloader.rs:182-226 | between one and three calls; giving up means three calls |
| `Driver.DownloadWithRetriesStops` | src-tauri/src/downloader.rs:254-274 | the loop stops at the first success and gives up iff all three calls fail |
| `Driver.FullInstall` | src-tauri/src/downloader.rs:168-231 | `Ok(true)` iff confirmed, linked, fetched and extracted; declining returns `Ok(false)` with no download; a link failure is returned as that error with no download; otherwise exactly one retry loop runs, giving up returns `Ok(false)`, and an open, archive or extract failure after a successful download is returned as that error; `version.txt` is not touched |
| `Driver.ApplyUpdates` | src-tauri/src/downloader.rs:233-277 | the installed updates are a prefix of the list, the whole list iff the loop runs through; the marker is then that of the last update; at most one more archive is attempted than installed |
| `Driver.ApplyUpdatesTries` | src-tauri/src/downloader.rs:254-274 | each archive attempted got exactly the calls of its own retry loop, between one and three |
| `Driver.ApplyUpdatesInstalled` | src-tauri/src/downloader.rs:233-265 | every installed update had a '/' in its path and a link, and was fetched and unpacked |
| `Driver.ApplyUpdatesStop` | src-tauri/src/downloader.rs:233-274 | the loop stops at the first update not installed, with its first failing step: no '/' panics, a link failure is that error, three failed downloads return `Ok(false)`, an unpacking failure is that error; only the last two made `download_file` calls |
| `Driver.ApplyUpdatesGaveUp` | src-tauri/src/downloader.rs:266-270 | the loop stops with `Ok(false)` iff the first update not installed had a path and a link and all three of its downloads failed |
| `Driver.ApplyUpdatesUnpackFailed` | src-tauri/src/downloader.rs:259-263 | the loop stops with an error after a download iff the first update not installed was fetched but could not be unpacked; the error is that failure, and no further download was made |
| `Driver.WriteVersionFile` | src-tauri/src/downloader.rs:279-294 | a failed removal or creation is returned as that error; otherwise the call returns `Ok(false)` and `version.txt` holds exactly the marker, or is empty after a write error, which is only logged |
| `Driver.DownloadUpdates` | src-tauri/src/downloader.rs:163-317 | `Ok(true)` iff the list is empty and the full install succeeded; a run that installs every update returns `Ok(false)` with the last update's marker in `version.txt` unless removing or creating the file fails, in which case that error is returned; updates are installed as a prefix of the list; `version.txt` is written only once every update is in |
| `Driver.DownloadUpdatesInOrder` | src-tauri/src/downloader.rs:232-317 | on a non-empty list each installed update had a path and a link and was fetched and unpacked, in order; each attempted update got exactly its own loop's calls; when some update is not installed, `version.txt` is untouched and the call ends with the first failing step of the first such update: a panic for a path without '/', the link error, `Ok(false)` after three failed downloads, or the unpacking error |

## Left out

- HTTP is left out: the metadata request, the `HEAD` request, the transfer and the Dropbox temporary-link call. Their results are inputs (`fetched`, `Attempt`, `Artifact.link`).
- `dotenv` and the `UPDATES_URL` and `DROPBOX_TOKEN` lookups are left out. The `expect` panics on a missing variable are also not modelled: they are configuration, not logic.
- The file system and the `zip` crate are left out. Opening, reading, creating and removing files, reading the archive and extracting it are all inputs (`Attempt`, `Unpack`, `VersionFileIo`). A failure to read `version.txt` once it exists (`expect`) is not modelled.
- Tauri dialogs and `emit` are left out. The confirmation dialog is a boolean input, and a missing window counts as "no".
- The events `download_updates` emits itself are not modelled. These are the update name, "Extracting to", and "All updates downloaded". The events of `download_file` are.
- `format_speed`, the percentage and the speed are not modelled. They are floating-point formatting.
- `Sizes.FormatSize`: the KB, MB and GB branches return the unit and the exact byte count instead of the two-decimal floating-point text.
- `Download.AsU64`: takes the reported length as an integer. The truncation of a fractional `f64` and a NaN length are not modelled.
- `Download.ProgressEvents`: `start_size + now as u64` is taken as an unbounded sum. The `u64` overflow is not modelled, because the sum would only wrap after about 2^64 bytes.
- `Download.DownloadFile`: `output.parent().unwrap()` is not modelled. It panics only for a path without a parent, and the callers always pass `Download/...`.
- `Download.DownloadFile`: opening the file and reading its length are one input, `openError`.
- `Download.DownloadFile`: a failed `write_all` in the write callback returns `WriteError::Pause`, which pauses the curl transfer instead of failing it (src-tauri/src/downloader.rs:98-101). The progress callback always returns `true` (line 92), so nothing resumes it, and the call may never return. The model has no outcome for a call that never returns: `Attempt.perform` and `Attempt.written` stand for a transfer that ends. The `?` on the second curl handle's setup calls (lines 57-63, 70 and 98) is also folded into `perform`.
- `Download.DownloadEvents`: the events are emitted only when the global app handle is set (src-tauri/src/downloader.rs:77 and 109). The model assumes it is set, which `src-tauri/src/lib.rs` does at `RunEvent::Ready`, once the application is ready.
- `Driver.WriteVersionFile`: a failed write is taken to leave the file empty. A partial write is not modelled.
- `Updates.CheckUpdates`: its own contract covers every branch except the update branch. That branch's list is stated by `Updates.CheckUpdatesList` and `Updates.PendingReturnsList`.
- The `version_compare` crate's parser is a parameter, so no particular version syntax is assumed. Its `Cmp::Ne`, `Le` and `Ge` answers never come out of `compare`, so the `unreachable!()` arms are not modelled.
- `Text.RemoveAll`: its own contract only bounds the length. What the removal deletes and keeps is stated by `Text.RemoveChar`, `Text.RemoveKeeps`, `Text.RemoveAbsent`, `Text.RemoveAppend` and `Text.RemoveTrailing`.
- `Text.RemoveAll`: an empty pattern is excluded. The program only removes "v", ".zip" and "/updates/".
- `src-tauri/src/lib.rs` is not part of this model: it holds the command wiring and the event loop. `src/App.tsx` is the React UI and is not part of this model either.

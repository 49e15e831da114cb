/** `download_updates` (src-tauri/src/downloader.rs): installs either the full
    archive (empty update list) or each listed update in turn, making at most
    three calls of `download_file` per archive (up to two retries), then
    records the installed version. Link generation, the confirmation dialog,
    archive reading and extraction, and the version file are inputs. */
module Driver {
  import opened Wrappers
  import Text
  import Download

  const MaxRetries: nat := 3
  /** The Dropbox path of the full archive and where it is downloaded to. */
  const FullArchive := "/ConvergenceER.zip"
  const FullDownloadPath := "Download/Convergence.zip"
  /** The version marker held before any update is processed. */
  const InitialMarker := "v0.0.0"

  /** Where an update archive is downloaded to. */
  function DownloadPath(update: string): string {
    "Download/" + update
  }

  /** The version recorded after installing `update`: the path with every
      `/updates/` and then every `.zip` removed. */
  function VersionMarker(update: string): (r: string)
    ensures |r| <= |update|
    ensures !Text.Occurs(update, "/updates/") && !Text.Occurs(update, ".zip") ==> r == update
  {
    var stripped := Text.RemoveAll(update, "/updates/");
    Text.RemoveAbsent(update, "/updates/");
    Text.RemoveAbsent(stripped, ".zip");
    Text.RemoveAll(stripped, ".zip")
  }

  /** For an update published as `/updates/<name>.zip`, the recorded version is `<name>`. */
  lemma MarkerOfUpdatePath(name: string)
    requires !Text.Occurs(name, "/updates/") && !Text.Occurs(name, ".zip")
    ensures VersionMarker("/updates/" + name + ".zip") == name
  {
    var u := "/updates/" + name + ".zip";
    var pat := "/updates/";
    assert u == pat + (name + ".zip");
    assert Text.MatchAt(u, pat, 0) by { assert u[0..|pat|] == pat; }
    assert u[|pat|..] == name + ".zip";
    assert Text.RemoveAll(u, pat) == Text.RemoveAll(name + ".zip", pat);
    Text.NoStraddleByFirst(name, ".zip", pat);
    Text.RemoveAppend(name, ".zip", pat);
    Text.RemoveAbsent(name, pat);
    assert Text.RemoveAll(".zip", pat) == ".zip" by {
      assert forall i: nat :: !Text.MatchAt(".zip", pat, i);
      Text.RemoveAbsent(".zip", pat);
    }
    Text.RemoveTrailing(name, ".zip");
  }

  /** How one download with retries ends: after `tries` calls of
      `download_file`, with the output file `fileLen` bytes long. */
  datatype Fetch = Fetched(tries: nat, fileLen: nat) | GaveUp(tries: nat, fileLen: nat)

  /** The output file length before call `k`: each call resumes from what the
      previous one left behind. */
  function LengthBefore(path: string, existing: nat, attempts: seq<Download.Attempt>, k: nat): (n: nat)
    requires k <= |attempts|
    ensures existing <= n
    decreases k
  {
    if k == 0 then existing
    else LengthBefore(path, Download.DownloadFile(path, existing, attempts[0]).fileLen, attempts[1..], k - 1)
  }

  /** The length before call `k > 0` is the length call `k - 1` left behind,
      starting from the length before that call. */
  lemma {:induction false} LengthBeforeStep(path: string, existing: nat, attempts: seq<Download.Attempt>, k: nat)
    requires 0 < k <= |attempts|
    ensures LengthBefore(path, existing, attempts, k)
         == Download.DownloadFile(path, LengthBefore(path, existing, attempts, k - 1), attempts[k - 1]).fileLen
    decreases k
  {
    if k > 1 {
      var next := Download.DownloadFile(path, existing, attempts[0]).fileLen;
      LengthBeforeStep(path, next, attempts[1..], k - 1);
      assert attempts[1..][k - 2] == attempts[k - 1];
    }
  }

  /** The result of call `k` of `download_file` in a sequence of retries. */
  function AttemptResult(path: string, existing: nat, attempts: seq<Download.Attempt>, k: nat): Outcome<Download.DownloadError>
    requires k < |attempts|
  {
    Download.DownloadFile(path, LengthBefore(path, existing, attempts, k), attempts[k]).result
  }

  /** The retry loop from the point where `retries` calls have failed. */
  function RetryFrom(path: string, existing: nat, attempts: seq<Download.Attempt>, retries: nat): (r: Fetch)
    requires retries < MaxRetries && |attempts| == MaxRetries - retries
    ensures retries < r.tries <= MaxRetries
    ensures r.GaveUp? ==> r.tries == MaxRetries
    decreases |attempts|
  {
    var d := Download.DownloadFile(path, existing, attempts[0]);
    if d.result.Pass? then Fetched(retries + 1, d.fileLen)
    else if retries + 1 >= MaxRetries then GaveUp(retries + 1, d.fileLen)
    else RetryFrom(path, d.fileLen, attempts[1..], retries + 1)
  }

  /** The retry loop makes calls until the first success: every call before
      the last failed, and it fetched the archive exactly when the last call
      succeeded. */
  lemma {:induction false} RetryFromStopsAtFirstSuccess(path: string, existing: nat, attempts: seq<Download.Attempt>, retries: nat)
    requires retries < MaxRetries && |attempts| == MaxRetries - retries
    ensures var r := RetryFrom(path, existing, attempts, retries);
      && (forall k | 0 <= k < r.tries - retries - 1 :: AttemptResult(path, existing, attempts, k).Fail?)
      && (r.Fetched? <==> AttemptResult(path, existing, attempts, r.tries - retries - 1).Pass?)
    decreases |attempts|
  {
    var d := Download.DownloadFile(path, existing, attempts[0]);
    assert AttemptResult(path, existing, attempts, 0) == d.result;
    if d.result.Fail? && retries + 1 < MaxRetries {
      RetryFromStopsAtFirstSuccess(path, d.fileLen, attempts[1..], retries + 1);
      forall k | 0 < k < |attempts|
        ensures AttemptResult(path, existing, attempts, k) == AttemptResult(path, d.fileLen, attempts[1..], k - 1)
      {
        AttemptResultShift(path, existing, attempts, k);
      }
    }
  }

  /** Call `k` of a sequence of retries is call `k - 1` of the sequence that
      starts after the first call, from the file the first call left. */
  lemma AttemptResultShift(path: string, existing: nat, attempts: seq<Download.Attempt>, k: nat)
    requires 0 < k < |attempts|
    ensures AttemptResult(path, existing, attempts, k)
         == AttemptResult(path, Download.DownloadFile(path, existing, attempts[0]).fileLen, attempts[1..], k - 1)
  {
  }

  /** The `loop` around `download_file`: at most three calls. */
  function DownloadWithRetries(path: string, existing: nat, attempts: seq<Download.Attempt>): (r: Fetch)
    requires |attempts| == MaxRetries
    ensures 1 <= r.tries <= MaxRetries
    ensures r.GaveUp? ==> r.tries == MaxRetries
  {
    RetryFrom(path, existing, attempts, 0)
  }

  /** The loop stops at the first successful call and gives up only after the
      third consecutive failure. */
  lemma DownloadWithRetriesStops(path: string, existing: nat, attempts: seq<Download.Attempt>)
    requires |attempts| == MaxRetries
    ensures var r := DownloadWithRetries(path, existing, attempts);
      && (forall k | 0 <= k < r.tries - 1 :: AttemptResult(path, existing, attempts, k).Fail?)
      && (r.Fetched? <==> AttemptResult(path, existing, attempts, r.tries - 1).Pass?)
      && (r.GaveUp? <==> forall k | 0 <= k < MaxRetries :: AttemptResult(path, existing, attempts, k).Fail?)
  {
    RetryFromStopsAtFirstSuccess(path, existing, attempts, 0);
  }

  /** Opening the downloaded file, reading it as a zip archive, extracting it. */
  datatype Unpack = Unpack(openError: Option<string>, archiveError: Option<string>, extractError: Option<string>)

  /** The first failing step of unpacking, if any. */
  function UnpackError(u: Unpack): Option<string> {
    if u.openError.Some? then u.openError
    else if u.archiveError.Some? then u.archiveError
    else u.extractError
  }

  /** The outcomes concerning one archive: its temporary link, the length of
      its output file before the first call, one `download_file` outcome per
      possible call, and unpacking. */
  datatype Artifact = Artifact(link: Result<string, string>, existing: nat, attempts: seq<Download.Attempt>, unpack: Unpack)

  /** How `download_updates` ends. */
  datatype Ret =
    | Returned(value: bool)      // `Ok(value)`
    | Failed(reason: string)     // `Err(..)`
    | Panicked(reason: string)   // a failed `unwrap()`

  /** The `version.txt` in the installation directory after the call. */
  datatype VersionFile = Untouched | Removed | Written(content: string)

  /** The file-system outcomes of rewriting `version.txt`. */
  datatype VersionFileIo = VersionFileIo(existed: bool, removeError: Option<string>, createError: Option<string>, writeError: Option<string>)

  /** What a call returns and leaves behind: the archives extracted, in order;
      the number of `download_file` calls made for each archive attempted;
      and the version file. */
  datatype Run = Run(ret: Ret, installed: seq<string>, tries: seq<nat>, versionFile: VersionFile)

  /** The empty-list branch: offer the full archive and install it. */
  function FullInstall(answer: bool, full: Artifact): (r: Run)
    requires |full.attempts| == MaxRetries
    ensures r.versionFile == Untouched
    ensures r.ret == Returned(true) <==>
      && answer && full.link.Ok?
      && DownloadWithRetries(FullDownloadPath, full.existing, full.attempts).Fetched?
      && UnpackError(full.unpack).None?
    ensures r.ret == Returned(true) ==> r.installed == [FullArchive]
    ensures r.ret != Returned(true) ==> r.installed == []
    ensures |r.tries| <= 1 && forall t | t in r.tries :: 1 <= t <= MaxRetries
    ensures r.ret == Returned(false) && r.tries != [] ==> DownloadWithRetries(FullDownloadPath, full.existing, full.attempts).GaveUp?
    ensures r.ret.Failed? && r.tries != [] ==>
      && DownloadWithRetries(FullDownloadPath, full.existing, full.attempts).Fetched?
      && UnpackError(full.unpack) == Some(r.ret.reason)
    ensures !answer ==> r.ret == Returned(false) && r.tries == []
    ensures answer && full.link.Err? ==> r.ret == Failed(full.link.error) && r.tries == []
    ensures answer && full.link.Ok? ==>
      var f := DownloadWithRetries(FullDownloadPath, full.existing, full.attempts);
      && r.tries == [f.tries]
      && (f.GaveUp? ==> r.ret == Returned(false))
      && (f.Fetched? && UnpackError(full.unpack).Some? ==> r.ret == Failed(UnpackError(full.unpack).value))
  {
    if !answer then Run(Returned(false), [], [], Untouched)
    else match full.link
      case Err(e) => Run(Failed(e), [], [], Untouched)
      case Ok(_) =>
        var f := DownloadWithRetries(FullDownloadPath, full.existing, full.attempts);
        if f.GaveUp? then Run(Returned(false), [], [f.tries], Untouched)
        else match UnpackError(full.unpack)
          case Some(e) => Run(Failed(e), [], [f.tries], Untouched)
          case None => Run(Returned(true), [FullArchive], [f.tries], Untouched)
  }

  /** Progress through the update list: the updates extracted, the calls made
      per archive attempted, where processing stopped (`None` when it ran
      through), and the version marker reached. */
  datatype Applied = Applied(installed: seq<string>, tries: seq<nat>, stop: Option<Ret>, marker: string)

  /** The `for update in updates` loop. */
  function ApplyUpdates(updates: seq<string>, arts: seq<Artifact>, marker: string): (r: Applied)
    requires |arts| == |updates| && forall i | 0 <= i < |arts| :: |arts[i].attempts| == MaxRetries
    ensures |r.installed| <= |updates| && r.installed == updates[..|r.installed|]
    ensures r.stop.None? <==> r.installed == updates
    ensures r.stop.None? ==> r.marker == (if updates == [] then marker else VersionMarker(updates[|updates| - 1]))
    ensures r.stop != Some(Returned(true))
    ensures |r.tries| == |r.installed| || (r.stop.Some? && |r.tries| == |r.installed| + 1)
    decreases |updates|
  {
    if updates == [] then Applied([], [], None, marker)
    else
      var u, art := updates[0], arts[0];
      if Text.RsplitOnce(u, '/').None? then Applied([], [], Some(Panicked(UnwrapNone)), marker)
      else match art.link
        case Err(e) => Applied([], [], Some(Failed(e)), marker)
        case Ok(_) =>
          var f := FetchUpdate(updates, arts, 0);
          if f.GaveUp? then Applied([], [f.tries], Some(Returned(false)), marker)
          else match UnpackError(art.unpack)
            case Some(e) => Applied([], [f.tries], Some(Failed(e)), marker)
            case None =>
              var rest := ApplyUpdates(updates[1..], arts[1..], VersionMarker(u));
              assert updates == [u] + updates[1..];
              Applied([u] + rest.installed, [f.tries] + rest.tries, rest.stop, rest.marker)
  }

  /** The archive of the update at index `i`, fetched with retries. */
  function FetchUpdate(updates: seq<string>, arts: seq<Artifact>, i: nat): Fetch
    requires i < |arts| == |updates| && |arts[i].attempts| == MaxRetries
  {
    DownloadWithRetries(DownloadPath(updates[i]), arts[i].existing, arts[i].attempts)
  }

  /** Every archive attempted got between one and three `download_file` calls. */
  lemma {:induction false} ApplyUpdatesTries(updates: seq<string>, arts: seq<Artifact>, marker: string)
    requires |arts| == |updates| && forall i | 0 <= i < |arts| :: |arts[i].attempts| == MaxRetries
    ensures var r := ApplyUpdates(updates, arts, marker);
      forall i | 0 <= i < |r.tries| :: r.tries[i] == FetchUpdate(updates, arts, i).tries
    ensures var r := ApplyUpdates(updates, arts, marker);
      forall i | 0 <= i < |r.tries| :: 1 <= r.tries[i] <= MaxRetries
    decreases |updates|
  {
    var r := ApplyUpdates(updates, arts, marker);
    if r.tries != [] {
      var next := VersionMarker(updates[0]);
      var rest := ApplyUpdates(updates[1..], arts[1..], next);
      var f := FetchUpdate(updates, arts, 0);
      if |r.tries| > 1 {
        ApplyUpdatesTries(updates[1..], arts[1..], next);
        assert r.tries == [f.tries] + rest.tries;
      } else {
        assert r.tries == [f.tries];
      }
      forall i | 0 <= i < |r.tries|
        ensures r.tries[i] == FetchUpdate(updates, arts, i).tries
      {
        if i > 0 {
          FetchUpdateShift(updates, arts, i);
        }
      }
    }
  }

  /** The update at index `i > 0` is the update at `i - 1` of the rest of the list. */
  lemma FetchUpdateShift(updates: seq<string>, arts: seq<Artifact>, i: nat)
    requires 0 < i < |arts| == |updates| && |arts[i].attempts| == MaxRetries
    ensures FetchUpdate(updates[1..], arts[1..], i - 1) == FetchUpdate(updates, arts, i)
  {
  }

  /** Every update counted as installed had a '/' in its path and a link, and
      was downloaded and unpacked. */
  lemma {:induction false} ApplyUpdatesInstalled(updates: seq<string>, arts: seq<Artifact>, marker: string)
    requires |arts| == |updates| && forall i | 0 <= i < |arts| :: |arts[i].attempts| == MaxRetries
    ensures var r := ApplyUpdates(updates, arts, marker);
      forall i | 0 <= i < |r.installed| ::
        && Text.RsplitOnce(updates[i], '/').Some? && arts[i].link.Ok?
        && FetchUpdate(updates, arts, i).Fetched? && UnpackError(arts[i].unpack).None?
    decreases |updates|
  {
    if updates != [] {
      var r := ApplyUpdates(updates, arts, marker);
      var next := VersionMarker(updates[0]);
      ApplyUpdatesInstalled(updates[1..], arts[1..], next);
      var rest := ApplyUpdates(updates[1..], arts[1..], next);
      forall i | 0 <= i < |r.installed|
        ensures && Text.RsplitOnce(updates[i], '/').Some? && arts[i].link.Ok?
                && FetchUpdate(updates, arts, i).Fetched? && UnpackError(arts[i].unpack).None?
      {
        if i > 0 {
          assert i - 1 < |rest.installed|;
          FetchUpdateShift(updates, arts, i);
          assert arts[1..][i - 1] == arts[i] && updates[1..][i - 1] == updates[i];
        }
      }
    }
  }

  /** Processing stops at the first update that is not installed, with the
      outcome of its first failing step: a path without '/' panics, a link
      failure is returned as an error, three failed downloads return
      `Ok(false)`, and an unpacking failure is returned as an error. Only the
      last two make `download_file` calls. */
  lemma {:induction false} ApplyUpdatesStop(updates: seq<string>, arts: seq<Artifact>, marker: string)
    requires |arts| == |updates| && forall i | 0 <= i < |arts| :: |arts[i].attempts| == MaxRetries
    ensures var r := ApplyUpdates(updates, arts, marker);
      var i := |r.installed|;
      i < |updates| ==>
        if Text.RsplitOnce(updates[i], '/').None? then
          r.stop == Some(Panicked(UnwrapNone)) && |r.tries| == i
        else if arts[i].link.Err? then
          r.stop == Some(Failed(arts[i].link.error)) && |r.tries| == i
        else if FetchUpdate(updates, arts, i).GaveUp? then
          r.stop == Some(Returned(false)) && |r.tries| == i + 1
        else
          && UnpackError(arts[i].unpack).Some?
          && r.stop == Some(Failed(UnpackError(arts[i].unpack).value)) && |r.tries| == i + 1
    decreases |updates|
  {
    var r := ApplyUpdates(updates, arts, marker);
    if updates != [] && |r.installed| > 0 {
      var next := VersionMarker(updates[0]);
      ApplyUpdatesStop(updates[1..], arts[1..], next);
      var rest := ApplyUpdates(updates[1..], arts[1..], next);
      var i := |r.installed|;
      assert i == |rest.installed| + 1 && |r.tries| == |rest.tries| + 1 && r.stop == rest.stop;
      if i < |updates| {
        FetchUpdateShift(updates, arts, i);
        assert arts[1..][i - 1] == arts[i] && updates[1..][i - 1] == updates[i];
      }
    }
  }

  /** The loop stops with `Ok(false)` exactly when the first update not
      installed has a '/' in its path and a link and all three of its downloads fail. */
  lemma ApplyUpdatesGaveUp(updates: seq<string>, arts: seq<Artifact>, marker: string)
    requires |arts| == |updates| && forall i | 0 <= i < |arts| :: |arts[i].attempts| == MaxRetries
    ensures var r := ApplyUpdates(updates, arts, marker);
      var i := |r.installed|;
      r.stop == Some(Returned(false)) <==>
        && i < |updates|
        && Text.RsplitOnce(updates[i], '/').Some? && arts[i].link.Ok?
        && FetchUpdate(updates, arts, i).GaveUp?
  {
    ApplyUpdatesStop(updates, arts, marker);
  }

  /** The loop stops with an error after downloading an archive exactly when
      the first update not installed was fetched but could not be unpacked;
      the error is that failure, and no further download is made. */
  lemma ApplyUpdatesUnpackFailed(updates: seq<string>, arts: seq<Artifact>, marker: string)
    requires |arts| == |updates| && forall i | 0 <= i < |arts| :: |arts[i].attempts| == MaxRetries
    ensures var r := ApplyUpdates(updates, arts, marker);
      var i := |r.installed|;
      (r.stop.Some? && r.stop.value.Failed? && |r.tries| > i) <==>
        && i < |updates|
        && Text.RsplitOnce(updates[i], '/').Some? && arts[i].link.Ok?
        && FetchUpdate(updates, arts, i).Fetched? && UnpackError(arts[i].unpack).Some?
    ensures var r := ApplyUpdates(updates, arts, marker);
      var i := |r.installed|;
      r.stop.Some? && r.stop.value.Failed? && |r.tries| > i ==>
        r.stop.value.reason == UnpackError(arts[i].unpack).value && |r.tries| == i + 1
  {
    ApplyUpdatesStop(updates, arts, marker);
  }

  /** Replacing `version.txt` with the marker after every update is in. */
  function WriteVersionFile(io: VersionFileIo, marker: string): (r: (Ret, VersionFile))
    ensures r.0.Returned? ==> r.0 == Returned(false) && r.1.Written?
    ensures io.removeError.None? && io.createError.None? && io.writeError.None? ==> r == (Returned(false), Written(marker))
    ensures r.1.Written? ==> r.1.content == marker || (io.writeError.Some? && r.1.content == [])
    ensures io.existed && io.removeError.Some? ==> r == (Failed(io.removeError.value), Untouched)
    ensures (!io.existed || io.removeError.None?) && io.createError.Some? ==>
      r == (Failed(io.createError.value), if io.existed then Removed else Untouched)
    ensures (!io.existed || io.removeError.None?) && io.createError.None? ==>
      r == (Returned(false), Written(if io.writeError.Some? then [] else marker))
  {
    if io.existed && io.removeError.Some? then (Failed(io.removeError.value), Untouched)
    else
      var before := if io.existed then Removed else Untouched;
      if io.createError.Some? then (Failed(io.createError.value), before)
      // A failed write is only logged: the file stays, empty.
      else if io.writeError.Some? then (Returned(false), Written([]))
      else (Returned(false), Written(marker))
  }

  /** `download_updates(updates, extract_path)`. `answer` is the reply to the
      full-download dialog (false when there is no window), `full` the
      outcomes for the full archive, `arts` those for each update. */
  function DownloadUpdates(updates: seq<string>, answer: bool, full: Artifact, arts: seq<Artifact>, io: VersionFileIo): (r: Run)
    requires |full.attempts| == MaxRetries
    requires |arts| == |updates| && forall i | 0 <= i < |arts| :: |arts[i].attempts| == MaxRetries
    ensures r.ret == Returned(true) <==>
      && updates == [] && answer && full.link.Ok?
      && DownloadWithRetries(FullDownloadPath, full.existing, full.attempts).Fetched?
      && UnpackError(full.unpack).None?
    ensures updates != [] ==> |r.installed| <= |updates| && r.installed == updates[..|r.installed|]
    ensures forall i | 0 <= i < |r.tries| :: 1 <= r.tries[i] <= MaxRetries
    ensures r.versionFile.Written? ==> updates != [] && r.installed == updates
    ensures updates != [] && r.installed == updates && (!io.existed || io.removeError.None?) && io.createError.None? ==>
      && r.ret == Returned(false)
      && r.versionFile == Written(if io.writeError.Some? then [] else VersionMarker(updates[|updates| - 1]))
    ensures updates != [] && r.installed == updates && io.existed && io.removeError.Some? ==>
      r.ret == Failed(io.removeError.value) && r.versionFile == Untouched
    ensures updates != [] && r.installed == updates && (!io.existed || io.removeError.None?) && io.createError.Some? ==>
      r.ret == Failed(io.createError.value)
  {
    if updates == [] then FullInstall(answer, full)
    else
      var a := ApplyUpdates(updates, arts, InitialMarker);
      ApplyUpdatesTries(updates, arts, InitialMarker);
      if a.stop.Some? then Run(a.stop.value, a.installed, a.tries, Untouched)
      else
        var (ret, file) := WriteVersionFile(io, a.marker);
        Run(ret, a.installed, a.tries, file)
  }

  /** On a non-empty list: the updates are installed in list order, each
      after its own successful download and unpacking; the number of
      `download_file` calls for each is exactly what its retry loop made; and
      when not every update is installed, `version.txt` is untouched and the
      call ends with the first failing step of the first update not installed:
      a panic for a path without '/', the link error, `Ok(false)` after three
      failed downloads, or the unpacking error, with no further download. */
  lemma DownloadUpdatesInOrder(updates: seq<string>, answer: bool, full: Artifact, arts: seq<Artifact>, io: VersionFileIo)
    requires |full.attempts| == MaxRetries
    requires |arts| == |updates| && forall i | 0 <= i < |arts| :: |arts[i].attempts| == MaxRetries
    requires updates != []
    ensures var r := DownloadUpdates(updates, answer, full, arts, io);
      && (forall i | 0 <= i < |r.installed| ::
            && Text.RsplitOnce(updates[i], '/').Some? && arts[i].link.Ok?
            && FetchUpdate(updates, arts, i).Fetched? && UnpackError(arts[i].unpack).None?)
      && (forall i | 0 <= i < |r.tries| :: r.tries[i] == FetchUpdate(updates, arts, i).tries)
      && (r.installed != updates ==> r.versionFile == Untouched && |r.installed| < |updates|)
    ensures var r := DownloadUpdates(updates, answer, full, arts, io);
      var i := |r.installed|;
      i < |updates| ==>
        if Text.RsplitOnce(updates[i], '/').None? then
          r.ret == Panicked(UnwrapNone) && |r.tries| == i
        else if arts[i].link.Err? then
          r.ret == Failed(arts[i].link.error) && |r.tries| == i
        else if FetchUpdate(updates, arts, i).GaveUp? then
          r.ret == Returned(false) && |r.tries| == i + 1
        else
          && UnpackError(arts[i].unpack).Some?
          && r.ret == Failed(UnpackError(arts[i].unpack).value) && |r.tries| == i + 1
  {
    ApplyUpdatesInstalled(updates, arts, InitialMarker);
    ApplyUpdatesTries(updates, arts, InitialMarker);
    ApplyUpdatesStop(updates, arts, InitialMarker);
  }
}

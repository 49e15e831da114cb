/** `download_file` (src-tauri/src/downloader.rs): one resumable transfer of
    an archive to a local file. Every curl and file-system outcome is an input;
    the model keeps the decisions the function makes from them and the byte
    counts it reports. */
module Download {
  import opened Wrappers
  import Text
  import Sizes

  /** Rust's `as u64` on the `f64` that curl returns for the content length:
      negative values become 0 and values above the range saturate. Curl
      reports -1 when the server sends no length. */
  function AsU64(x: int): (r: Sizes.U64)
    ensures x <= 0 ==> r == 0
    ensures 0 <= x <= Sizes.MaxU64 ==> r == x
    ensures x >= Sizes.MaxU64 ==> r == Sizes.MaxU64
  {
    if x < 0 then 0 else if x > Sizes.MaxU64 then Sizes.MaxU64 else x
  }

  /** One call of the progress callback: curl's `dltotal` and `dlnow`, which
      count only the bytes of this transfer. */
  datatype CurlProgress = CurlProgress(total: int, now: nat)

  /** The curl and file-system outcomes of one call. */
  datatype Attempt = Attempt(
    dirError: Option<string>,     // `fs::create_dir_all` of the parent directory
    head: Result<int, string>,    // the body-less request: reported content length, or its failure
    openError: Option<string>,    // opening the output file for appending, or reading its length
    callbacks: seq<CurlProgress>, // progress callback invocations during the transfer
    written: nat,                 // bytes the transfer appended to the file
    perform: Outcome<string>,     // `transfer.perform()`
    finalError: Option<string>)   // reading the file length after the transfer

  /** A `download_progress` event before formatting: `total` and `current`
      are byte counts (shown through `format_size`); the float percentage and
      speed are not modelled. A transfer event names the file being written. */
  datatype Event =
    | Transferring(path: string, total: nat, current: nat)
    | Finished(total: nat, current: nat)
  {
    /** The `name` field of the event. */
    function Name(): string {
      if Transferring? then DisplayName(path) else Completed
    }
  }

  datatype DownloadError =
    | DirFailed(reason: string)
    | HeadFailed(reason: string)
    | UnknownSize                 // "Could not determine file size"
    | OpenFailed(reason: string)
    | TransferFailed(reason: string)
    | Incomplete                  // "Download incomplete"

  /** A transfer that was started: the size the server reported, the offset
      it resumed from, and the progress callbacks it made. */
  datatype Transfer = Transfer(total: nat, resumedFrom: nat, callbacks: seq<CurlProgress>)

  /** What a call returns and leaves behind: the result, the output file's
      length afterwards, and the transfer, if one was started. */
  datatype Download = Download(result: Outcome<DownloadError>, fileLen: nat, transfer: Option<Transfer>) {
    /** The `download_progress` events emitted while downloading `path`: one
        per reporting callback, then the completion event on success. */
    function Events(path: string): seq<Event> {
      match transfer
      case None => []
      case Some(t) =>
        ProgressEvents(path, t.total, t.resumedFrom, t.callbacks)
          + (if result.Pass? then [Finished(t.total, fileLen)] else [])
    }
  }

  const Completed := "Download completed successfully"

  /** The name shown in progress events: the text after the last `/`, with
      every `.zip` removed. */
  function DisplayName(path: string): (r: string)
    ensures '/' !in r && |r| <= |path|
    ensures !Text.Occurs(Text.FileName(path), ".zip") ==> r == Text.FileName(path)
  {
    var name := Text.FileName(path);
    Text.RemoveKeeps(name, ".zip");
    Text.RemoveAbsent(name, ".zip");
    Text.RemoveAll(name, ".zip")
  }

  /** The display name of `dir/stem.zip` is `stem`. */
  lemma DisplayNameOfArchive(dir: string, stem: string)
    requires '/' !in stem && !Text.Occurs(stem, ".zip")
    ensures DisplayName(dir + "/" + stem + ".zip") == stem
  {
    assert dir + "/" + stem + ".zip" == dir + "/" + (stem + ".zip");
    assert '/' !in ".zip";
    Text.FileNameOfPath(dir, stem + ".zip");
    Text.RemoveTrailing(stem, ".zip");
  }

  /** The callback calls that emit an event: those reporting a positive total. */
  function Reporting(cbs: seq<CurlProgress>): (r: seq<CurlProgress>)
    ensures |r| <= |cbs|
    ensures forall i | 0 <= i < |r| :: r[i].total > 0
    decreases |cbs|
  {
    if cbs == [] then []
    else
      var rest := Reporting(cbs[1..]);
      if cbs[0].total > 0 then [cbs[0]] + rest else rest
  }

  /** The reporting calls are exactly the calls of `cbs` with a positive total. */
  lemma {:induction false} ReportingMembers(cbs: seq<CurlProgress>)
    ensures forall c :: c in Reporting(cbs) <==> c in cbs && c.total > 0
    decreases |cbs|
  {
    if cbs != [] {
      ReportingMembers(cbs[1..]);
      assert cbs == [cbs[0]] + cbs[1..];
    }
  }

  /** A single call is kept, once, exactly when it reports a positive total. */
  lemma ReportingOne(c: CurlProgress)
    ensures Reporting([c]) == if c.total > 0 then [c] else []
  {
    assert [c][1..] == [];
  }

  /** Filtering is per call: the reporting calls of `a + b` are those of `a`
      followed by those of `b`. With `ReportingOne` this fixes how often and
      in what order every call is kept. */
  lemma {:induction false} ReportingAppend(a: seq<CurlProgress>, b: seq<CurlProgress>)
    ensures Reporting(a + b) == Reporting(a) + Reporting(b)
    decreases |a|
  {
    if a == [] {
      assert a + b == b;
    } else {
      var ab := a + b;
      assert ab[0] == a[0] && ab[1..] == a[1..] + b;
      ReportingAppend(a[1..], b);
      if a[0].total > 0 {
        calc {
          Reporting(ab);
          [a[0]] + Reporting(a[1..] + b);
          [a[0]] + (Reporting(a[1..]) + Reporting(b));
          ([a[0]] + Reporting(a[1..])) + Reporting(b);
        }
      }
    }
  }

  /** The events the progress callback emits: one per reporting call, each
      carrying the resume offset plus the bytes of this transfer. */
  function ProgressEvents(path: string, total: nat, start: nat, cbs: seq<CurlProgress>): (es: seq<Event>)
    ensures |es| == |Reporting(cbs)|
    ensures forall i | 0 <= i < |es| :: es[i] == Transferring(path, total, start + Reporting(cbs)[i].now)
    decreases |cbs|
  {
    if cbs == [] then []
    else
      var rest := ProgressEvents(path, total, start, cbs[1..]);
      var rep, rt := Reporting(cbs), Reporting(cbs[1..]);
      if cbs[0].total > 0 then
        assert rep == [cbs[0]] + rt;
        var es := [Transferring(path, total, start + cbs[0].now)] + rest;
        assert forall i | 0 < i < |es| :: es[i] == rest[i - 1] && rep[i] == rt[i - 1];
        es
      else
        assert rep == rt;
        rest
  }

  /** Curl's byte count never goes back within `cbs`. */
  predicate NowNondecreasing(cbs: seq<CurlProgress>) {
    forall i, j | 0 <= i < j < |cbs| :: cbs[i].now <= cbs[j].now
  }

  /** A lower bound on curl's byte count carries over to the reporting calls. */
  lemma {:induction false} ReportingAtLeast(cbs: seq<CurlProgress>, least: nat)
    requires forall i | 0 <= i < |cbs| :: least <= cbs[i].now
    ensures forall i | 0 <= i < |Reporting(cbs)| :: least <= Reporting(cbs)[i].now
    decreases |cbs|
  {
    if cbs != [] {
      var tail := cbs[1..];
      assert forall i | 0 <= i < |tail| :: tail[i] == cbs[i + 1];
      ReportingAtLeast(tail, least);
      if cbs[0].total > 0 {
        var r, rt := Reporting(cbs), Reporting(tail);
        assert r == [cbs[0]] + rt;
        assert forall i | 0 < i < |r| :: r[i] == rt[i - 1];
      }
    }
  }

  /** Keeping only the reporting calls keeps the byte count non-decreasing. */
  lemma {:induction false} ReportingNondecreasing(cbs: seq<CurlProgress>)
    requires NowNondecreasing(cbs)
    ensures NowNondecreasing(Reporting(cbs))
    decreases |cbs|
  {
    if cbs != [] {
      var tail := cbs[1..];
      assert forall i | 0 <= i < |tail| :: tail[i] == cbs[i + 1];
      ReportingNondecreasing(tail);
      var rt := Reporting(tail);
      if cbs[0].total > 0 {
        ReportingAtLeast(tail, cbs[0].now);
        var r := Reporting(cbs);
        assert r == [cbs[0]] + rt;
        forall i, j | 0 <= i < j < |r| ensures r[i].now <= r[j].now {
          assert r[j] == rt[j - 1];
          if i > 0 { assert r[i] == rt[i - 1]; }
        }
      }
    }
  }

  /** When curl's byte count never goes back, neither does the reported
      progress, and it never falls below the resume offset. */
  lemma ProgressMonotone(path: string, total: nat, start: nat, cbs: seq<CurlProgress>)
    requires NowNondecreasing(cbs)
    ensures var es := ProgressEvents(path, total, start, cbs);
      forall i, j | 0 <= i < j < |es| :: start <= es[i].current <= es[j].current
  {
    ReportingNondecreasing(cbs);
  }

  /** `download_file(link, download_to)`, given the length of the output file
      before the call (`existing`, 0 when there is no file). */
  function DownloadFile(path: string, existing: nat, a: Attempt): (d: Download)
    ensures d.transfer.None? ==> d.fileLen == existing
    ensures d.result == Fail(UnknownSize) <==> a.dirError.None? && a.head.Ok? && AsU64(a.head.value) == 0
    ensures a.dirError.None? && a.head.Ok? && a.openError.None? && 0 < AsU64(a.head.value) <= existing ==>
      d.result.Pass? && d.transfer.None?
    ensures d.transfer.Some? ==>
      && a.dirError.None? && a.head.Ok? && a.openError.None?
      && d.transfer.value.total == AsU64(a.head.value)
      && d.transfer.value.resumedFrom == existing < d.transfer.value.total
      && d.transfer.value.callbacks == a.callbacks
      && d.fileLen == existing + a.written
    ensures d.transfer.Some? && a.perform.Pass? && a.finalError.None? ==>
      (d.result.Pass? <==> d.fileLen == d.transfer.value.total) &&
      (d.result.Fail? ==> d.result.error == Incomplete)
    ensures d.result.Pass? ==> a.head.Ok? && d.fileLen >= AsU64(a.head.value) > 0
    ensures d.transfer.Some? <==>
      a.dirError.None? && a.head.Ok? && a.openError.None? && existing < AsU64(a.head.value)
    ensures a.dirError.Some? ==> d.result == Fail(DirFailed(a.dirError.value))
    ensures a.dirError.None? && a.head.Err? ==> d.result == Fail(HeadFailed(a.head.error))
    ensures a.dirError.None? && a.head.Ok? && AsU64(a.head.value) > 0 && a.openError.Some? ==>
      d.result == Fail(OpenFailed(a.openError.value))
    ensures d.transfer.Some? && a.perform.Fail? ==> d.result == Fail(TransferFailed(a.perform.error))
    ensures d.transfer.Some? && a.perform.Pass? && a.finalError.Some? ==> d.result == Fail(OpenFailed(a.finalError.value))
  {
    if a.dirError.Some? then Download(Fail(DirFailed(a.dirError.value)), existing, None)
    else match a.head
      case Err(e) => Download(Fail(HeadFailed(e)), existing, None)
      case Ok(length) =>
        var total := AsU64(length);
        if total == 0 then Download(Fail(UnknownSize), existing, None)
        else if a.openError.Some? then Download(Fail(OpenFailed(a.openError.value)), existing, None)
        else if existing >= total then Download(Pass, existing, None)
        else
          var transfer := Some(Transfer(total, existing, a.callbacks));
          var fileLen := existing + a.written;
          if a.perform.Fail? then Download(Fail(TransferFailed(a.perform.error)), fileLen, transfer)
          else if a.finalError.Some? then Download(Fail(OpenFailed(a.finalError.value)), fileLen, transfer)
          else if fileLen == total then Download(Pass, fileLen, transfer)
          else Download(Fail(Incomplete), fileLen, transfer)
  }

  /** The events of a call: none unless a transfer started; then the resume
      offset plus curl's byte count for each reporting callback, and, only on
      success, a final completion event at the full size. */
  lemma DownloadEvents(path: string, existing: nat, a: Attempt)
    ensures var d := DownloadFile(path, existing, a);
      var es := d.Events(path);
      && (d.transfer.None? ==> es == [])
      && (d.transfer.Some? ==>
            var rep := Reporting(a.callbacks);
            var total := AsU64(a.head.value);
            && |es| == |rep| + (if d.result.Pass? then 1 else 0)
            && (forall i | 0 <= i < |rep| :: es[i] == Transferring(path, total, existing + rep[i].now))
            && (forall i | 0 <= i < |rep| :: es[i].Name() == DisplayName(path))
            && (d.result.Pass? ==> es[|rep|] == Finished(total, total) && es[|rep|].Name() == Completed))
  {
  }
}

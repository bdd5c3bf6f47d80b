/**
 * download_video: parse the playlist, fetch the key once, then download the
 * segments in order, appending each good one to the output and giving up as
 * soon as more than a tenth of all segments have failed.
 */
module Download {
  import opened Wrappers
  import opened HlsTypes
  import opened Manifest
  import opened Segment

  /** The way a download ends: normally, or with the error it raises. */
  datatype Outcome = Completed | Failed(error: Error)

  /** What a download leaves behind: its outcome, the bytes in the output file, every GET issued. */
  datatype Run = Run(outcome: Outcome, written: Bytes, trace: seq<Request>)

  /** One segment's result and the GETs made for it. */
  type SegmentRun = (Result<Bytes, Error>, seq<Request>)

  /**
   * One loop body: with encryption, download_and_decrypt_segment with the
   * playlist's IV and the segment's index; without, a single GET with the
   * session headers only.
   */
  function FetchSegment(url: string, index: nat, encryption: Option<EncryptionInfo>, key: Bytes, net: Network, decrypt: Decryptor): SegmentRun
  {
    match encryption
    case Some(info) => SegmentOutcome(url, key, info.iv, index, net, decrypt)
    case None =>
      match net.segment(url)(0)
      case None => (Failure(RequestFailed), [SegmentRequest(url, 0, None)])
      case Some(body) => (Success(body), [SegmentRequest(url, 0, None)])
  }

  /** The result every segment would have if the loop reached it. */
  function Results(segments: seq<string>, encryption: Option<EncryptionInfo>, key: Bytes, net: Network, decrypt: Decryptor): (rs: seq<SegmentRun>)
    ensures |rs| == |segments|
  {
    if segments == [] then []
    else
      var n := |segments| - 1;
      Results(segments[..n], encryption, key, net, decrypt) + [FetchSegment(segments[n], n, encryption, key, net, decrypt)]
  }

  /** How many of the first k segments succeeded. */
  function Successes(rs: seq<SegmentRun>, k: nat): (n: nat)
    requires k <= |rs|
    ensures n <= k
  {
    if k == 0 then 0 else Successes(rs, k - 1) + (if rs[k - 1].0.Success? then 1 else 0)
  }

  /** The bytes the first k segments add to the file: the good ones' data, in order. */
  function Written(rs: seq<SegmentRun>, k: nat): Bytes
    requires k <= |rs|
  {
    if k == 0 then [] else Written(rs, k - 1) + (if rs[k - 1].0.Success? then rs[k - 1].0.value else [])
  }

  /** The file only grows: what the first j segments wrote stays at the front of what the first k write. */
  lemma {:induction false} WrittenGrows(rs: seq<SegmentRun>, j: nat, k: nat)
    requires j <= k <= |rs|
    ensures |Written(rs, j)| <= |Written(rs, k)| && Written(rs, k)[..|Written(rs, j)|] == Written(rs, j)
    decreases k
  {
    if j < k {
      WrittenGrows(rs, j, k - 1);
      var w := Written(rs, k - 1);
      assert Written(rs, k)[..|w|] == w;
      assert Written(rs, k)[..|Written(rs, j)|] == w[..|Written(rs, j)|];
    }
  }

  /** The GETs made for the first k segments, in order. */
  function Requests(rs: seq<SegmentRun>, k: nat): seq<Request>
    requires k <= |rs|
  {
    if k == 0 then [] else Requests(rs, k - 1) + rs[k - 1].1
  }

  /** Segment k fails and, counting it, more than a tenth of all segments have failed. */
  predicate Aborts(rs: seq<SegmentRun>, k: nat)
    requires k < |rs|
  {
    rs[k].0.Failure? && 10 * (k + 1 - Successes(rs, k + 1)) > |rs|
  }

  /** The first segment at or after k whose failure ends the download. */
  function FirstAbortFrom(rs: seq<SegmentRun>, k: nat): (r: Option<nat>)
    requires k <= |rs|
    ensures r.Some? ==> k <= r.value < |rs| && Aborts(rs, r.value)
    ensures r.Some? ==> forall j :: k <= j < r.value ==> !Aborts(rs, j)
    ensures r.None? ==> forall j :: k <= j < |rs| ==> !Aborts(rs, j)
    decreases |rs| - k
  {
    if k == |rs| then None
    else if Aborts(rs, k) then Some(k)
    else FirstAbortFrom(rs, k + 1)
  }

  function FirstAbort(rs: seq<SegmentRun>): Option<nat> {
    FirstAbortFrom(rs, 0)
  }

  /**
   * The segment loop and the completeness check, given every segment's
   * result: the first aborting segment ends the run with the file holding
   * what came before it; otherwise fewer than 80% good segments is an error.
   */
  function Assemble(rs: seq<SegmentRun>, head: seq<Request>): (r: Run)
    ensures |r.trace| >= |head| && r.trace[..|head|] == head
    ensures r.outcome.Failed? ==> r.outcome.error.TooManyFailures? || r.outcome.error.Incomplete?
    ensures FirstAbort(rs).None? ==> r.written == Written(rs, |rs|) && r.trace == head + Requests(rs, |rs|)
    ensures FirstAbort(rs).Some? ==> r.outcome.Failed? && r.outcome.error.TooManyFailures?
  {
    match FirstAbort(rs)
    case Some(k) =>
      Run(Failed(TooManyFailures(k + 1 - Successes(rs, k + 1))), Written(rs, k + 1), head + Requests(rs, k + 1))
    case None =>
      var s := Successes(rs, |rs|);
      Run(if 5 * s < 4 * |rs| then Failed(Incomplete(s, |rs|)) else Completed, Written(rs, |rs|), head + Requests(rs, |rs|))
  }

  /** download_video once the playlist is parsed: the key GET when it is encrypted, then the segments. */
  function PlaylistRun(url: string, playlist: Playlist, net: Network, decrypt: Decryptor): (r: Run)
    ensures |r.trace| >= 1 && r.trace[0] == ManifestRequest(url)
    ensures playlist.encryption.Some? && net.key(playlist.encryption.value.keyUri).None? ==>
      r == Run(Failed(KeyFetchFailed), [], [ManifestRequest(url), KeyRequest(playlist.encryption.value.keyUri)])
    ensures r.outcome.Failed? ==> r.outcome.error in {KeyFetchFailed} || r.outcome.error.TooManyFailures? || r.outcome.error.Incomplete?
  {
    match playlist.encryption
    case None => Assemble(Results(playlist.segments, None, [], net, decrypt), [ManifestRequest(url)])
    case Some(info) =>
      var head := [ManifestRequest(url), KeyRequest(info.keyUri)];
      match net.key(info.keyUri)
      case None => Run(Failed(KeyFetchFailed), [], head)
      case Some(key) => Assemble(Results(playlist.segments, playlist.encryption, key, net, decrypt), head)
  }

  /** download_video from start to end. */
  function ExpectedRun(url: string, net: Network, decrypt: Decryptor, join: Joiner): (r: Run)
    ensures |r.trace| >= 1 && r.trace[0] == ManifestRequest(url)
    ensures net.manifest(url).None? ==> r.outcome == Failed(ManifestFetchFailed) && r.written == [] && r.trace == [ManifestRequest(url)]
    ensures net.manifest(url).Some? && !Text.Contains(net.manifest(url).value, "#EXTM3U") ==>
      r.outcome == Failed(NotM3u8) && r.written == [] && r.trace == [ManifestRequest(url)]
  {
    match net.manifest(url)
    case None => Run(Failed(ManifestFetchFailed), [], [ManifestRequest(url)])
    case Some(text) =>
      if !Text.Contains(text, "#EXTM3U") then Run(Failed(NotM3u8), [], [ManifestRequest(url)])
      else
        var segments := SegmentUrls(text, url, join);
        PlaylistRun(url, Playlist(ParseEncryption(text, url, join), segments, |segments|), net, decrypt)
  }

  /** get_decryption_key: one GET of the key URI. */
  method GetDecryptionKey(uri: string, net: Network) returns (r: Result<Bytes, Error>)
    ensures net.key(uri).None? ==> r == Failure(KeyFetchFailed)
    ensures net.key(uri).Some? ==> r == Success(net.key(uri).value)
  {
    var response := net.key(uri);
    if response.None? {
      return Failure(KeyFetchFailed);
    }
    r := Success(response.value);
  }

  /** download_video: parse the playlist (its errors propagate), then download it. */
  method DownloadVideo(url: string, net: Network, decrypt: Decryptor, join: Joiner) returns (run: Run)
    ensures run == ExpectedRun(url, net, decrypt, join)
  {
    var parsed := ParseM3u8(url, net, join);
    if parsed.Failure? {
      return Run(Failed(parsed.error), [], [ManifestRequest(url)]);
    }
    run := DownloadPlaylist(url, parsed.value, net, decrypt);
  }

  /** The rest of download_video: the key GET when the playlist is encrypted (its error propagates), then the segment loop. */
  method DownloadPlaylist(url: string, playlist: Playlist, net: Network, decrypt: Decryptor) returns (run: Run)
    ensures run == PlaylistRun(url, playlist, net, decrypt)
  {
    var trace := [ManifestRequest(url)];
    var key: Bytes := [];
    if playlist.encryption.Some? {
      trace := trace + [KeyRequest(playlist.encryption.value.keyUri)];
      var fetched := GetDecryptionKey(playlist.encryption.value.keyUri, net);
      if fetched.Failure? {
        return Run(Failed(fetched.error), [], trace);
      }
      key := fetched.value;
    }
    run := DownloadSegments(playlist.segments, playlist.encryption, key, net, decrypt, trace);
  }

  /** The body of the segment loop up to the write: the request(s) for segment `index` and their result. */
  method FetchOne(segments: seq<string>, index: nat, encryption: Option<EncryptionInfo>, key: Bytes, net: Network, decrypt: Decryptor, ghost rs: seq<SegmentRun>)
    returns (result: Result<Bytes, Error>, requests: seq<Request>)
    requires index < |segments| && rs == Results(segments, encryption, key, net, decrypt)
    ensures (result, requests) == rs[index]
  {
    ResultsAt(segments, encryption, key, net, decrypt, index);
    var url := segments[index];
    if encryption.Some? {
      result, requests := DownloadAndDecryptSegment(url, key, encryption.value.iv, index, net, decrypt);
    } else {
      var response := net.segment(url)(0);
      requests := [SegmentRequest(url, 0, None)];
      result := if response.Some? then Success(response.value) else Failure(RequestFailed);
    }
  }

  lemma {:induction false} ResultsAt(segments: seq<string>, encryption: Option<EncryptionInfo>, key: Bytes, net: Network, decrypt: Decryptor, i: nat)
    requires i < |segments|
    ensures Results(segments, encryption, key, net, decrypt)[i] == FetchSegment(segments[i], i, encryption, key, net, decrypt)
    decreases |segments|
  {
    var n := |segments| - 1;
    if i < n {
      ResultsAt(segments[..n], encryption, key, net, decrypt, i);
    }
  }

  /** What one more segment adds to the running count, the file and the trace. */
  lemma {:induction false} AccountStep(rs: seq<SegmentRun>, i: nat, head: seq<Request>)
    requires i < |rs|
    ensures Successes(rs, i + 1) == Successes(rs, i) + (if rs[i].0.Success? then 1 else 0)
    ensures rs[i].0.Success? ==> Written(rs, i + 1) == Written(rs, i) + rs[i].0.value
    ensures rs[i].0.Failure? ==> Written(rs, i + 1) == Written(rs, i)
    ensures head + Requests(rs, i + 1) == head + Requests(rs, i) + rs[i].1
  {
    assert Written(rs, i) + [] == Written(rs, i);
  }

  /** The first segment whose failure crosses the line is where the run stops. */
  lemma {:induction false} FirstAbortAt(rs: seq<SegmentRun>, i: nat)
    requires i < |rs| && Aborts(rs, i)
    requires forall j :: 0 <= j < i ==> !Aborts(rs, j)
    ensures FirstAbort(rs) == Some(i)
  {
  }

  /**
   * The segment loop of download_video and the completeness check after it:
   * the segments one by one with the running count of good ones; a failure
   * is tolerated while the failed count stays within a tenth of the total.
   */
  method DownloadSegments(segments: seq<string>, encryption: Option<EncryptionInfo>, key: Bytes, net: Network, decrypt: Decryptor, head: seq<Request>)
    returns (run: Run)
    ensures run == Assemble(Results(segments, encryption, key, net, decrypt), head)
  {
    ghost var rs := Results(segments, encryption, key, net, decrypt);
    var total := |segments|;
    var successes := 0;
    var written: Bytes := [];
    var trace := head;
    for i := 0 to total
      invariant successes == Successes(rs, i)
      invariant written == Written(rs, i)
      invariant trace == head + Requests(rs, i)
      invariant forall j :: 0 <= j < i ==> !Aborts(rs, j)
    {
      var result, requests := FetchOne(segments, i, encryption, key, net, decrypt, rs);
      AccountStep(rs, i, head);
      trace := trace + requests;
      if result.Success? {
        written := written + result.value;
        successes := successes + 1;
      } else {
        var failed := i + 1 - successes;
        if 10 * failed > total {
          FirstAbortAt(rs, i);
          return Run(Failed(TooManyFailures(failed)), written, trace);
        }
      }
    }
    assert FirstAbort(rs).None?;
    assert |rs| == total && written == Written(rs, |rs|) && trace == head + Requests(rs, |rs|);
    if 5 * successes < 4 * total {
      return Run(Failed(Incomplete(successes, total)), written, trace);
    }
    run := Run(Completed, written, trace);
  }

  // ----------------------------------------------------------------------
  // Properties of a run

  /** Without an abort, at most a tenth of the segments seen so far have failed. */
  lemma {:induction false} FailuresWithinTenth(rs: seq<SegmentRun>, k: nat)
    requires k <= |rs|
    requires forall j :: 0 <= j < k ==> !Aborts(rs, j)
    ensures 10 * (k - Successes(rs, k)) <= |rs|
  {
    if k > 0 {
      FailuresWithinTenth(rs, k - 1);
      if rs[k - 1].0.Failure? {
        assert !Aborts(rs, k - 1);
      }
    }
  }

  /**
   * The completeness check can never fire: a loop that runs to the end has
   * at least nine in ten good segments, so fewer than 80% is impossible.
   */
  lemma {:induction false} IncompleteIsUnreachable(rs: seq<SegmentRun>, head: seq<Request>)
    ensures Assemble(rs, head).outcome.Failed? ==> Assemble(rs, head).outcome.error.TooManyFailures?
    ensures FirstAbort(rs).None? ==> 10 * Successes(rs, |rs|) >= 9 * |rs| && Assemble(rs, head).outcome == Completed
  {
    if FirstAbort(rs).None? {
      FailuresWithinTenth(rs, |rs|);
    }
  }

  /**
   * An abort reports a failed count above a tenth of all segments, and it is
   * the first moment the count passed that line.
   */
  lemma {:induction false} AbortReportsTooManyFailures(rs: seq<SegmentRun>, head: seq<Request>)
    requires Assemble(rs, head).outcome.Failed?
    ensures var e := Assemble(rs, head).outcome.error;
      e.TooManyFailures? && 10 * e.failed > |rs| && exists k :: 0 <= k < |rs| && FirstAbort(rs) == Some(k) && e.failed == k + 1 - Successes(rs, k + 1)
  {
    IncompleteIsUnreachable(rs, head);
  }

  lemma {:induction false} SuccessesAllGood(rs: seq<SegmentRun>, k: nat)
    requires k <= |rs|
    requires forall j :: 0 <= j < k ==> rs[j].0.Success?
    ensures Successes(rs, k) == k
  {
    if k > 0 {
      SuccessesAllGood(rs, k - 1);
    }
  }

  /** A run where every segment succeeds completes, and the file holds every segment's data in playlist order. */
  lemma {:induction false} AllGoodCompletes(rs: seq<SegmentRun>, head: seq<Request>)
    requires forall j :: 0 <= j < |rs| ==> rs[j].0.Success?
    ensures Assemble(rs, head) == Run(Completed, Written(rs, |rs|), head + Requests(rs, |rs|))
  {
    IncompleteIsUnreachable(rs, head);
    assert FirstAbort(rs).None?;
  }

  /** With ten segments or more, a single failed segment is tolerated: the run still completes. */
  lemma {:induction false} OneFailureTolerated(rs: seq<SegmentRun>, head: seq<Request>, f: nat)
    requires |rs| >= 10 && f < |rs|
    requires forall j :: 0 <= j < |rs| && j != f ==> rs[j].0.Success?
    ensures Assemble(rs, head).outcome == Completed
  {
    SuccessesAllGood(rs, f);
    assert forall j :: 0 <= j < |rs| ==> !Aborts(rs, j);
    IncompleteIsUnreachable(rs, head);
  }

  /**
   * With fewer than ten segments, the first failure ends the run at once:
   * the file holds the segments before it and no later segment is requested.
   */
  lemma {:induction false} SmallPlaylistAbortsOnFirstFailure(rs: seq<SegmentRun>, head: seq<Request>, f: nat)
    requires |rs| < 10 && f < |rs| && rs[f].0.Failure?
    requires forall j :: 0 <= j < f ==> rs[j].0.Success?
    ensures Assemble(rs, head) == Run(Failed(TooManyFailures(1)), Written(rs, f), head + Requests(rs, f + 1))
  {
    SuccessesAllGood(rs, f);
    assert Aborts(rs, f);
    FirstAbortAt(rs, f);
  }

  /** Requests issued for the segments, in the unencrypted branch: one GET per segment, in playlist order, without a Referer. */
  lemma {:induction false} PlainRequests(segments: seq<string>, net: Network, decrypt: Decryptor, k: nat)
    requires k <= |segments|
    ensures Requests(Results(segments, None, [], net, decrypt), k) == seq(k, i requires 0 <= i < k => SegmentRequest(segments[i], 0, None))
  {
    if k > 0 {
      PlainRequests(segments, net, decrypt, k - 1);
      ResultsAt(segments, None, [], net, decrypt, k - 1);
      var f := (i: int) requires 0 <= i < k => SegmentRequest(segments[i], 0, None);
      assert seq(k, f) == seq(k - 1, i requires 0 <= i < k - 1 => SegmentRequest(segments[i], 0, None)) + [f(k - 1)];
    }
  }

  /**
   * One segment costs at most three GETs, all of its own URL; unencrypted,
   * exactly one GET without a Referer, and the segment is good iff it answered.
   */
  lemma {:induction false} FetchSegmentShape(url: string, index: nat, encryption: Option<EncryptionInfo>, key: Bytes, net: Network, decrypt: Decryptor)
    ensures var r := FetchSegment(url, index, encryption, key, net, decrypt);
      |r.1| <= MaxRetries && forall j :: 0 <= j < |r.1| ==> r.1[j].SegmentRequest? && r.1[j].url == url
    ensures var r := FetchSegment(url, index, encryption, key, net, decrypt);
      encryption.None? ==> r.1 == [SegmentRequest(url, 0, None)] && (r.0.Success? <==> net.segment(url)(0).Some?)
    ensures var r := FetchSegment(url, index, encryption, key, net, decrypt);
      encryption.None? && r.0.Success? ==> r.0.value == net.segment(url)(0).value
  {
    if encryption.Some? {
      SegmentRequestsShape(url, key, encryption.value.iv, index, net, decrypt);
    }
  }

  /** Every request after the playlist (and key) GETs is a segment GET: the key is fetched at most once. */
  lemma {:induction false} RequestsAreSegmentGets(rs: seq<SegmentRun>, segments: seq<string>, encryption: Option<EncryptionInfo>, key: Bytes, net: Network, decrypt: Decryptor, k: nat)
    requires rs == Results(segments, encryption, key, net, decrypt)
    requires k <= |rs|
    ensures forall j :: 0 <= j < |Requests(rs, k)| ==> Requests(rs, k)[j].SegmentRequest?
  {
    if k > 0 {
      RequestsAreSegmentGets(rs, segments, encryption, key, net, decrypt, k - 1);
      ResultsAt(segments, encryption, key, net, decrypt, k - 1);
      FetchSegmentShape(segments[k - 1], k - 1, encryption, key, net, decrypt);
      var prev: seq<Request>, step: seq<Request> := Requests(rs, k - 1), rs[k - 1].1;
      assert Requests(rs, k) == prev + step;
      assert forall j :: 0 <= j < |step| ==> step[j].SegmentRequest?;
      forall j | 0 <= j < |prev + step|
        ensures (prev + step)[j].SegmentRequest?
      {
        if j >= |prev| {
          assert (prev + step)[j] == step[j - |prev|];
        }
      }
    }
  }

  /** The trace of an assembled run is the requests before the segments, then segment GETs only. */
  lemma {:induction false} AssembledTrace(rs: seq<SegmentRun>, head: seq<Request>, segments: seq<string>, encryption: Option<EncryptionInfo>, key: Bytes, net: Network, decrypt: Decryptor)
    requires rs == Results(segments, encryption, key, net, decrypt)
    ensures var trace := Assemble(rs, head).trace;
      |trace| >= |head| && trace[..|head|] == head && forall j :: |head| <= j < |trace| ==> trace[j].SegmentRequest?
  {
    var m := if FirstAbort(rs).Some? then FirstAbort(rs).value + 1 else |rs|;
    RequestsAreSegmentGets(rs, segments, encryption, key, net, decrypt, m);
    var trace := Assemble(rs, head).trace;
    assert trace == head + Requests(rs, m);
    assert forall j :: |head| <= j < |trace| ==> trace[j] == Requests(rs, m)[j - |head|];
  }

  /**
   * Once the playlist is parsed, the key is requested exactly once, right
   * after the playlist, when the playlist is encrypted, and never otherwise.
   */
  lemma {:induction false} PlaylistKeyRequests(url: string, playlist: Playlist, net: Network, decrypt: Decryptor)
    ensures var trace := PlaylistRun(url, playlist, net, decrypt).trace;
      |trace| >= 1 && trace[0] == ManifestRequest(url)
      && (forall j :: 0 <= j < |trace| && trace[j].KeyRequest? ==> j == 1)
      && (playlist.encryption.Some? ==> |trace| >= 2 && trace[1] == KeyRequest(playlist.encryption.value.keyUri))
      && (playlist.encryption.None? ==> forall j :: 0 <= j < |trace| ==> !trace[j].KeyRequest?)
  {
    match playlist.encryption
    case None =>
      var rs := Results(playlist.segments, None, [], net, decrypt);
      AssembledTrace(rs, [ManifestRequest(url)], playlist.segments, None, [], net, decrypt);
    case Some(info) =>
      var head := [ManifestRequest(url), KeyRequest(info.keyUri)];
      match net.key(info.keyUri)
      case None =>
      case Some(key) =>
        var rs := Results(playlist.segments, playlist.encryption, key, net, decrypt);
        AssembledTrace(rs, head, playlist.segments, playlist.encryption, key, net, decrypt);
  }

  /** The whole download starts with the playlist GET and requests the key at most once, right after it. */
  lemma {:induction false} KeyRequestedOnce(url: string, net: Network, decrypt: Decryptor, join: Joiner)
    ensures var trace := ExpectedRun(url, net, decrypt, join).trace;
      |trace| >= 1 && trace[0] == ManifestRequest(url) &&
      forall j :: 0 <= j < |trace| && trace[j].KeyRequest? ==> j == 1
  {
    match net.manifest(url)
    case None =>
    case Some(text) =>
      if Text.Contains(text, "#EXTM3U") {
        var segments := SegmentUrls(text, url, join);
        PlaylistKeyRequests(url, Playlist(ParseEncryption(text, url, join), segments, |segments|), net, decrypt);
      }
  }
}

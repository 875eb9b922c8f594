// What one response does to a download when nothing else fails (downloadAttempt
// in download.go), told from the whole body instead of its chunks, for any
// response at all.
module DownloadOutcomes {
  import opened FaultyFs
  import opened Wrappers
  import opened Bytes
  import opened ContentRange
  import opened Download

  /** A partial response that begins where the part file ends and agrees with its own length. */
  predicate Usable(resp: Response, offset: nat) {
    && resp.Response? && resp.status == 206
    && var range := ParseContentRange(resp.contentRange);
    && range.Some? && range.value.start == offset && range.value.start <= range.value.end < range.value.total
    && (resp.length >= 0 ==> resp.length == range.value.end - range.value.start + 1)
  }

  /** The part file may be complete when its size is the length of the whole. */
  predicate AlreadyThere(resp: Response, part: seq<byte>, hash: Hasher, want: Digest) {
    resp.Response? && resp.status == 200 && part != [] && |part| == resp.length && hash(part) == want
  }

  predicate HasBody(resp: Response, part: seq<byte>, hash: Hasher, want: Digest) {
    && resp.Response?
    && ((resp.status == 200 && !AlreadyThere(resp, part, hash, want)) || (resp.status == 206 && Usable(resp, |part|)))
  }

  /** The bytes there are once the body has been received. */
  function Together(resp: Response, part: seq<byte>): seq<byte>
    requires resp.Response?
  {
    if resp.status == 206 then part + Flatten(resp.body) else Flatten(resp.body)
  }

  /** What the response says the whole comes to; negative if it does not say. */
  function Announced(resp: Response, part: seq<byte>): int
    requires resp.Response? && (resp.status == 206 ==> Usable(resp, |part|))
  {
    if resp.status == 206 then ParseContentRange(resp.contentRange).value.total else resp.length
  }

  predicate TooLong(resp: Response, part: seq<byte>)
    requires resp.Response? && (resp.status == 206 ==> Usable(resp, |part|))
  {
    0 <= Announced(resp, part) < |Together(resp, part)|
  }

  predicate Complete(resp: Response, part: seq<byte>)
    requires resp.Response? && (resp.status == 206 ==> Usable(resp, |part|))
  {
    && resp.clean && (Announced(resp, part) >= 0 ==> |Together(resp, part)| == Announced(resp, part))
    && (resp.status == 206 ==> |Flatten(resp.body)| == Segment(resp))
  }

  /** The length of the range a partial response names. */
  function Segment(resp: Response): int
    requires resp.Response? && ParseContentRange(resp.contentRange).Some?
  {
    var range := ParseContentRange(resp.contentRange).value;
    range.end - range.start + 1
  }

  function TransferOf(resp: Response, part: seq<byte>): Transfer
    requires resp.Response? && (resp.status == 206 ==> Usable(resp, |part|))
  {
    if resp.status == 200 then Transfer(false, 0, resp.length, resp.length)
    else if resp.status == 206 then
      var range := ParseContentRange(resp.contentRange).value;
      Transfer(part != [], |part|, Segment(resp), range.total)
    else Transfer(false, 0, -1, -1)
  }

  /** A body is refused when it is too long, kept for another attempt when it is not
      all there, and otherwise is the wanted one or is dropped: once more from the
      start if it had been appended to something, and for good if not. */
  ghost predicate BodyResult(f: map<Name, seq<byte>>, g: map<Name, seq<byte>>, result: Result, resp: Response, part: seq<byte>,
                             hash: Hasher, want: Digest)
    requires resp.Response? && (resp.status == 206 ==> Usable(resp, |part|))
  {
    var all := Together(resp, part);
    if TooLong(resp, part) then result.Failed? && Same(f, g, Dest)
    else if !Complete(resp, part) then result.Retry? && g == f[Part := all]
    else if hash(all) == want then result.Done? && g == (f - {Part})[Dest := all]
    else if resp.status == 206 && part != [] then result.CleanRestart? && g == f[Part := []]
    else result.Mismatch? && g == f - {Part}
  }

  lemma BodyOutcome(o: Oracle, w: Disk, resp: Response, hash: Hasher, want: Digest, attempts: nat)
    requires w.alive && Healthy(o) && 0 < attempts && HasBody(resp, PartBytes(w), hash, want)
    ensures var part := PartBytes(w);
      var (v, result) := Receive(o, w, TransferOf(resp, part), resp, hash, want, attempts);
      v.alive && BodyResult(w.files, v.files, result, resp, part, hash, want)
  {
    hide VerifyAndCommit, CopyBody, Flatten, ParseContentRange, Conclude;
    var part := PartBytes(w);
    var t, all := TransferOf(resp, part), Together(resp, part);
    var w1 := if t.appending then w.Check(o).0 else w.Replace(o, Part, []).0;
    CopyBodyOutcome(o, w1, t.offset, t.total, resp.body, resp.clean, resp.short, 0);
    var (w2, written, copied) := CopyBody(o, w1, t.offset, t.total, resp.body, resp.clean, resp.short, 0);
    assert w1.files[Part] + Flatten(resp.body) == all;
    var w3 := w2.Check(o).0;
    if !copied.Refused? {
      OnlyPart(w.files, w2.files);
      if copied.Whole? {
        ConcludeOutcome(o, w3, w.files, resp, part, written, hash, want, attempts);
      }
    }
  }

  lemma ConcludeOutcome(o: Oracle, w: Disk, f: map<Name, seq<byte>>, resp: Response, part: seq<byte>, written: nat,
                        hash: Hasher, want: Digest, attempts: nat)
    requires w.alive && Healthy(o) && 0 < attempts && resp.Response? && (resp.status == 206 ==> Usable(resp, |part|))
    requires resp.status in {200, 206} && resp.clean && !TooLong(resp, part)
    requires w.files == f[Part := Together(resp, part)] && written == |Flatten(resp.body)|
    ensures var (v, result) := Conclude(o, w, TransferOf(resp, part), written, hash, want, attempts);
      v.alive && BodyResult(f, v.files, result, resp, part, hash, want)
  {
    hide VerifyAndCommit, Flatten, ParseContentRange;
    VerifyIsAlive(o, w, hash, want, attempts);
    VerifyOutcome(o, w, hash, want, attempts);
    assert w.files - {Part} == f - {Part} && w.files[Part := []] == f[Part := []];
    var (v, verdict) := VerifyAndCommit(o, w, hash, want, attempts);
    assert PartSize(w) == |Together(resp, part)|;
  }

  lemma OnlyPart(f: map<Name, seq<byte>>, g: map<Name, seq<byte>>)
    requires Same(f, g, Dest) && Part in g
    ensures g == f[Part := g[Part]]
  {
    var h := f[Part := g[Part]];
    forall n | n in g || n in h ensures Same(g, h, n) {
      assert n == Part || n == Dest;
    }
    assert g.Keys == h.Keys;
  }

  /** Every response, against whatever the part file holds. */
  lemma AttemptOutcome(o: Oracle, w: Disk, resp: Response, hash: Hasher, want: Digest, attempts: nat)
    requires w.alive && Healthy(o) && 0 < attempts
    ensures var part := PartBytes(w);
      var (v, result) := Attempt(o, w, resp, hash, want, attempts);
      && v.alive
      && (resp.NoResponse? ==> result.Retry? && v.files == w.files)
      && (resp.Response? && resp.status !in {200, 206, 416} ==>
            v.files == w.files && result == if resp.status in {408, 429} || resp.status >= 500 then Retry else Failed)
      && (resp.Response? && resp.status == 416 && part == [] ==> result.Failed? && v.files == w.files)
      && (resp.Response? && resp.status == 416 && part != [] ==>
            if hash(part) == want then result.Done? && v.files == (w.files - {Part})[Dest := part]
            else result.CleanRestart? && v.files == w.files[Part := []])
      && (AlreadyThere(resp, part, hash, want) ==> result.Done? && v.files == (w.files - {Part})[Dest := part])
      && (resp.Response? && resp.status == 206 && !Usable(resp, |part|) ==> result.Retry? && v.files == w.files[Part := []])
      && (HasBody(resp, part, hash, want) ==> BodyResult(w.files, v.files, result, resp, part, hash, want))
  {
    hide VerifyAndCommit, Receive, ParseContentRange;
    var w1 := w.Check(o).0;
    var part := PartBytes(w);
    VerifyIsAlive(o, w1, hash, want, attempts);
    VerifyOutcome(o, w1, hash, want, attempts);
    if resp.Response? && resp.status == 416 && part != [] && hash(part) != want {
      var (w2, verdict) := VerifyAndCommit(o, w1, hash, want, attempts);
      assert verdict.Different? && w2.alive;
      assert Attempt(o, w, resp, hash, want, attempts) == Reset(o, w2, CleanRestart);
    }
    if HasBody(resp, part, hash, want) {
      var u := if resp.status == 200 && part != [] && |part| == resp.length
               then VerifyAndCommit(o, w1, hash, want, attempts).0 else w1;
      assert u.files == w.files && u.alive;
      if resp.status == 200 && part != [] && |part| == resp.length {
        assert VerifyAndCommit(o, w1, hash, want, attempts).1.Different?;
      }
      assert Attempt(o, w, resp, hash, want, attempts) == Receive(o, u, TransferOf(resp, part), resp, hash, want, attempts);
      BodyOutcome(o, u, resp, hash, want, attempts);
    }
  }

  // ---- Publishing under faults -----------------------------------------------------------------

  /** A round of publishing is a check, a rename, and a check whether to go on. */
  ghost predicate RenamedAt(o: Oracle, clock: nat, round: nat) {
    && (forall i: nat :: i < round ==> FailedRound(o, clock, i))
    && o(clock + 3 * round).Works? && o(clock + 3 * round + 1).Works?
  }

  ghost predicate FailedRound(o: Oracle, clock: nat, i: nat) {
    o(clock + 3 * i).Works? && o(clock + 3 * i + 1).Fails? && o(clock + 3 * i + 2).Works?
  }

  ghost predicate SomeRound(o: Oracle, clock: nat, attempts: nat) {
    exists round: nat :: round < attempts && RenamedAt(o, clock, round)
  }

  /** The verified part file takes its name exactly when the rename works in some round,
      having only failed, without being cancelled, in the rounds before. */
  lemma {:induction false} RenameSucceedsIff(o: Oracle, w: Disk, attempts: nat)
    requires w.alive && Part in w.files
    ensures CommitRename(o, w, attempts).1 <==> SomeRound(o, w.clock, attempts)
    decreases attempts
  {
    hide SomeRound;
    NextRound(o, w.clock, attempts);
    if attempts > 0 && FailedRound(o, w.clock, 0) {
      RenameSucceedsIff(o, World(w.files, w.clock + 3, true), attempts - 1);
    }
  }

  lemma NextRound(o: Oracle, clock: nat, attempts: nat)
    ensures SomeRound(o, clock, attempts) <==>
            attempts > 0
            && if FailedRound(o, clock, 0) then SomeRound(o, clock + 3, attempts - 1) else o(clock).Works? && o(clock + 1).Works?
  {
    var later := clock + 3;
    if attempts > 0 {
      if FailedRound(o, clock, 0) {
        if SomeRound(o, clock, attempts) {
          var round: nat :| round < attempts && RenamedAt(o, clock, round);
          RoundsShift(o, clock, later, round - 1);
        }
        if SomeRound(o, later, attempts - 1) {
          var round: nat :| round < attempts - 1 && RenamedAt(o, later, round);
          RoundsShift(o, clock, later, round);
        }
      } else if o(clock).Works? && o(clock + 1).Works? {
        assert RenamedAt(o, clock, 0);
      }
    }
  }

  lemma RoundsShift(o: Oracle, clock: nat, later: nat, round: nat)
    requires FailedRound(o, clock, 0) && later == clock + 3
    ensures RenamedAt(o, later, round) <==> RenamedAt(o, clock, round + 1)
  {
    if RenamedAt(o, later, round) {
      forall i: nat | i < round + 1 ensures FailedRound(o, clock, i) {
        assert i > 0 ==> FailedRound(o, later, i - 1);
      }
    }
    if RenamedAt(o, clock, round + 1) {
      forall i: nat | i < round ensures FailedRound(o, later, i) {
        assert FailedRound(o, clock, i + 1);
      }
    }
  }

  /** A file is only judged once it has been read, and nothing but the part file's bytes decides. */
  lemma VerdictOutcome(o: Oracle, w: Disk, hash: Hasher, want: Digest, attempts: nat)
    requires w.alive
    ensures var verdict := VerifyAndCommit(o, w, hash, want, attempts).1;
      var matches := Part in w.files && hash(w.files[Part]) == want;
      && (verdict.Different? <==> o(w.clock).Works? && !matches)
      && (verdict.Committed? <==>
            o(w.clock).Works? && matches && SomeRound(o, w.clock + 1, attempts))
  {
    var w1 := w.Check(o).0;
    if o(w.clock).Works? && Part in w.files {
      RenameSucceedsIff(o, w1, attempts);
    }
  }

  /** A cancelled attempt, and one that cannot empty the part file it has to drop, ends the download. */
  lemma FaultsEndTheAttempt(o: Oracle, w: Disk, resp: Response, hash: Hasher, want: Digest, attempts: nat)
    requires w.alive
    ensures !o(w.clock).Works? ==> Attempt(o, w, resp, hash, want, attempts) == (w.Tick(o), Failed)
    ensures o(w.clock).Works? && resp.NoResponse? && !o(w.clock + 1).Works? ==> Attempt(o, w, resp, hash, want, attempts).1.Failed?
    ensures o(w.clock).Works? && !o(w.clock + 1).Works? && HasBody(resp, PartBytes(w), hash, want)
            && !(resp.status == 200 && PartBytes(w) != [] && |PartBytes(w)| == resp.length) ==>
            Attempt(o, w, resp, hash, want, attempts).1.Failed? && Attempt(o, w, resp, hash, want, attempts).0.files == w.files
    ensures o(w.clock).Works? && !o(w.clock + 1).Works? && resp.Response? && resp.status == 206 && !Usable(resp, PartSize(w)) ==>
            Attempt(o, w, resp, hash, want, attempts).1.Failed? && Attempt(o, w, resp, hash, want, attempts).0.files == w.files
  {
    hide VerifyAndCommit, CopyBody, Conclude, ParseContentRange;
  }

  /** A complete part file that cannot be verified or published ends the attempt: it is
      neither fetched again nor dropped. */
  lemma UnableKeepsThePart(o: Oracle, w: Disk, resp: Response, hash: Hasher, want: Digest, attempts: nat)
    requires w.alive && o(w.clock).Works? && resp.Response? && PartBytes(w) != []
    requires (resp.status == 200 && |PartBytes(w)| == resp.length) || resp.status == 416
    requires VerifyAndCommit(o, w.Check(o).0, hash, want, attempts).1.Unable?
    ensures var (v, result) := Attempt(o, w, resp, hash, want, attempts); result.Failed? && v.files == w.files
  {
    hide VerifyAndCommit;
    VerifyOutcome(o, w.Check(o).0, hash, want, attempts);
  }

  /** What has been received is only judged once it is flushed. */
  lemma UnflushedIsNotPublished(o: Oracle, w: Disk, t: Transfer, resp: Response, hash: Hasher, want: Digest, attempts: nat)
    requires resp.Response? && Fitting(w, t)
    ensures var w1 := if t.appending then w.Check(o).0 else w.Replace(o, Part, []).0;
      var w2 := CopyBody(o, w1, t.offset, t.total, resp.body, resp.clean, resp.short, 0).0;
      var (v, result) := Receive(o, w, t, resp, hash, want, attempts);
      !w2.Permits(o) ==> result.Failed? && Same(w.files, v.files, Dest)
  {
    hide VerifyAndCommit, CopyBody;
    var (w1, ready) := if t.appending then w.Check(o) else w.Replace(o, Part, []);
    if ready {
      CopyBodyOutcome(o, w1, t.offset, t.total, resp.body, resp.clean, resp.short, 0);
    }
  }

  // ---- Whole downloads ----------------------------------------------------------------------------

  /** Without any response a download succeeds exactly when the part file was complete all along. */
  lemma NothingArrives(o: Oracle, w: Disk, server: Server, hash: Hasher, want: Digest, attempts: nat, maxAttempts: int)
    requires w.alive && Healthy(o) && 0 < attempts && forall n: nat, off: nat :: server(n, off).NoResponse?
    ensures var r := Download.Download(o, w, server, hash, want, attempts, maxAttempts);
      && r.requests == (if maxAttempts < 1 then 1 else maxAttempts)
      && (r.ok <==> PartBytes(w) != [] && hash(PartBytes(w)) == want)
      && r.w.files == if r.ok then (w.files - {Part})[Dest := PartBytes(w)] else w.files
  {
    NothingMoreArrives(o, w, server, hash, want, attempts, 1, if maxAttempts < 1 then 1 else maxAttempts, 0);
  }

  lemma {:induction false} NothingMoreArrives(o: Oracle, w: Disk, server: Server, hash: Hasher, want: Digest, attempts: nat,
                                              attempt: nat, limit: nat, requests: nat)
    requires w.alive && Healthy(o) && 0 < attempts && forall n: nat, off: nat :: server(n, off).NoResponse?
    requires attempt <= limit + 1
    ensures var r := Attempts(o, w, server, hash, want, attempts, attempt, limit, false, requests);
      && r.requests == requests + (limit + 1 - attempt)
      && (r.ok <==> PartBytes(w) != [] && hash(PartBytes(w)) == want)
      && r.w.files == if r.ok then (w.files - {Part})[Dest := PartBytes(w)] else w.files
    decreases limit + 1 - attempt
  {
    hide Attempt, VerifyAndCommit;
    if attempt > limit {
      VerifyIsAlive(o, w, hash, want, attempts);
      VerifyOutcome(o, w, hash, want, attempts);
    } else {
      var resp := server(requests, PartSize(w));
      AttemptOutcome(o, w, resp, hash, want, attempts);
      var v := Attempt(o, w, resp, hash, want, attempts).0;
      var v1 := if attempt < limit then v.Check(o).0 else v;
      NothingMoreArrives(o, v1, server, hash, want, attempts, attempt + 1, limit, requests + 1);
    }
  }
}

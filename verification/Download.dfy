// Resumable, verified downloads (download.go): a `.part` file that grows across
// attempts and runs, and a destination that only ever receives bytes with the
// wanted digest. The server is an arbitrary function, or an honest one for a
// fixed payload (RFC 9110 sections 14.4, 15.3.7 and 15.5.17).
module Download {
  import opened FaultyFs
  import opened Wrappers
  import opened Bytes
  import opened ContentRange

  datatype Name = Part | Dest

  type Disk = World<Name, seq<byte>>

  type Digest = string

  /** The digest function; nothing is assumed of it. */
  type Hasher = seq<byte> -> Digest

  /** A response as the client sees it: a length of -1 is unknown, the body comes
      in chunks, and it ends cleanly or breaks off. A write that fails may have
      put some bytes of its chunk into the file already. */
  datatype Response =
    | NoResponse
    | Response(status: int, length: int, contentRange: string, body: seq<seq<byte>>, clean: bool, short: nat)

  /** The n-th request, for the bytes from an offset on. */
  type Server = (nat, nat) -> Response

  datatype Result = Done | Retry | CleanRestart | Mismatch | Failed

  function PartSize(w: Disk): nat {
    if Part in w.files then |w.files[Part]| else 0
  }

  // ---- Verifying and publishing -------------------------------------------------------

  datatype Verdict = Committed | Different | Unable

  // Up to the given number of renames. Whether another attempt follows a failed
  // one is up to the kind of failure and to cancellation.
  function CommitRename(o: Oracle, w: Disk, attempts: nat): (r: (Disk, bool))
    ensures r.1 ==> Part in w.files && r.0.files == Moved(w.files, Part, Dest) && r.0.alive
    ensures !r.1 ==> r.0.files == w.files
    ensures w.alive && Healthy(o) && 0 < attempts && Part in w.files ==> r.1
    decreases attempts
  {
    if attempts == 0 then (w, false)
    else
      var (w, going) := w.Check(o);
      if !going then (w, false) else
      var (w, renamed) := w.RenameFile(o, Part, Dest);
      if renamed then (w, true) else
      var (w, again) := w.Check(o);
      if again then CommitRename(o, w, attempts - 1) else (w, false)
  }

  function VerifyAndCommit(o: Oracle, w: Disk, hash: Hasher, want: Digest, attempts: nat): (Disk, Verdict) {
    var (w, read) := w.Check(o);
    if !read then (w, Unable)
    else if Part !in w.files || hash(w.files[Part]) != want then (w, Different)
    else
      var (w, ok) := CommitRename(o, w, attempts);
      (w, if ok then Committed else Unable)
  }

  // ---- Receiving a body ------------------------------------------------------------------

  datatype Copied = Whole | Broken | Refused

  function PartBytes(w: Disk): seq<byte> {
    if Part in w.files then w.files[Part] else []
  }

  // Appends one chunk: all of it, or at most some bytes of it.
  function Append(o: Oracle, w: Disk, chunk: seq<byte>, short: nat): (Disk, nat, bool) {
    var count := if w.Permits(o) then |chunk| else if w.alive then Least(short, |chunk|) else 0;
    (if w.alive then w.Tick(o).(files := w.files[Part := PartBytes(w) + chunk[..count]]) else w, count, w.Permits(o))
  }

  // Appends the chunks in turn. Of a chunk that would pass the announced total
  // nothing is written.
  function CopyBody(o: Oracle, w: Disk, offset: nat, total: int, body: seq<seq<byte>>, clean: bool, short: nat, written: nat)
    : (r: (Disk, nat, Copied))
    decreases |body|
  {
    var (w, going) := w.Check(o);
    if !going then (w, written, Refused)
    else if body == [] then (w, written, if clean then Whole else Broken)
    else
      var chunk := body[0];
      if chunk != [] && total >= 0 && |chunk| > total - offset - written then (w, written, Refused)
      else if chunk == [] then CopyBody(o, w, offset, total, body[1..], clean, short, written)
      else
        var (w, count, ok) := Append(o, w, chunk, short);
        if !ok then (w, written + count, Refused)
        else CopyBody(o, w, offset, total, body[1..], clean, short, written + count)
  }

  // ---- One attempt ------------------------------------------------------------------------

  /** What a 200 or 206 response amounts to. */
  datatype Transfer = Transfer(appending: bool, offset: nat, segment: int, total: int)

  function Reset(o: Oracle, w: Disk, result: Result): (Disk, Result) {
    var (w, ok) := w.Replace(o, Part, []);
    (w, if ok then result else Failed)
  }

  predicate ValidRange(range: Option<Range>, offset: nat) {
    range.Some? && range.value.start == offset && range.value.start <= range.value.end < range.value.total
  }

  // Receiving the body into the part file, and what follows.
  function Receive(o: Oracle, w: Disk, t: Transfer, resp: Response, hash: Hasher, want: Digest, attempts: nat): (Disk, Result)
    requires resp.Response?
  {
    var (w, ready) := if t.appending then w.Check(o) else w.Replace(o, Part, []);
    if !ready then (w, Failed) else
    var (w, written, copied) := CopyBody(o, w, t.offset, t.total, resp.body, resp.clean, resp.short, 0);
    var (w, flushed) := w.Check(o);
    if !flushed || copied.Refused? then (w, Failed)
    else if copied.Broken? then (w, Retry)
    else Conclude(o, w, t, written, hash, want, attempts)
  }

  // A body received to its end: complete or not, and if so the wanted one or not.
  function Conclude(o: Oracle, w: Disk, t: Transfer, written: nat, hash: Hasher, want: Digest, attempts: nat): (Disk, Result) {
    if t.segment >= 0 && written != t.segment then (w, Retry)
    else if t.total >= 0 && PartSize(w) != t.total then
      if PartSize(w) > t.total then Reset(o, w, Retry) else (w, Retry)
    else
      var (w, verdict) := VerifyAndCommit(o, w, hash, want, attempts);
      match verdict
      case Unable => (w, Failed)
      case Committed => (w, Done)
      case Different =>
        if t.appending then Reset(o, w, CleanRestart) else (w.Remove(o, Part).0, Mismatch)
  }

  function Attempt(o: Oracle, w: Disk, resp: Response, hash: Hasher, want: Digest, attempts: nat): (Disk, Result) {
    var (w, going) := w.Check(o);
    if !going then (w, Failed) else
    var offset := PartSize(w);
    if resp.NoResponse? then
      var (w, going) := w.Check(o);
      (w, if going then Retry else Failed)
    else if resp.status == 200 then
      var (w, verdict) := if offset > 0 && offset == resp.length
                          then VerifyAndCommit(o, w, hash, want, attempts)
                          else (w, Different);
      if verdict.Unable? then (w, Failed)
      else if verdict.Committed? then (w, Done)
      else Receive(o, w, Transfer(false, 0, resp.length, resp.length), resp, hash, want, attempts)
    else if resp.status == 206 then
      var range := ParseContentRange(resp.contentRange);
      if !ValidRange(range, offset) then Reset(o, w, Retry)
      else
        var segment := range.value.end - range.value.start + 1;
        if resp.length >= 0 && resp.length != segment then Reset(o, w, Retry)
        else Receive(o, w, Transfer(offset > 0, offset, segment, range.value.total), resp, hash, want, attempts)
    else if resp.status == 416 then
      if offset == 0 then (w, Failed)
      else
        var (w, verdict) := VerifyAndCommit(o, w, hash, want, attempts);
        if verdict.Unable? then (w, Failed)
        else if verdict.Committed? then (w, Done)
        else Reset(o, w, CleanRestart)
    else (w, if resp.status == 408 || resp.status == 429 || resp.status >= 500 then Retry else Failed)
  }

  // ---- The whole download ------------------------------------------------------------------

  datatype Outcome = Outcome(w: Disk, ok: bool, requests: nat)

  // The cached part file may be complete after all.
  function Finish(o: Oracle, w: Disk, hash: Hasher, want: Digest, attempts: nat): (Disk, bool) {
    if PartSize(w) > 0 then
      var (w, verdict) := VerifyAndCommit(o, w, hash, want, attempts);
      (w, verdict.Committed?)
    else (w, false)
  }

  function Attempts(o: Oracle, w: Disk, server: Server, hash: Hasher, want: Digest, attempts: nat,
                    attempt: nat, limit: nat, restarted: bool, requests: nat): (r: Outcome)
    decreases limit + 1 - attempt, !restarted
  {
    if attempt > limit then
      var (w, ok) := Finish(o, w, hash, want, attempts);
      Outcome(w, ok, requests)
    else
      var (v, result) := Attempt(o, w, server(requests, PartSize(w)), hash, want, attempts);
      match result
      case Done => Outcome(v, true, requests + 1)
      case CleanRestart =>
        if restarted then Outcome(v, false, requests + 1)
        else Attempts(o, v, server, hash, want, attempts, attempt, limit, true, requests + 1)
      case Retry =>
        var (v, slept) := if attempt < limit then v.Check(o) else (v, true);
        if !slept then Outcome(v, false, requests + 1)
        else Attempts(o, v, server, hash, want, attempts, attempt + 1, limit, restarted, requests + 1)
      case _ => Outcome(v, false, requests + 1)
  }

  function Download(o: Oracle, w: Disk, server: Server, hash: Hasher, want: Digest, attempts: nat, maxAttempts: int): Outcome {
    Attempts(o, w, server, hash, want, attempts, 1, if maxAttempts < 1 then 1 else maxAttempts, false, 0)
  }

  // ---- Against any server ------------------------------------------------------------------

  /** The destination is as it was, or now holds bytes with the wanted digest. */
  ghost predicate DestSafe(f: map<Name, seq<byte>>, g: map<Name, seq<byte>>, hash: Hasher, want: Digest) {
    Same(f, g, Dest) || (Dest in g && hash(g[Dest]) == want)
  }

  ghost predicate Published(f: map<Name, seq<byte>>, hash: Hasher, want: Digest) {
    Dest in f && hash(f[Dest]) == want
  }

  lemma VerifyOutcome(o: Oracle, w: Disk, hash: Hasher, want: Digest, attempts: nat)
    ensures var (v, verdict) := VerifyAndCommit(o, w, hash, want, attempts);
      && (verdict.Committed? ==>
            Part in w.files && hash(w.files[Part]) == want && v.files == Moved(w.files, Part, Dest) && v.alive)
      && (!verdict.Committed? ==> v.files == w.files)
      && (verdict.Different? ==> Part !in w.files || hash(w.files[Part]) != want)
      && (w.alive && Healthy(o) && 0 < attempts && Part in w.files && hash(w.files[Part]) == want ==> verdict.Committed?)
  {
  }

  /** Never past the announced total, and exactly what was counted. */
  lemma CopyBodyOutcome(o: Oracle, w: Disk, offset: nat, total: int, body: seq<seq<byte>>, clean: bool, short: nat, written: nat)
    requires Part in w.files && |w.files[Part]| == offset + written
    requires total >= 0 ==> offset + written <= total
    ensures var (v, count, copied) := CopyBody(o, w, offset, total, body, clean, short, written);
      && Part in v.files && |v.files[Part]| == offset + count && written <= count
      && (total >= 0 ==> offset + count <= total)
      && Same(w.files, v.files, Dest)
      && w.files[Part] <= v.files[Part] <= w.files[Part] + Flatten(body)
      && (copied.Whole? ==> clean && v.files[Part] == w.files[Part] + Flatten(body))
      && (copied.Broken? ==> !clean && v.files[Part] == w.files[Part] + Flatten(body))
      && (w.alive && Healthy(o) ==> v.alive && (copied.Refused? ==> total >= 0 && offset + written + |Flatten(body)| > total))
  {
    CopyBodyGrows(o, w, offset, total, body, clean, short, written);
    if w.alive && Healthy(o) {
      CopyBodyIsRefused(o, w, offset, total, body, clean, short, written);
    }
  }

  lemma {:induction false} CopyBodyGrows(o: Oracle, w: Disk, offset: nat, total: int, body: seq<seq<byte>>, clean: bool, short: nat, written: nat)
    requires Part in w.files && |w.files[Part]| == offset + written
    requires total >= 0 ==> offset + written <= total
    ensures var (v, count, copied) := CopyBody(o, w, offset, total, body, clean, short, written);
      && Part in v.files && |v.files[Part]| == offset + count && written <= count
      && (total >= 0 ==> offset + count <= total)
      && Same(w.files, v.files, Dest)
      && w.files[Part] <= v.files[Part] <= w.files[Part] + Flatten(body)
      && (copied.Whole? ==> clean && v.files[Part] == w.files[Part] + Flatten(body))
      && (copied.Broken? ==> !clean && v.files[Part] == w.files[Part] + Flatten(body))
    decreases |body|
  {
    hide Flatten, Append;
    NothingReceived();
    var (w1, going) := w.Check(o);
    if going && body != [] {
      var chunk := body[0];
      FlattenFirst(body);
      if chunk == [] {
        CopyBodyGrows(o, w1, offset, total, body[1..], clean, short, written);
      } else if !(total >= 0 && |chunk| > total - offset - written) {
        var (w2, count, ok) := Append(o, w1, chunk, short);
        AppendOutcome(o, w1, chunk, short, Flatten(body[1..]));
        if ok {
          CopyBodyGrows(o, w2, offset, total, body[1..], clean, short, written + count);
          PrefixTwice(w.files[Part], w2.files[Part], CopyBody(o, w2, offset, total, body[1..], clean, short, written + count).0.files[Part]);
        }
      }
    }
  }

  lemma {:induction false} CopyBodyIsRefused(o: Oracle, w: Disk, offset: nat, total: int, body: seq<seq<byte>>, clean: bool, short: nat, written: nat)
    requires w.alive && Healthy(o)
    ensures var (v, count, copied) := CopyBody(o, w, offset, total, body, clean, short, written);
      v.alive && (copied.Refused? ==> total >= 0 && offset + written + |Flatten(body)| > total)
    decreases |body|
  {
    hide Flatten;
    if body != [] {
      FlattenFirst(body);
      var w1 := w.Check(o).0;
      var (w2, count, ok) := Append(o, w1, body[0], short);
      CopyBodyIsRefused(o, if body[0] == [] then w1 else w2, offset, total, body[1..], clean, short, written + |body[0]|);
    }
  }

  /** An append leaves a start of what is still to come, all of the chunk if it works. */
  lemma AppendOutcome(o: Oracle, w: Disk, chunk: seq<byte>, short: nat, rest: seq<byte>)
    requires Part in w.files
    ensures var (v, count, ok) := Append(o, w, chunk, short);
      && Part in v.files && |v.files[Part]| == |w.files[Part]| + count && count <= |chunk| && Same(w.files, v.files, Dest)
      && w.files[Part] <= v.files[Part] <= w.files[Part] + (chunk + rest)
      && (ok ==> count == |chunk| && v.files[Part] + rest == w.files[Part] + (chunk + rest))
  {
    var count := Append(o, w, chunk, short).1;
    Appended(w.files[Part], chunk, count, rest);
  }

  lemma NothingReceived()
    ensures Flatten([]) == []
  {
  }

  lemma FlattenFirst(body: seq<seq<byte>>)
    requires body != []
    ensures Flatten(body) == body[0] + Flatten(body[1..])
  {
  }

  /** Some bytes of a chunk, and all of it, as the start of what is still to come. */
  lemma Appended(f: seq<byte>, chunk: seq<byte>, count: nat, rest: seq<byte>)
    requires count <= |chunk|
    ensures f <= f + chunk[..count] <= f + (chunk + rest)
    ensures (f + chunk) + rest == f + (chunk + rest) && chunk[..|chunk|] == chunk
  {
    assert f + chunk[..count] == (f + (chunk + rest))[..|f| + count];
  }

  lemma PrefixTwice(a: seq<byte>, b: seq<byte>, c: seq<byte>)
    requires a <= b <= c
    ensures a <= c
  {
    assert a == b[..|a|] == c[..|b|][..|a|] == c[..|a|];
  }

  ghost predicate Fitting(w: Disk, t: Transfer) {
    && (t.appending ==> Part in w.files && |w.files[Part]| == t.offset)
    && (!t.appending ==> t.offset == 0)
    && (t.total >= 0 ==> t.offset <= t.total)
  }

  lemma ReceiveKeepsDest(o: Oracle, w: Disk, t: Transfer, resp: Response, hash: Hasher, want: Digest, attempts: nat)
    requires resp.Response? && Fitting(w, t)
    ensures var (v, result) := Receive(o, w, t, resp, hash, want, attempts);
      DestSafe(w.files, v.files, hash, want) && (result.Done? ==> Published(v.files, hash, want))
  {
    hide VerifyAndCommit, CopyBody;
    var (w1, ready) := if t.appending then w.Check(o) else w.Replace(o, Part, []);
    if ready {
      CopyBodyOutcome(o, w1, t.offset, t.total, resp.body, resp.clean, resp.short, 0);
      var w2 := CopyBody(o, w1, t.offset, t.total, resp.body, resp.clean, resp.short, 0).0;
      VerifyOutcome(o, w2.Check(o).0, hash, want, attempts);
    }
  }

  lemma AttemptKeepsDest(o: Oracle, w: Disk, resp: Response, hash: Hasher, want: Digest, attempts: nat)
    ensures var (v, result) := Attempt(o, w, resp, hash, want, attempts);
      DestSafe(w.files, v.files, hash, want) && (result.Done? ==> Published(v.files, hash, want))
  {
    hide VerifyAndCommit, Receive, ParseContentRange, Format;
    var (w1, going) := w.Check(o);
    VerifyOutcome(o, w1, hash, want, attempts);
    var offset := PartSize(w1);
    if going && resp.Response? {
      if resp.status == 200 {
        var (w2, verdict) := if offset > 0 && offset == resp.length
                             then VerifyAndCommit(o, w1, hash, want, attempts)
                             else (w1, Different);
        ReceiveKeepsDest(o, w2, Transfer(false, 0, resp.length, resp.length), resp, hash, want, attempts);
      } else if resp.status == 206 && ValidRange(ParseContentRange(resp.contentRange), offset) {
        var range := ParseContentRange(resp.contentRange).value;
        var segment := range.end - range.start + 1;
        ReceiveKeepsDest(o, w1, Transfer(offset > 0, offset, segment, range.total), resp, hash, want, attempts);
      }
    }
  }

  lemma {:induction false} AttemptsKeepDest(o: Oracle, w: Disk, server: Server, hash: Hasher, want: Digest, attempts: nat,
                                            attempt: nat, limit: nat, restarted: bool, requests: nat)
    requires attempt <= limit + 1
    ensures var r := Attempts(o, w, server, hash, want, attempts, attempt, limit, restarted, requests);
      && DestSafe(w.files, r.w.files, hash, want) && (r.ok ==> Published(r.w.files, hash, want))
      && requests <= r.requests <= requests + (limit + 1 - attempt) + (if restarted then 0 else 1)
    decreases limit + 1 - attempt, !restarted
  {
    hide VerifyAndCommit, Attempt;
    if attempt > limit {
      VerifyOutcome(o, w, hash, want, attempts);
    } else {
      var resp := server(requests, PartSize(w));
      AttemptKeepsDest(o, w, resp, hash, want, attempts);
      var (v, result) := Attempt(o, w, resp, hash, want, attempts);
      if result.CleanRestart? && !restarted {
        AttemptsKeepDest(o, v, server, hash, want, attempts, attempt, limit, true, requests + 1);
      } else if result.Retry? {
        var (v1, slept) := if attempt < limit then v.Check(o) else (v, true);
        if slept {
          AttemptsKeepDest(o, v1, server, hash, want, attempts, attempt + 1, limit, restarted, requests + 1);
        }
      }
    }
  }

  /** Whatever the server sends and whatever fails: the destination changes only
      to bytes with the wanted digest, success means that it holds such bytes,
      and there is at most one request more than the attempts allowed. */
  lemma DownloadIsVerified(o: Oracle, w: Disk, server: Server, hash: Hasher, want: Digest, attempts: nat, maxAttempts: int)
    ensures var r := Download(o, w, server, hash, want, attempts, maxAttempts);
      && DestSafe(w.files, r.w.files, hash, want) && (r.ok ==> Published(r.w.files, hash, want))
      && r.requests <= (if maxAttempts < 1 then 1 else maxAttempts) + 1
  {
    AttemptsKeepDest(o, w, server, hash, want, attempts, 1, if maxAttempts < 1 then 1 else maxAttempts, false, 0);
  }

  // ---- Against an honest server ---------------------------------------------------------------

  /** A server of one fixed payload. It may refuse or break off anywhere; it may
      ignore the range, or send only the start of it, which the response then
      says; where it does not announce a length, a clean end is the end of what
      it sends. */
  ghost predicate Honest(resp: Response, offset: nat, payload: seq<byte>) {
    resp.Response? ==>
      if resp.status == 200 then
        && Flatten(resp.body) <= payload
        && (resp.length == |payload| || (resp.length == -1 && (resp.clean ==> Flatten(resp.body) == payload)))
      else if resp.status == 206 then
        && |payload| < INT64_LIMIT
        && exists end :: offset <= end < |payload| && Sends(resp, offset, end, payload)
      else if resp.status == 416 then |payload| <= offset
      else true
  }

  /** A partial response of the bytes up to an end of the server's choosing. */
  ghost predicate Sends(resp: Response, offset: nat, end: nat, payload: seq<byte>)
    requires resp.Response? && offset <= end < |payload|
  {
    && resp.contentRange == Format(Range(offset, end, |payload|))
    && Flatten(resp.body) <= payload[offset..end + 1]
    && (resp.length == -1 || resp.length == end + 1 - offset)
  }

  ghost predicate PrefixOf(w: Disk, payload: seq<byte>) {
    Part in w.files ==> w.files[Part] <= payload
  }

  /** The body is the whole rest of the payload. */
  ghost predicate Supplies(resp: Response, t: Transfer, payload: seq<byte>)
    requires resp.Response? && t.offset <= |payload|
  {
    Flatten(resp.body) == payload[t.offset..] && (t.segment == -1 || t.segment == |payload| - t.offset)
  }

  lemma ReceiveHonest(o: Oracle, w: Disk, t: Transfer, resp: Response, hash: Hasher, want: Digest, attempts: nat, payload: seq<byte>)
    requires resp.Response? && Fitting(w, t) && PrefixOf(w, payload) && hash(payload) == want
    requires t.offset <= |payload| && Flatten(resp.body) <= payload[t.offset..]
    requires t.total == |payload| || (t.total == -1 && !t.appending && (resp.clean ==> Flatten(resp.body) == payload))
    requires t.segment == -1 || |Flatten(resp.body)| <= t.segment
    ensures var (v, result) := Receive(o, w, t, resp, hash, want, attempts);
      && PrefixOf(v, payload) && (result.Done? || result.Retry? || result.Failed?)
      && (result.Done? ==> Dest in v.files && v.files[Dest] == payload)
      && (t.appending && !result.Done? ==> t.offset <= PartSize(v))
      && (w.alive && Healthy(o) && 0 < attempts ==> result.Done? || (result.Retry? && v.alive))
      && (w.alive && Healthy(o) && 0 < attempts && resp.clean && Supplies(resp, t, payload) ==> result.Done?)
      && (w.alive && Healthy(o) && t.appending && !result.Done? ==> PartSize(v) == t.offset + |Flatten(resp.body)|)
  {
    hide VerifyAndCommit, CopyBody, Flatten;
    var (w1, ready) := if t.appending then w.Check(o) else w.Replace(o, Part, []);
    if ready {
      CopyBodyOutcome(o, w1, t.offset, t.total, resp.body, resp.clean, resp.short, 0);
      var (w2, written, copied) := CopyBody(o, w1, t.offset, t.total, resp.body, resp.clean, resp.short, 0);
      assert w1.files[Part] == payload[..t.offset];
      RestOfPayload(payload, t.offset, Flatten(resp.body), w2.files[Part]);
      VerifyOutcome(o, w2.Check(o).0, hash, want, attempts);
    }
  }

  /** What an honest body appends to a prefix of the payload makes a prefix again. */
  lemma RestOfPayload(payload: seq<byte>, offset: nat, body: seq<byte>, part: seq<byte>)
    requires offset <= |payload| && body <= payload[offset..] && part <= payload[..offset] + body
    ensures part <= payload && (|part| == |payload| ==> part == payload)
    ensures body == payload[offset..] ==> payload[..offset] + body == payload
  {
    assert payload[..offset] + payload[offset..] == payload;
    assert payload[..offset] + body == payload[..offset + |body|];
  }

  /** The response that supplies what is missing, or says that nothing is. */
  ghost predicate Completes(resp: Response, offset: nat, payload: seq<byte>) {
    resp.Response? &&
      if resp.status == 200 then resp.clean && Flatten(resp.body) == payload
      else if resp.status == 206 then resp.clean && offset <= |payload| && Flatten(resp.body) == payload[offset..]
      else resp.status == 416 && offset > 0
  }

  /** A response that does not end the download for good. */
  predicate Retryable(resp: Response, offset: nat) {
    resp.Response? ==>
      || resp.status == 200 || resp.status == 206 || (resp.status == 416 && offset > 0)
      || resp.status == 408 || resp.status == 429 || resp.status >= 500
  }

  /** Whatever the attempt meets, the part file stays a prefix of the payload and
      no mismatch is reported. It shrinks only when the server answers with the
      whole payload from its start. An attempt that meets no failure and gets
      the rest of the payload is the last one. */
  lemma HonestAttempt(o: Oracle, w: Disk, resp: Response, hash: Hasher, want: Digest, attempts: nat, payload: seq<byte>)
    requires PrefixOf(w, payload) && hash(payload) == want && Honest(resp, PartSize(w), payload)
    ensures var (v, result) := Attempt(o, w, resp, hash, want, attempts);
      && PrefixOf(v, payload) && (result.Done? || result.Retry? || result.Failed?)
      && (result.Done? ==> Dest in v.files && v.files[Dest] == payload)
      && (!result.Done? && !(resp.Response? && resp.status == 200) ==> PartSize(w) <= PartSize(v))
      && (w.alive && Healthy(o) && 0 < attempts && Completes(resp, PartSize(w), payload) ==> result.Done?)
      && (w.alive && Healthy(o) && 0 < attempts && Retryable(resp, PartSize(w)) ==> result.Done? || (result.Retry? && v.alive))
  {
    hide VerifyAndCommit, Receive, ParseContentRange, Format, Flatten, Sends;
    var (w1, going) := w.Check(o);
    VerifyOutcome(o, w1, hash, want, attempts);
    var offset := PartSize(w1);
    if Part in w.files {
      assert |w.files[Part]| <= |payload|;
      assert |payload| <= offset ==> w.files[Part] == payload;
    }
    if going && resp.Response? {
      if resp.status == 200 {
        var (w2, verdict) := if offset > 0 && offset == resp.length
                             then VerifyAndCommit(o, w1, hash, want, attempts)
                             else (w1, Different);
        assert payload[0..] == payload;
        ReceiveHonest(o, w2, Transfer(false, 0, resp.length, resp.length), resp, hash, want, attempts, payload);
      } else if resp.status == 206 {
        var end :| offset <= end < |payload| && Sends(resp, offset, end, payload);
        PartialResponse(resp, offset, end, payload);
        ReceiveHonest(o, w1, Transfer(offset > 0, offset, end + 1 - offset, |payload|), resp, hash, want, attempts, payload);
      } else if resp.status == 416 {
        var (w2, verdict) := VerifyAndCommit(o, w1, hash, want, attempts);
        assert offset > 0 ==> Part in w1.files && w1.files[Part] == payload;
        assert offset > 0 ==> !verdict.Different?;
      }
    }
  }

  lemma PartialResponse(resp: Response, offset: nat, end: nat, payload: seq<byte>)
    requires resp.Response? && offset <= end < |payload| < INT64_LIMIT && Sends(resp, offset, end, payload)
    ensures ParseContentRange(resp.contentRange) == Some(Range(offset, end, |payload|))
    ensures Flatten(resp.body) <= payload[offset..] && |Flatten(resp.body)| <= end + 1 - offset
    ensures Flatten(resp.body) == payload[offset..] ==> end == |payload| - 1
    ensures resp.length == -1 || resp.length == end + 1 - offset
  {
    hide ParseContentRange, Format, Flatten;
    RoundTrip(Range(offset, end, |payload|));
    assert payload[offset..end + 1] == payload[offset..][..end + 1 - offset];
  }

  lemma {:induction false} HonestAttempts(o: Oracle, w: Disk, server: Server, hash: Hasher, want: Digest, attempts: nat,
                                          attempt: nat, limit: nat, requests: nat, payload: seq<byte>)
    requires attempt <= limit + 1 && PrefixOf(w, payload) && hash(payload) == want
    requires forall n, off :: Honest(server(n, off), off, payload)
    requires forall s :: hash(s) == want ==> s == payload
    ensures var r := Attempts(o, w, server, hash, want, attempts, attempt, limit, false, requests);
      && PrefixOf(r.w, payload) && r.requests <= requests + (limit + 1 - attempt)
      && (r.ok ==> Dest in r.w.files && r.w.files[Dest] == payload)
    decreases limit + 1 - attempt
  {
    hide VerifyAndCommit, Attempt, Honest;
    if attempt > limit {
      VerifyOutcome(o, w, hash, want, attempts);
    } else {
      var resp := server(requests, PartSize(w));
      HonestAttempt(o, w, resp, hash, want, attempts, payload);
      var (v, result) := Attempt(o, w, resp, hash, want, attempts);
      if result.Retry? {
        var (v1, slept) := if attempt < limit then v.Check(o) else (v, true);
        if slept {
          HonestAttempts(o, v1, server, hash, want, attempts, attempt + 1, limit, requests + 1, payload);
        }
      }
    }
  }

  /** From a part file that is a prefix of the payload, and a digest only the
      payload has, an honest server never causes a restart or a mismatch: a run
      ends with the payload in place, or with a prefix to resume from. */
  lemma HonestDownload(o: Oracle, w: Disk, server: Server, hash: Hasher, want: Digest, attempts: nat, maxAttempts: int, payload: seq<byte>)
    requires PrefixOf(w, payload) && hash(payload) == want
    requires forall n, off :: Honest(server(n, off), off, payload)
    requires forall s :: hash(s) == want ==> s == payload
    ensures var r := Download(o, w, server, hash, want, attempts, maxAttempts);
      && PrefixOf(r.w, payload) && r.requests <= (if maxAttempts < 1 then 1 else maxAttempts)
      && (r.ok ==> Dest in r.w.files && r.w.files[Dest] == payload)
  {
    HonestAttempts(o, w, server, hash, want, attempts, 1, if maxAttempts < 1 then 1 else maxAttempts, 0, payload);
  }

  /** A healthy run succeeds once one of its requests is answered with what is
      missing, if none before it is refused for good. */
  lemma {:induction false} HonestAttemptsSucceed(o: Oracle, w: Disk, server: Server, hash: Hasher, want: Digest, attempts: nat,
                                                 attempt: nat, limit: nat, requests: nat, payload: seq<byte>, k: nat)
    requires requests <= k < requests + limit + 1 - attempt && PrefixOf(w, payload) && hash(payload) == want
    requires w.alive && Healthy(o) && 0 < attempts
    requires forall n, off :: Honest(server(n, off), off, payload)
    requires forall n: nat, off: nat :: requests <= n < k && off <= |payload| ==> Retryable(server(n, off), off)
    requires forall off: nat :: off <= |payload| ==> Completes(server(k, off), off, payload)
    ensures var r := Attempts(o, w, server, hash, want, attempts, attempt, limit, false, requests);
      r.ok && r.requests <= k + 1
    decreases limit + 1 - attempt
  {
    hide VerifyAndCommit, Attempt, Honest, Completes, Retryable;
    var off := PartSize(w);
    var resp := server(requests, off);
    HonestAttempt(o, w, resp, hash, want, attempts, payload);
    var (v, result) := Attempt(o, w, resp, hash, want, attempts);
    if result.Done? {
      assert Attempts(o, w, server, hash, want, attempts, attempt, limit, false, requests) == Outcome(v, true, requests + 1);
    } else {
      assert requests < k && Retryable(resp, off);
      var v1 := if attempt < limit then v.Check(o).0 else v;
      HonestAttemptsSucceed(o, v1, server, hash, want, attempts, attempt + 1, limit, requests + 1, payload, k);
    }
  }

  lemma HonestDownloadSucceeds(o: Oracle, w: Disk, server: Server, hash: Hasher, want: Digest, attempts: nat, maxAttempts: int,
                               payload: seq<byte>, k: nat)
    requires PrefixOf(w, payload) && hash(payload) == want && w.alive && Healthy(o) && 0 < attempts
    requires k < if maxAttempts < 1 then 1 else maxAttempts
    requires forall n, off :: Honest(server(n, off), off, payload)
    requires forall s :: hash(s) == want ==> s == payload
    requires forall n: nat, off: nat :: n < k && off <= |payload| ==> Retryable(server(n, off), off)
    requires forall off: nat :: off <= |payload| ==> Completes(server(k, off), off, payload)
    ensures var r := Download(o, w, server, hash, want, attempts, maxAttempts);
      r.ok && r.requests <= k + 1 && Dest in r.w.files && r.w.files[Dest] == payload
  {
    hide Attempts, Honest, Completes, Retryable;
    HonestAttemptsSucceed(o, w, server, hash, want, attempts, 1, if maxAttempts < 1 then 1 else maxAttempts, 0, payload, k);
    HonestDownload(o, w, server, hash, want, attempts, maxAttempts, payload);
  }

  // ---- Starting from anything -------------------------------------------------------------------

  /** A server that answers every request with what is missing from it. */
  ghost predicate Supplier(server: Server, payload: seq<byte>) {
    forall n: nat, off: nat :: Honest(server(n, off), off, payload) && Completes(server(n, off), off, payload)
  }

  /** Whatever the part file holds, the payload arrives, or what does not fit is
      dropped for a clean restart. */
  lemma AttemptFromAnything(o: Oracle, w: Disk, resp: Response, hash: Hasher, want: Digest, attempts: nat, payload: seq<byte>)
    requires hash(payload) == want && (forall s :: hash(s) == want ==> s == payload)
    requires w.alive && Healthy(o) && 0 < attempts
    requires Honest(resp, PartSize(w), payload) && Completes(resp, PartSize(w), payload)
    ensures var (v, result) := Attempt(o, w, resp, hash, want, attempts);
      || (result.Done? && Dest in v.files && v.files[Dest] == payload)
      || (result.CleanRestart? && v.alive && Part in v.files && v.files[Part] == [] && !PrefixOf(w, payload))
  {
    hide VerifyAndCommit, Receive, ParseContentRange, Format, Flatten, Sends;
    if PrefixOf(w, payload) {
      HonestAttempt(o, w, resp, hash, want, attempts, payload);
    } else {
      var w1 := w.Check(o).0;
      var offset := PartSize(w1);
      VerifyOutcome(o, w1, hash, want, attempts);
      if resp.status == 200 {
        var w2 := if offset > 0 && offset == resp.length then VerifyAndCommit(o, w1, hash, want, attempts).0 else w1;
        VerifyIsAlive(o, w1, hash, want, attempts);
        assert payload[0..] == payload;
        ReceiveFromStart(o, w2, Transfer(false, 0, resp.length, resp.length), resp, hash, want, attempts, payload);
      } else if resp.status == 206 {
        var end :| offset <= end < |payload| && Sends(resp, offset, end, payload);
        PartialResponse(resp, offset, end, payload);
        ReceiveMismatch(o, w1, Transfer(true, offset, end + 1 - offset, |payload|), resp, hash, want, attempts, payload);
      } else {
        VerifyIsAlive(o, w1, hash, want, attempts);
        assert resp.status == 416 && offset > 0;
        var (w2, verdict) := VerifyAndCommit(o, w1, hash, want, attempts);
        assert verdict.Different? by {
          assert w.files[Part] == payload ==> PrefixOf(w, payload);
        }
        assert Attempt(o, w, resp, hash, want, attempts) == Reset(o, w2, CleanRestart);
      }
    }
  }

  lemma VerifyIsAlive(o: Oracle, w: Disk, hash: Hasher, want: Digest, attempts: nat)
    requires w.alive && Healthy(o) && 0 < attempts
    ensures var (v, verdict) := VerifyAndCommit(o, w, hash, want, attempts);
      && v.alive
      && (verdict.Committed? <==> Part in w.files && hash(w.files[Part]) == want)
      && (!verdict.Committed? ==> verdict.Different? && v.files == w.files)
  {
  }

  /** A full response replaces whatever the part file held. */
  lemma ReceiveFromStart(o: Oracle, w: Disk, t: Transfer, resp: Response, hash: Hasher, want: Digest, attempts: nat, payload: seq<byte>)
    requires resp.Response? && resp.clean && Flatten(resp.body) == payload && hash(payload) == want
    requires !t.appending && t.offset == 0 && (t.segment == -1 || t.segment == |payload|) && (t.total == -1 || t.total == |payload|)
    requires w.alive && Healthy(o) && 0 < attempts
    ensures var (v, result) := Receive(o, w, t, resp, hash, want, attempts);
      result.Done? && Dest in v.files && v.files[Dest] == payload
  {
    hide VerifyAndCommit, CopyBody, Flatten;
    var w1 := w.Replace(o, Part, []).0;
    CopyBodyOutcome(o, w1, 0, t.total, resp.body, resp.clean, resp.short, 0);
    var (w2, written, copied) := CopyBody(o, w1, 0, t.total, resp.body, resp.clean, resp.short, 0);
    assert copied.Whole? && w2.files[Part] == [] + payload == payload;
    VerifyIsAlive(o, w2.Check(o).0, hash, want, attempts);
    VerifyOutcome(o, w2.Check(o).0, hash, want, attempts);
  }

  /** What is missing, appended to something else, is recognised, dropped and
      fetched again from the start. */
  lemma ReceiveMismatch(o: Oracle, w: Disk, t: Transfer, resp: Response, hash: Hasher, want: Digest, attempts: nat, payload: seq<byte>)
    requires resp.Response? && resp.clean && Part in w.files && !(w.files[Part] <= payload) && hash(payload) == want
    requires t.appending && t.offset == |w.files[Part]| <= |payload| && t.total == |payload| && Flatten(resp.body) == payload[t.offset..]
    requires t.segment == |payload| - t.offset && (forall s :: hash(s) == want ==> s == payload)
    requires w.alive && Healthy(o) && 0 < attempts
    ensures var (v, result) := Receive(o, w, t, resp, hash, want, attempts);
      result.CleanRestart? && v.alive && Part in v.files && v.files[Part] == []
  {
    hide VerifyAndCommit, CopyBody, Flatten;
    var w1 := w.Check(o).0;
    CopyBodyOutcome(o, w1, t.offset, t.total, resp.body, resp.clean, resp.short, 0);
    var (w2, written, copied) := CopyBody(o, w1, t.offset, t.total, resp.body, resp.clean, resp.short, 0);
    assert copied.Whole? && w2.files[Part] == w.files[Part] + payload[t.offset..];
    assert w2.files[Part][..t.offset] == w.files[Part];
    assert w2.files[Part] != payload && |w2.files[Part]| == |payload|;
    var w3 := w2.Check(o).0;
    assert PartSize(w3) == t.total && written == t.segment;
    VerifyIsAlive(o, w3, hash, want, attempts);
    assert hash(w3.files[Part]) != want;
    var (w4, verdict) := VerifyAndCommit(o, w3, hash, want, attempts);
    assert verdict.Different? && Receive(o, w, t, resp, hash, want, attempts) == Reset(o, w4, CleanRestart);
  }

  /** From any part file at all, without faults, at most two requests bring the
      payload: one to find that the part is not of it, one from the start. */
  lemma StalePartIsReplaced(o: Oracle, w: Disk, server: Server, hash: Hasher, want: Digest, attempts: nat, maxAttempts: int, payload: seq<byte>)
    requires hash(payload) == want && (forall s :: hash(s) == want ==> s == payload)
    requires w.alive && Healthy(o) && 0 < attempts && Supplier(server, payload)
    ensures var r := Download(o, w, server, hash, want, attempts, maxAttempts);
      && r.ok && Dest in r.w.files && r.w.files[Dest] == payload
      && r.requests <= if PrefixOf(w, payload) then 1 else 2
  {
    hide Attempt, Honest, Completes;
    var limit: nat := if maxAttempts < 1 then 1 else maxAttempts;
    AttemptFromAnything(o, w, server(0, PartSize(w)), hash, want, attempts, payload);
    var (v, result) := Attempt(o, w, server(0, PartSize(w)), hash, want, attempts);
    if result.CleanRestart? {
      AttemptFromAnything(o, v, server(1, PartSize(v)), hash, want, attempts, payload);
      assert Download(o, w, server, hash, want, attempts, maxAttempts)
          == Attempts(o, v, server, hash, want, attempts, 1, limit, true, 1);
    }
  }

  // ---- The operations as the launcher runs them -------------------------------------------------

  method RenameDownloadedPart(m: Machine<Name, seq<byte>>, attempts: nat) returns (ok: bool)
    modifies m
    ensures (m.View(), ok) == CommitRename(m.oracle, old(m.View()), attempts)
  {
    var attempt := 0;
    while attempt < attempts
      invariant attempt <= attempts
      invariant CommitRename(m.oracle, m.View(), attempts - attempt) == CommitRename(m.oracle, old(m.View()), attempts)
    {
      var going := m.Pass();
      if !going {
        return false;
      }
      var renamed := m.RenameFile(Part, Dest);
      if renamed {
        return true;
      }
      var again := m.Pass();
      if !again {
        return false;
      }
      attempt := attempt + 1;
    }
    return false;
  }

  method VerifyAndCommitPart(m: Machine<Name, seq<byte>>, hash: Hasher, want: Digest, attempts: nat) returns (verdict: Verdict)
    modifies m
    ensures (m.View(), verdict) == VerifyAndCommit(m.oracle, old(m.View()), hash, want, attempts)
  {
    var read := m.Pass();
    if !read {
      return Unable;
    }
    if Part !in m.files || hash(m.files[Part]) != want {
      return Different;
    }
    var ok := RenameDownloadedPart(m, attempts);
    return if ok then Committed else Unable;
  }

  method AppendChunk(m: Machine<Name, seq<byte>>, chunk: seq<byte>, short: nat) returns (count: nat, ok: bool)
    modifies m
    ensures (m.View(), count, ok) == Append(m.oracle, old(m.View()), chunk, short)
  {
    var running := m.alive;
    ok := m.Pass();
    count := if ok then |chunk| else if running then Least(short, |chunk|) else 0;
    if running {
      m.files := m.files[Part := (if Part in m.files then m.files[Part] else []) + chunk[..count]];
    }
  }

  method CopyDownloadBody(m: Machine<Name, seq<byte>>, offset: nat, total: int, body: seq<seq<byte>>, clean: bool, short: nat)
    returns (written: nat, copied: Copied)
    modifies m
    ensures (m.View(), written, copied) == CopyBody(m.oracle, old(m.View()), offset, total, body, clean, short, 0)
  {
    hide Append;
    written := 0;
    var next := 0;
    assert body[0..] == body;
    while true
      invariant next <= |body|
      invariant CopyBody(m.oracle, m.View(), offset, total, body[next..], clean, short, written)
             == CopyBody(m.oracle, old(m.View()), offset, total, body, clean, short, 0)
      decreases |body| - next
    {
      var going := m.Pass();
      if !going {
        return written, Refused;
      }
      if next == |body| {
        return written, if clean then Whole else Broken;
      }
      var chunk := body[next];
      assert body[next..][0] == chunk && body[next..][1..] == body[next + 1..];
      if |chunk| > 0 {
        if total >= 0 && |chunk| > total - offset - written {
          return written, Refused;
        }
        var count, ok := AppendChunk(m, chunk, short);
        written := written + count;
        if !ok {
          return written, Refused;
        }
      }
      next := next + 1;
    }
  }

  method ResetPartialFile(m: Machine<Name, seq<byte>>, result: Result) returns (r: Result)
    modifies m
    ensures (m.View(), r) == Reset(m.oracle, old(m.View()), result)
  {
    var ok := m.Replace(Part, []);
    return if ok then result else Failed;
  }

  method DownloadAttempt(m: Machine<Name, seq<byte>>, resp: Response, hash: Hasher, want: Digest, attempts: nat)
    returns (r: Result)
    modifies m
    ensures (m.View(), r) == Attempt(m.oracle, old(m.View()), resp, hash, want, attempts)
  {
    var going := m.Pass();
    if !going {
      return Failed;
    }
    var offset := if Part in m.files then |m.files[Part]| else 0;
    if resp.NoResponse? {
      var uncancelled := m.Pass();
      return if uncancelled then Retry else Failed;
    }
    var appending := false;
    var segment, total := resp.length, resp.length;
    if resp.status == 200 {
      if offset > 0 && offset == resp.length {
        var verdict := VerifyAndCommitPart(m, hash, want, attempts);
        if !verdict.Different? {
          return if verdict.Committed? then Done else Failed;
        }
      }
      offset := 0;
    } else if resp.status == 206 {
      var range := ParseContentRange(resp.contentRange);
      if !ValidRange(range, offset) {
        r := ResetPartialFile(m, Retry);
        return;
      }
      segment := range.value.end - range.value.start + 1;
      if resp.length >= 0 && resp.length != segment {
        r := ResetPartialFile(m, Retry);
        return;
      }
      total := range.value.total;
      appending := offset > 0;
    } else if resp.status == 416 {
      if offset == 0 {
        return Failed;
      }
      var verdict := VerifyAndCommitPart(m, hash, want, attempts);
      if !verdict.Different? {
        return if verdict.Committed? then Done else Failed;
      }
      r := ResetPartialFile(m, CleanRestart);
      return;
    } else {
      return if resp.status == 408 || resp.status == 429 || resp.status >= 500 then Retry else Failed;
    }
    r := ReceiveBody(m, Transfer(appending, offset, segment, total), resp, hash, want, attempts);
  }

  method ReceiveBody(m: Machine<Name, seq<byte>>, t: Transfer, resp: Response, hash: Hasher, want: Digest, attempts: nat)
    returns (r: Result)
    requires resp.Response?
    modifies m
    ensures (m.View(), r) == Receive(m.oracle, old(m.View()), t, resp, hash, want, attempts)
  {
    hide CopyBody, Conclude;
    var ready;
    if t.appending {
      ready := m.Pass();
    } else {
      ready := m.Replace(Part, []);
    }
    if !ready {
      return Failed;
    }
    var written, copied := CopyDownloadBody(m, t.offset, t.total, resp.body, resp.clean, resp.short);
    var flushed := m.Pass();
    if !flushed || copied.Refused? {
      return Failed;
    }
    if copied.Broken? {
      return Retry;
    }
    r := ConcludeTransfer(m, t, written, hash, want, attempts);
  }

  method ConcludeTransfer(m: Machine<Name, seq<byte>>, t: Transfer, written: nat, hash: Hasher, want: Digest, attempts: nat)
    returns (r: Result)
    modifies m
    ensures (m.View(), r) == Conclude(m.oracle, old(m.View()), t, written, hash, want, attempts)
  {
    hide VerifyAndCommit;
    if t.segment >= 0 && written != t.segment {
      return Retry;
    }
    var size := if Part in m.files then |m.files[Part]| else 0;
    if t.total >= 0 && size != t.total {
      if size > t.total {
        r := ResetPartialFile(m, Retry);
        return;
      }
      return Retry;
    }
    var verdict := VerifyAndCommitPart(m, hash, want, attempts);
    if !verdict.Different? {
      return if verdict.Committed? then Done else Failed;
    }
    if t.appending {
      r := ResetPartialFile(m, CleanRestart);
      return;
    }
    var _ := m.Remove(Part);
    return Mismatch;
  }

  method DownloadVerified(m: Machine<Name, seq<byte>>, server: Server, hash: Hasher, want: Digest, attempts: nat, maxAttempts: int)
    returns (ok: bool, requests: nat)
    modifies m
    ensures Outcome(m.View(), ok, requests)
         == Download(m.oracle, old(m.View()), server, hash, want, attempts, maxAttempts)
  {
    hide Attempt, VerifyAndCommit;
    var limit: nat := if maxAttempts < 1 then 1 else maxAttempts;
    requests := 0;
    var restarted := false;
    var attempt := 1;
    while attempt <= limit
      invariant attempt <= limit + 1
      invariant Attempts(m.oracle, m.View(), server, hash, want, attempts, attempt, limit, restarted, requests)
             == Download(m.oracle, old(m.View()), server, hash, want, attempts, maxAttempts)
      decreases limit + 1 - attempt, !restarted
    {
      var resp := server(requests, if Part in m.files then |m.files[Part]| else 0);
      var r := DownloadAttempt(m, resp, hash, want, attempts);
      requests := requests + 1;
      match r {
        case Done =>
          return true, requests;
        case CleanRestart =>
          if restarted {
            return false, requests;
          }
          restarted := true;
        case Retry =>
          if attempt < limit {
            var slept := m.Pass();
            if !slept {
              return false, requests;
            }
          }
          attempt := attempt + 1;
        case _ =>
          return false, requests;
      }
    }
    if Part in m.files && |m.files[Part]| > 0 {
      var verdict := VerifyAndCommitPart(m, hash, want, attempts);
      return verdict.Committed?, requests;
    }
    return false, requests;
  }
}

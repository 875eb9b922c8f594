// The receipt of a verified install (install_state.go), and the file times a
// restore gives back so that the receipt still counts (restampReceiptTimes in
// backup.go). The receipt's text and the normal form of a digest are parameters.
module InstallReceipt {
  import opened Wrappers
  import opened Bytes
  import opened Strings
  import opened FaultyFs

  const RECEIPT := "install-state.json"
  const RECEIPT_PART := "install-state.json.part"
  const RECEIPT_LIMIT := 0x10_0000
  const RECEIPT_VERSION := 1

  datatype FileState = FileState(content: seq<byte>, regular: bool, time: int)

  type Folder = map<string, FileState>

  datatype Artifact = Artifact(sha: string, size: int, time: int)

  datatype Receipt = Receipt(version: int, release: string, manifest: string, files: map<string, Artifact>)

  datatype Text = Text(parse: seq<byte> -> Option<Receipt>, format: Receipt -> seq<byte>, normal: string -> string) {
    ghost predicate Lossless() {
      forall r: Receipt :: parse(format(r)) == Some(r)
    }
  }

  predicate ValidSHA256(s: string) {
    |s| == 64 && forall i :: 0 <= i < |s| ==> '0' <= s[i] <= '9' || 'a' <= s[i] <= 'f' || 'A' <= s[i] <= 'F'
  }

  // ---- Releases ----------------------------------------------------------------------------

  const HOST := "https://github.com/"
  const DOWNLOADS := "/try-omarchy-windows/releases/download/"
  const LEGACY := HOST + "tsouth89" + DOWNLOADS
  const TRANSFERRED := HOST + "omacom" + DOWNLOADS

  function NormalRelease(release: string): string {
    TrimRight(TrimRight(TrimLeft(release, c => IsSpace(c)), c => IsSpace(c)), c => c == '/')
  }

  predicate Equivalent(first: string, second: string) {
    var a, b := NormalRelease(first), NormalRelease(second);
    || a == b
    || Transfer(a, b)
    || Transfer(b, a)
  }

  /** The tag of a legacy location is the tag of a transferred one. */
  predicate Transfer(a: string, b: string) {
    var legacyTag, transferredTag := TrimPrefix(a, LEGACY), TrimPrefix(b, TRANSFERRED);
    legacyTag != a && transferredTag != b && legacyTag != "" && legacyTag == transferredTag
  }

  /** Where a release is found today. */
  function Location(release: string): string {
    var a := NormalRelease(release);
    if LEGACY <= a && a != LEGACY then TRANSFERRED + a[|LEGACY|..] else a
  }

  /** Two releases are equivalent exactly when they are found at one location,
      so equivalence is reflexive, symmetric and transitive. */
  lemma EquivalentIff(first: string, second: string)
    ensures Equivalent(first, second) <==> Location(first) == Location(second)
  {
    hide NormalRelease;
    var a, b := NormalRelease(first), NormalRelease(second);
    TransferIff(a, b);
    TransferIff(b, a);
    BasesDiffer(a);
    BasesDiffer(b);
    if LEGACY <= a && a != LEGACY && LEGACY <= b && b != LEGACY && Location(first) == Location(second) {
      assert a == LEGACY + a[|LEGACY|..] && b == LEGACY + b[|LEGACY|..];
      assert Location(first)[|TRANSFERRED|..] == a[|LEGACY|..];
      assert Location(second)[|TRANSFERRED|..] == b[|LEGACY|..];
    }
  }

  lemma TransferIff(a: string, b: string)
    ensures Transfer(a, b) <==> LEGACY <= a && a != LEGACY && b == TRANSFERRED + a[|LEGACY|..]
  {
    hide LEGACY, TRANSFERRED;
    BasesNotEmpty();
    if TRANSFERRED <= b {
      assert b == TRANSFERRED + b[|TRANSFERRED|..];
    }
    if LEGACY <= a {
      assert a == LEGACY + a[|LEGACY|..];
    }
  }

  lemma BasesNotEmpty()
    ensures |LEGACY| > 0 && |TRANSFERRED| > 0
  {
  }

  lemma BasesDiffer(s: string)
    ensures !(LEGACY <= s && TRANSFERRED <= s)
  {
    hide HOST, DOWNLOADS;
    var at := |HOST|;
    assert LEGACY[at] == "tsouth89"[0] && TRANSFERRED[at] == "omacom"[0];
  }

  // ---- Matching and writing ------------------------------------------------------------------

  function ReadReceipt(t: Text, folder: Folder): Option<Receipt> {
    if RECEIPT in folder && |folder[RECEIPT].content| <= RECEIPT_LIMIT then t.parse(folder[RECEIPT].content) else None
  }

  /** A file is as the receipt recorded it, as far as size and time tell. */
  predicate AsRecorded(folder: Folder, name: string, e: Artifact) {
    name in folder && folder[name].regular && |folder[name].content| == e.size && folder[name].time == e.time
  }

  predicate ArtifactMatches(folder: Folder, r: Receipt, name: string) {
    name in r.files && ValidSHA256(r.files[name].sha) && AsRecorded(folder, name, r.files[name])
  }

  ghost predicate Trusted(t: Text, r: Receipt, release: string, manifest: string) {
    r.version == RECEIPT_VERSION && Equivalent(r.release, release) && r.manifest == t.normal(manifest)
  }

  ghost predicate Matches(t: Text, folder: Folder, release: string, manifest: string, names: seq<string>) {
    var r := ReadReceipt(t, folder);
    && r.Some? && Trusted(t, r.value, release, manifest)
    && forall k :: 0 <= k < |names| ==> ArtifactMatches(folder, r.value, names[k])
  }

  method InstallReceiptMatches(t: Text, folder: Folder, release: string, manifest: string, names: seq<string>) returns (ok: bool)
    ensures ok <==> Matches(t, folder, release, manifest, names)
  {
    hide Equivalent, ArtifactMatches;
    var r := ReadReceipt(t, folder);
    if r.None? || r.value.version != RECEIPT_VERSION || !Equivalent(r.value.release, release) || r.value.manifest != t.normal(manifest) {
      return false;
    }
    var k := 0;
    while k < |names|
      invariant k <= |names| && forall i :: 0 <= i < k ==> ArtifactMatches(folder, r.value, names[i])
    {
      if !ArtifactMatches(folder, r.value, names[k]) {
        return false;
      }
      k := k + 1;
    }
    ok := true;
  }

  /** A plain file name: one that filepath.Base leaves as it is. */
  predicate Plain(name: string) {
    && name != "" && name != "." && !(|name| >= 2 && name[1] == ':')
    && forall i :: 0 <= i < |name| ==> name[i] != '/' && name[i] != '\\'
  }

  predicate Recordable(t: Text, folder: Folder, sums: map<string, string>, name: string) {
    Plain(name) && name in sums && ValidSHA256(t.normal(sums[name])) && name in folder && folder[name].regular
  }

  function Recorded(t: Text, folder: Folder, sums: map<string, string>, name: string): Artifact
    requires Recordable(t, folder, sums, name)
  {
    Artifact(t.normal(sums[name]), |folder[name].content|, folder[name].time)
  }

  /** A receipt for the folder as it is. */
  ghost predicate IsReceiptOf(t: Text, folder: Folder, release: string, manifest: string, names: seq<string>, sums: map<string, string>, r: Receipt) {
    && r.version == RECEIPT_VERSION && r.release == NormalRelease(release) && r.manifest == t.normal(manifest)
    && forall k :: 0 <= k < |names| ==>
         Recordable(t, folder, sums, names[k]) && names[k] in r.files && r.files[names[k]] == Recorded(t, folder, sums, names[k])
  }

  /** What there is to record, if everything can be. */
  method CollectReceipt(t: Text, folder: Folder, release: string, manifest: string, names: seq<string>, sums: map<string, string>)
    returns (r: Option<Receipt>)
    ensures r.Some? ==> IsReceiptOf(t, folder, release, manifest, names, sums, r.value)
    ensures r.Some? <==> ValidSHA256(t.normal(manifest)) && forall k :: 0 <= k < |names| ==> Recordable(t, folder, sums, names[k])
  {
    hide Plain, ValidSHA256, NormalRelease;
    if !ValidSHA256(t.normal(manifest)) {
      return None;
    }
    var files: map<string, Artifact> := map[];
    var k := 0;
    while k < |names|
      invariant k <= |names|
      invariant forall i :: 0 <= i < k ==>
                  Recordable(t, folder, sums, names[i]) && names[i] in files && files[names[i]] == Recorded(t, folder, sums, names[i])
    {
      if !Recordable(t, folder, sums, names[k]) {
        return None;
      }
      files := files[names[k] := Recorded(t, folder, sums, names[k])];
      k := k + 1;
    }
    return Some(Receipt(RECEIPT_VERSION, NormalRelease(release), t.normal(manifest), files));
  }

  // Through the sibling part file, which is removed when a step fails.
  function StoreReceipt(o: Oracle, w: World<string, FileState>, text: FileState): (World<string, FileState>, bool) {
    var (w, created) := w.Replace(o, RECEIPT_PART, text.(content := []));
    if !created then (w, false) else FillReceipt(o, w, text)
  }

  function FillReceipt(o: Oracle, w: World<string, FileState>, text: FileState): (World<string, FileState>, bool) {
    var (w, filled) := w.Replace(o, RECEIPT_PART, text);
    if !filled then (w.Remove(o, RECEIPT_PART).0, false) else
    var (w, flushed) := w.Check(o);
    if !flushed then (w.Remove(o, RECEIPT_PART).0, false) else
    var (w, renamed) := w.RenameFile(o, RECEIPT_PART, RECEIPT);
    if !renamed then (w.Remove(o, RECEIPT_PART).0, false) else (w, true)
  }

  lemma PartIsNotReceipt()
    ensures RECEIPT_PART != RECEIPT
  {
    assert |RECEIPT_PART| != |RECEIPT|;
  }

  /** In every crash state the receipt is the old one or the whole new one, and
      success means the new one; no other file changes but the part file. */
  lemma StoreOutcome(o: Oracle, w: World<string, FileState>, text: FileState)
    ensures var (v, ok) := StoreReceipt(o, w, text);
      && (if ok then RECEIPT in v.files && v.files[RECEIPT] == text else Same(w.files, v.files, RECEIPT))
      && (forall name :: name != RECEIPT && name != RECEIPT_PART ==> Same(w.files, v.files, name))
      && (w.alive && Healthy(o) ==> ok && RECEIPT_PART !in v.files)
  {
    PartIsNotReceipt();
    hide RECEIPT, RECEIPT_PART, FillReceipt;
    var (w1, created) := w.Replace(o, RECEIPT_PART, text.(content := []));
    OnlyPartDiffers(w.files, w1.files);
    if created {
      FillOutcome(o, w1, text);
      var v := FillReceipt(o, w1, text).0;
      forall name | name != RECEIPT && name != RECEIPT_PART ensures Same(w.files, v.files, name) {
        assert Same(w1.files, v.files, name);
      }
    }
  }

  lemma FillOutcome(o: Oracle, w: World<string, FileState>, text: FileState)
    ensures var (v, ok) := FillReceipt(o, w, text);
      && (if ok then RECEIPT in v.files && v.files[RECEIPT] == text else Same(w.files, v.files, RECEIPT))
      && (forall name :: name != RECEIPT && name != RECEIPT_PART ==> Same(w.files, v.files, name))
      && (w.alive && Healthy(o) ==> ok && RECEIPT_PART !in v.files)
  {
    PartIsNotReceipt();
    hide RECEIPT, RECEIPT_PART;
    var (w1, filled) := w.Replace(o, RECEIPT_PART, text);
    var (w2, flushed) := w1.Check(o);
    var w3 := (if filled then w2 else w1).Remove(o, RECEIPT_PART).0;
    if filled && flushed {
      var (w4, renamed) := w2.RenameFile(o, RECEIPT_PART, RECEIPT);
      if renamed {
        assert w4.files == (w2.files - {RECEIPT_PART})[RECEIPT := text];
        OnlyPartDiffers(w.files[RECEIPT := text], w4.files);
      } else {
        OnlyPartDiffers(w.files, w4.Remove(o, RECEIPT_PART).0.files);
      }
    } else {
      OnlyPartDiffers(w.files, w3.files);
    }
  }

  lemma OnlyPartDiffers(f: map<string, FileState>, g: map<string, FileState>)
    requires f - {RECEIPT_PART} == g - {RECEIPT_PART}
    ensures forall name :: name != RECEIPT_PART ==> Same(f, g, name)
  {
    hide RECEIPT_PART;
    forall name | name != RECEIPT_PART ensures Same(f, g, name) {
      assert name in f <==> name in f - {RECEIPT_PART};
      assert name in g <==> name in g - {RECEIPT_PART};
    }
  }

  /** Writing a receipt for a folder, on a filesystem that can fail or die. */
  method WriteInstallReceipt(m: Machine<string, FileState>, t: Text, release: string, manifest: string, names: seq<string>,
                             sums: map<string, string>, time: int)
    returns (r: Option<Receipt>)
    modifies m
    ensures r.Some? ==>
              && IsReceiptOf(t, old(m.files), release, manifest, names, sums, r.value)
              && RECEIPT in m.files && m.files[RECEIPT] == FileState(t.format(r.value), true, time)
    ensures r.None? ==> Same(old(m.files), m.files, RECEIPT)
    ensures forall name :: name != RECEIPT && name != RECEIPT_PART ==> Same(old(m.files), m.files, name)
    ensures old(m.alive) && Healthy(m.oracle) ==>
              (r.Some? <==> ValidSHA256(t.normal(manifest)) && forall k :: 0 <= k < |names| ==> Recordable(t, old(m.files), sums, names[k]))
  {
    hide IsReceiptOf, Recordable, ValidSHA256;
    r := CollectReceipt(t, m.files, release, manifest, names, sums);
    if r.None? {
      return;
    }
    var text := FileState(t.format(r.value), true, time);
    StoreOutcome(m.oracle, m.View(), text);
    var ok := StoreReceiptFile(m, text);
    if !ok {
      r := None;
    }
  }

  method StoreReceiptFile(m: Machine<string, FileState>, text: FileState) returns (ok: bool)
    modifies m
    ensures (m.View(), ok) == StoreReceipt(m.oracle, old(m.View()), text)
  {
    hide RECEIPT, RECEIPT_PART;
    ok := m.Replace(RECEIPT_PART, text.(content := []));
    if !ok {
      return;
    }
    ok := m.Replace(RECEIPT_PART, text);
    if ok {
      ok := m.Pass();
    }
    if ok {
      ok := m.RenameFile(RECEIPT_PART, RECEIPT);
    }
    if !ok {
      var _ := m.Remove(RECEIPT_PART);
    }
  }

  ghost predicate Unchanged(before: Folder, later: Folder, name: string) {
    && name in before && name in later && later[name].regular
    && |later[name].content| == |before[name].content| && later[name].time == before[name].time
  }

  /** A receipt written for a folder matches a later state of it exactly when no
      named file changed its size or time, its text is not too long, and the
      release keeps its normal form. */
  lemma WrittenReceiptMatchesIff(t: Text, before: Folder, later: Folder, release: string, manifest: string,
                                 names: seq<string>, sums: map<string, string>, r: Receipt)
    requires t.Lossless() && IsReceiptOf(t, before, release, manifest, names, sums, r)
    requires RECEIPT in later && later[RECEIPT].content == t.format(r)
    ensures Matches(t, later, release, manifest, names) <==>
            && |t.format(r)| <= RECEIPT_LIMIT && Equivalent(NormalRelease(release), release)
            && forall k :: 0 <= k < |names| ==> Unchanged(before, later, names[k])
  {
    hide Equivalent, NormalRelease, Plain, ValidSHA256;
    if |t.format(r)| <= RECEIPT_LIMIT {
      assert ReadReceipt(t, later) == Some(r);
      forall k | 0 <= k < |names| ensures ArtifactMatches(later, r, names[k]) <==> Unchanged(before, later, names[k]) {
        assert Recordable(t, before, sums, names[k]);
      }
    }
  }

  /** Trimming once is not always enough: a space before the final slash is left
      over, and a receipt written for such a release does not match it. */
  lemma NormalFormCanMove()
    ensures !Equivalent(NormalRelease("v1 /"), "v1 /")
  {
    var space, slash := (c: char) => IsSpace(c), (c: char) => c == '/';
    assert TrimLeft("v1 /", space) == "v1 /" && TrimRight("v1 /", space) == "v1 /";
    assert "v1 /"[..3] == "v1 ";
    assert TrimRight("v1 /", slash) == TrimRight("v1 ", slash) == "v1 ";
    assert NormalRelease("v1 /") == "v1 ";
    assert TrimLeft("v1 ", space) == "v1 ";
    assert "v1 "[..2] == "v1";
    assert TrimRight("v1 ", space) == TrimRight("v1", space) == "v1";
    assert NormalRelease("v1 ") == "v1";
  }

  // ---- Restoring the times -----------------------------------------------------------------

  predicate Restampable(f: FileState, e: Artifact) {
    e.time != 0 && f.regular && |f.content| == e.size
  }

  function RestampedFile(f: FileState, e: Artifact): FileState {
    if Restampable(f, e) then f.(time := e.time) else f
  }

  function Restamped(folder: Folder, files: map<string, Artifact>): Folder {
    map name | name in folder :: if name in files then RestampedFile(folder[name], files[name]) else folder[name]
  }

  function RestampReceiptTimes(t: Text, folder: Folder): Folder {
    match ReadReceipt(t, folder)
    case None => folder
    case Some(r) => Restamped(folder, r.files)
  }

  /** The recorded files in any order; a time that cannot be set stops it. */
  method RestampFiles(folder: Folder, files: map<string, Artifact>, broken: string -> bool) returns (result: Folder, ok: bool)
    ensures ok ==> result == Restamped(folder, files)
    ensures result.Keys == folder.Keys
    ensures forall name :: name in folder ==> result[name] == folder[name] || result[name] == Restamped(folder, files)[name]
    ensures (forall name :: !broken(name)) ==> ok
  {
    result := folder;
    var todo := files.Keys;
    while todo != {}
      invariant todo <= files.Keys && result.Keys == folder.Keys
      invariant forall name :: name in folder ==>
                  result[name] == if name in files && name !in todo then RestampedFile(folder[name], files[name]) else folder[name]
      decreases |todo|
    {
      var name :| name in todo;
      todo := todo - {name};
      if name in result && Restampable(result[name], files[name]) {
        if broken(name) {
          return result, false;
        }
        result := result[name := RestampedFile(result[name], files[name])];
      }
    }
    ok := true;
  }

  /** A folder restored from a backup: the same regular files, with other times. */
  ghost predicate RestoredFrom(before: Folder, restored: Folder) {
    && restored.Keys == before.Keys
    && forall name :: name in before ==> restored[name].content == before[name].content && restored[name].regular
  }

  /** A receipt that matched when the backup was taken matches again in the
      restored folder exactly when no named file was recorded with time zero,
      or such a file happens to have it. */
  lemma RestoredReceiptMatchesIff(t: Text, before: Folder, restored: Folder, release: string, manifest: string, names: seq<string>)
    requires Matches(t, before, release, manifest, names) && RestoredFrom(before, restored)
    ensures var r := ReadReceipt(t, before).value;
      Matches(t, RestampReceiptTimes(t, restored), release, manifest, names) <==>
      forall k :: 0 <= k < |names| ==> r.files[names[k]].time != 0 || restored[names[k]].time == 0
  {
    hide Trusted, ValidSHA256;
    var r, after := ReadReceipt(t, before).value, RestampReceiptTimes(t, restored);
    assert ReadReceipt(t, restored) == Some(r);
    assert ReadReceipt(t, after) == Some(r);
    forall k | 0 <= k < |names|
      ensures ArtifactMatches(after, r, names[k]) <==> r.files[names[k]].time != 0 || restored[names[k]].time == 0
    {
      assert ArtifactMatches(before, r, names[k]);
    }
  }

  // ---- Checking a file ---------------------------------------------------------------------

  /** What a look at a file shows. */
  datatype Look = Look(regular: bool, size: nat, time: int)

  datatype Check = Differs | Agrees | NotChecked

  /** Hashing a file piece by piece between two looks at it: it agrees exactly
      when all the bytes read have the wanted digest and it did not change. */
  method VerifyFileSHA256(t: Text, sha: seq<byte> -> string, want: string, before: Option<Look>,
                          pieces: seq<seq<byte>>, readFails: bool, after: Look) returns (r: Check)
    ensures r.Agrees? <==>
            && ValidSHA256(t.normal(want)) && before.Some? && before.value.regular && !readFails
            && |Flatten(pieces)| == before.value.size == after.size && after.time == before.value.time
            && sha(Flatten(pieces)) == t.normal(want)
    ensures r.NotChecked? <==> !ValidSHA256(t.normal(want)) || (before.Some? && before.value.regular && readFails)
  {
    hide ValidSHA256;
    if !ValidSHA256(t.normal(want)) {
      return NotChecked;
    }
    if before.None? || !before.value.regular {
      return Differs;
    }
    var hashed: seq<byte> := [];
    var done := 0;
    var k := 0;
    while k < |pieces|
      invariant k <= |pieces| && hashed == Flatten(pieces[..k]) && done == |hashed|
    {
      hashed := hashed + pieces[k];
      done := done + |pieces[k]|;
      FlattenAppend(pieces[..k], pieces[k]);
      assert pieces[..k + 1] == pieces[..k] + [pieces[k]];
      k := k + 1;
    }
    assert pieces[..k] == pieces;
    if readFails {
      return NotChecked;
    }
    if done != before.value.size || after.size != before.value.size || after.time != before.value.time {
      return Differs;
    }
    return if sha(hashed) == t.normal(want) then Agrees else Differs;
  }
}

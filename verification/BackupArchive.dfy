// What a backup archive holds and which archives are accepted (backup.go):
// the names, the manifest, reading and packing. An archive is the sequence of
// its members; hashing, case folding and the manifest's text are parameters.
module BackupArchive {
  import opened Wrappers
  import opened Bytes
  import opened Strings
  import opened InstallReceipt

  const MANIFEST := "backup.json"
  const MAX_FILES := 10000
  const MAX_BYTES := 0x200_0000_0000
  const MANIFEST_LIMIT := 0x40_0000

  datatype Entry = Entry(name: string, size: int, sha: string)

  datatype Manifest = Manifest(version: int, files: seq<Entry>)

  /** A member as its header announces it, and what reading it gives, if it can be read. */
  datatype Member = Member(name: string, regular: bool, declared: nat, content: Option<seq<byte>>)

  type Archive = seq<Member>

  /** SHA-256 in hex, case folding, and the manifest as text. */
  datatype Codec = Codec(sha: seq<byte> -> string, fold: string -> string,
                         encode: Manifest -> seq<byte>, decode: seq<byte> -> Option<Manifest>) {
    ghost predicate Lossless() {
      && (forall m: Manifest :: decode(encode(m)) == Some(m))
      && (forall b: seq<byte> :: ValidSHA256(sha(b)))
    }
  }

  // ---- Names -----------------------------------------------------------------------------

  function Upper(s: string): string {
    seq(|s|, i requires 0 <= i < |s| => if 'a' <= s[i] <= 'z' then s[i] - 'a' + 'A' else s[i])
  }

  predicate Reserved(base: string) {
    || base == "CON" || base == "PRN" || base == "AUX" || base == "NUL"
    || (|base| == 4 && (base[..3] == "COM" || base[..3] == "LPT") && '0' <= base[3] <= '9')
  }

  /** What Windows makes of a part of a path: trailing spaces and dots are dropped. */
  function WindowsPart(part: string): string {
    if part != [] && (part[|part| - 1] == ' ' || part[|part| - 1] == '.') then WindowsPart(part[..|part| - 1]) else part
  }

  predicate PartAllowed(part: string) {
    && part != [] && part != "." && part != ".." && WindowsPart(part) == part
    && !Reserved(Upper(Split(part, '.')[0]))
  }

  predicate InBackup(name: string) {
    || name == "vm/disk.raw" || name == "settings.json" || name == "storage.json"
    || "guest/" <= name || "runtime/" <= name
  }

  predicate NameAllowed(name: string) {
    && (forall i :: 0 <= i < |name| ==> name[i] != '\\' && name[i] != ':')
    && (forall i :: 0 <= i < |Split(name, '/')| ==> PartAllowed(Split(name, '/')[i]))
    && InBackup(name)
  }

  function WindowsParts(parts: seq<string>): (r: seq<string>)
    ensures |r| == |parts|
  {
    seq(|parts|, i requires 0 <= i < |parts| => WindowsPart(parts[i]))
  }

  /** The names Windows keeps for its devices, whatever follows a dot after them. */
  function Devices(): seq<string> {
    ["CON", "PRN", "AUX", "NUL"] + Ports("COM") + Ports("LPT")
  }

  /** COM0 to COM9, or LPT0 to LPT9. */
  function Ports(kind: string): seq<string> {
    seq(10, k requires 0 <= k < 10 => kind + ["0123456789"[k]])
  }

  lemma ReservedIff(base: string)
    ensures Reserved(base) <==> base in Devices()
  {
    hide Ports;
    PortsAre("COM", base);
    PortsAre("LPT", base);
  }

  lemma PortsAre(kind: string, base: string)
    requires |kind| == 3
    ensures base in Ports(kind) <==> |base| == 4 && base[..3] == kind && '0' <= base[3] <= '9'
  {
    var ports := Ports(kind);
    forall k | 0 <= k < 10 ensures "0123456789"[k] == '0' + k as char {
    }
    forall k | 0 <= k < 10 ensures ports[k][..3] == kind && |ports[k]| == 4 && '0' <= ports[k][3] <= '9' {
    }
    if |base| == 4 && base[..3] == kind && '0' <= base[3] <= '9' {
      var k := base[3] as int - '0' as int;
      assert base == base[..3] + [base[3]];
      assert ports[k] == base;
    }
  }

  /** A part that names a device: the device itself, in any case, or with a dot after it. */
  ghost predicate NamesDevice(part: string) {
    exists device, rest :: device in Devices() && IsStem(part, device, rest)
  }

  ghost predicate IsStem(part: string, device: string, rest: string) {
    exists stem :: Upper(stem) == device && '.' !in stem && part == stem + rest && (rest == [] || rest[0] == '.')
  }

  lemma StemOf(part: string, stem: string, rest: string)
    requires '.' !in stem && part == stem + rest && (rest == [] || rest[0] == '.')
    ensures Split(part, '.')[0] == stem
  {
    if rest == [] {
      assert part == stem;
      SplitNone(stem, '.');
    } else {
      assert part == stem + ['.'] + rest[1..];
      SplitFirst(stem, '.', rest[1..]);
    }
  }

  lemma AllowedNamesNoDevice(part: string)
    requires PartAllowed(part)
    ensures !NamesDevice(part)
  {
    hide Split, Upper, Devices, Reserved;
    if NamesDevice(part) {
      var device, rest :| device in Devices() && IsStem(part, device, rest);
      var stem :| Upper(stem) == device && '.' !in stem && part == stem + rest && (rest == [] || rest[0] == '.');
      StemOf(part, stem, rest);
      ReservedIff(Upper(stem));
      assert false;
    }
  }

  /** An allowed name is taken literally: no part of it climbs, stays or names a
      device, nothing in it separates parts but the slash, and Windows opens the
      very name that was checked. */
  lemma AllowedIsLiteral(name: string)
    requires NameAllowed(name)
    ensures Join(WindowsParts(Split(name, '/')), '/') == name
    ensures ".." !in Split(name, '/') && "." !in Split(name, '/') && "" !in Split(name, '/')
    ensures '\\' !in name && ':' !in name && forall part :: part in Split(name, '/') ==> !NamesDevice(part)
    ensures name != MANIFEST
  {
    hide Split, Join, InBackup, WindowsPart, Reserved, NamesDevice;
    PartsAreLiteral(Split(name, '/'));
    JoinSplit(name, '/');
    ManifestIsNotAllowed();
    forall part | part in Split(name, '/') ensures !NamesDevice(part) {
      AllowedNamesNoDevice(part);
    }
  }

  lemma PartsAreLiteral(parts: seq<string>)
    requires forall i :: 0 <= i < |parts| ==> PartAllowed(parts[i])
    ensures WindowsParts(parts) == parts
    ensures ".." !in parts && "." !in parts && "" !in parts
  {
    hide Split, WindowsPart, Reserved;
  }

  lemma ManifestIsNotAllowed()
    ensures !NameAllowed(MANIFEST)
  {
    hide Split, PartAllowed;
    assert MANIFEST[0] == 'b' && "vm/disk.raw"[0] == 'v' && "settings.json"[0] == 's';
    assert "storage.json"[0] == 's' && "guest/"[0] == 'g' && "runtime/"[0] == 'r';
  }

  /** A part is allowed exactly if Windows takes it as it stands and it names no device. */
  lemma PartAllowedIff(part: string)
    ensures PartAllowed(part) <==>
            && part != "" && part != "." && part != ".."
            && part[|part| - 1] != ' ' && part[|part| - 1] != '.' && !NamesDevice(part)
  {
    hide Split, Upper, Devices, Reserved;
    if PartAllowed(part) {
      AllowedNamesNoDevice(part);
      WindowsPartShrinks(part);
    } else if part != "" {
      FirstPart(part, '.');
      var stem := Split(part, '.')[0];
      var rest := part[|stem|..];
      assert part == stem + rest;
      ReservedIff(Upper(stem));
      assert IsStem(part, Upper(stem), rest);
    }
  }

  /** A device may be spelt with small letters. */
  lemma DeviceInAnyCase(device: string, stem: string, rest: string)
    requires device in Devices() && |stem| == |device| && (rest == [] || rest[0] == '.')
    requires forall i :: 0 <= i < |stem| ==>
               stem[i] == device[i] || ('A' <= device[i] <= 'Z' && stem[i] as int == device[i] as int - 'A' as int + 'a' as int)
    ensures !PartAllowed(stem + rest)
  {
    DeviceLetters(device);
    hide Devices, Split, PartAllowed;
    assert Upper(stem) == device;
    assert '.' !in stem;
    assert IsStem(stem + rest, device, rest);
    PartAllowedIff(stem + rest);
  }

  lemma DeviceLetters(device: string)
    requires device in Devices()
    ensures forall i :: 0 <= i < |device| ==> 'A' <= device[i] <= 'Z' || '0' <= device[i] <= '9'
  {
    ReservedIff(device);
    if |device| == 4 {
      assert device == device[..3] + [device[3]];
    }
  }

  lemma {:induction false} WindowsPartShrinks(part: string)
    ensures |WindowsPart(part)| <= |part|
    ensures WindowsPart(part) == part <==> part == [] || (part[|part| - 1] != ' ' && part[|part| - 1] != '.')
  {
    if part != [] && (part[|part| - 1] == ' ' || part[|part| - 1] == '.') {
      WindowsPartShrinks(part[..|part| - 1]);
    }
  }

  /** The paths a backup is made of, part by part. */
  predicate Backed(parts: seq<string>) {
    || parts == ["vm", "disk.raw"] || parts == ["settings.json"] || parts == ["storage.json"]
    || (|parts| >= 2 && (parts[0] == "guest" || parts[0] == "runtime"))
  }

  predicate Separate(part: string) {
    '/' !in part && '\\' !in part && ':' !in part
  }

  /** A name is allowed exactly if it is a path that is backed up, of allowed parts. */
  lemma NameAllowedIff(parts: seq<string>)
    requires parts != [] && forall k :: 0 <= k < |parts| ==> '/' !in parts[k]
    ensures NameAllowed(Join(parts, '/')) <==>
            Backed(parts) && forall k :: 0 <= k < |parts| ==> PartAllowed(parts[k]) && Separate(parts[k])
  {
    hide PartAllowed, InBackup, Backed;
    var name := Join(parts, '/');
    SplitJoin(parts, '/');
    JoinHas(parts, '/', '\\');
    JoinHas(parts, '/', ':');
    InBackupIff(parts);
    assert (forall i :: 0 <= i < |name| ==> name[i] != '\\' && name[i] != ':') <==> '\\' !in name && ':' !in name;
  }

  lemma InBackupIff(parts: seq<string>)
    requires parts != [] && forall k :: 0 <= k < |parts| ==> '/' !in parts[k]
    ensures InBackup(Join(parts, '/')) <==> Backed(parts)
  {
    hide Split, Join;
    DiskPath();
    JoinsAre();
    JoinIsInjective(parts, ["vm", "disk.raw"]);
    JoinIsInjective(parts, ["settings.json"]);
    JoinIsInjective(parts, ["storage.json"]);
    GuestPrefix(parts);
    RuntimePrefix(parts);
    hide Slashless;
  }

  lemma GuestPrefix(parts: seq<string>)
    requires Slashless(parts)
    ensures "guest/" <= Join(parts, '/') <==> |parts| >= 2 && parts[0] == "guest"
  {
    hide Join;
    assert "guest" + ['/'] == "guest/";
    FolderPrefix("guest", parts);
  }

  lemma RuntimePrefix(parts: seq<string>)
    requires Slashless(parts)
    ensures "runtime/" <= Join(parts, '/') <==> |parts| >= 2 && parts[0] == "runtime"
  {
    hide Join;
    assert "runtime" + ['/'] == "runtime/";
    FolderPrefix("runtime", parts);
  }

  predicate Slashless(parts: seq<string>) {
    parts != [] && forall k :: 0 <= k < |parts| ==> '/' !in parts[k]
  }

  lemma DiskPath()
    ensures Slashless(["vm", "disk.raw"]) && Slashless(["settings.json"]) && Slashless(["storage.json"])
  {
  }

  lemma JoinsAre()
    ensures Join(["vm", "disk.raw"], '/') == "vm/disk.raw"
    ensures Join(["settings.json"], '/') == "settings.json" && Join(["storage.json"], '/') == "storage.json"
  {
    assert ["vm", "disk.raw"][1..] == ["disk.raw"];
  }

  lemma JoinIsInjective(parts: seq<string>, others: seq<string>)
    requires Slashless(parts) && Slashless(others)
    ensures Join(parts, '/') == Join(others, '/') <==> parts == others
  {
    hide Split, Join;
    SplitJoin(parts, '/');
    SplitJoin(others, '/');
  }

  /** A joined path begins with a folder exactly if that is its first part, with another after it. */
  lemma FolderPrefix(folder: string, parts: seq<string>)
    requires parts != [] && '/' !in folder && forall k :: 0 <= k < |parts| ==> '/' !in parts[k]
    ensures folder + ['/'] <= Join(parts, '/') <==> |parts| >= 2 && parts[0] == folder
  {
    hide Split;
    var name := Join(parts, '/');
    if folder + ['/'] <= name {
      var rest := name[|folder| + 1..];
      assert name == folder + ['/'] + rest;
      SplitFirst(folder, '/', rest);
      SplitJoin(parts, '/');
      assert Split(name, '/')[0] == folder;
    }
  }

  // ---- Looking up members -------------------------------------------------------------------

  function Lookup(a: Archive, name: string): (r: Option<Member>)
    ensures r.Some? ==> r.value in a && r.value.name == name
    ensures r.None? <==> forall k :: 0 <= k < |a| ==> a[k].name != name
  {
    if a == [] then None
    else if a[|a| - 1].name == name then Some(a[|a| - 1])
    else Lookup(a[..|a| - 1], name)
  }

  lemma {:induction false} LookupFinds(a: Archive, k: nat)
    requires k < |a| && forall i, j :: 0 <= i < j < |a| ==> a[i].name != a[j].name
    ensures Lookup(a, a[k].name) == Some(a[k])
  {
    if k < |a| - 1 {
      LookupFinds(a[..|a| - 1], k);
    }
  }

  function Required(): seq<string> {
    ["vm/disk.raw", "guest/build-spec.json", "guest/rootfs.ext4", "guest/vmlinuz-linux", "guest/initramfs-linux.img"]
  }

  predicate HasRequired(names: set<string>) {
    forall k :: 0 <= k < |Required()| ==> Required()[k] in names
  }

  /** A backup has the disk and the files the guest starts from. */
  lemma RequiredAre(names: set<string>)
    ensures HasRequired(names) <==>
            {"vm/disk.raw", "guest/build-spec.json", "guest/rootfs.ext4", "guest/vmlinuz-linux", "guest/initramfs-linux.img"} <= names
  {
    var r := Required();
    assert r[0] == "vm/disk.raw" && r[1] == "guest/build-spec.json" && r[2] == "guest/rootfs.ext4"
        && r[3] == "guest/vmlinuz-linux" && r[4] == "guest/initramfs-linux.img";
  }

  // ---- Which archives are accepted -----------------------------------------------------------

  ghost predicate MembersOk(c: Codec, a: Archive) {
    && |a| <= MAX_FILES + 1
    && (forall k :: 0 <= k < |a| ==> MemberOk(a[k]))
    && DistinctFolded(c, a)
  }

  predicate MemberOk(m: Member) {
    m.regular && (m.name == MANIFEST || NameAllowed(m.name))
  }

  /** Names distinct ignoring case. */
  ghost predicate DistinctFolded(c: Codec, a: Archive) {
    forall i, j :: 0 <= i < j < |a| ==> c.fold(a[i].name) != c.fold(a[j].name)
  }

  function Head(s: seq<byte>, n: nat): (r: seq<byte>)
    ensures |r| == Least(|s|, n) && r <= s
  {
    if |s| <= n then s else s[..n]
  }

  function ReadManifest(c: Codec, a: Archive): Option<Manifest> {
    match Lookup(a, MANIFEST)
    case None => None
    case Some(m) =>
      if m.declared > MANIFEST_LIMIT || m.content.None? then None
      else c.decode(Head(m.content.value, MANIFEST_LIMIT + 1))
  }

  function Names(files: seq<Entry>): (names: set<string>)
    ensures forall k :: 0 <= k < |files| ==> files[k].name in names
    ensures forall name :: name in names ==> exists k :: 0 <= k < |files| && files[k].name == name
  {
    set k | 0 <= k < |files| :: files[k].name
  }

  function TotalSize(files: seq<Entry>): int {
    if files == [] then 0 else TotalSize(files[..|files| - 1]) + files[|files| - 1].size
  }

  /** An entry that the archive's own headers bear out. */
  predicate EntryOk(a: Archive, e: Entry) {
    && NameAllowed(e.name) && e.size >= 0 && ValidSHA256(e.sha)
    && Lookup(a, e.name).Some? && Lookup(a, e.name).value.declared == e.size
  }

  ghost predicate EntriesOk(a: Archive, files: seq<Entry>) {
    && (forall k :: 0 <= k < |files| ==> EntryOk(a, files[k]))
    && (forall i, j :: 0 <= i < j < |files| ==> files[i].name != files[j].name)
    && TotalSize(files) <= MAX_BYTES
  }

  ghost predicate Accepts(c: Codec, a: Archive, m: Manifest) {
    && MembersOk(c, a) && ReadManifest(c, a) == Some(m)
    && m.version == 1 && |m.files| == |a| - 1
    && EntriesOk(a, m.files) && HasRequired(Names(m.files))
  }

  /** What reading an archive gives. */
  ghost function Read(c: Codec, a: Archive): Option<Manifest> {
    var m := ReadManifest(c, a);
    if m.Some? && Accepts(c, a, m.value) then m else None
  }

  // ---- An accepted archive holds its manifest and nothing else -----------------------------------

  function NamesUpTo(a: Archive, n: nat): (names: set<string>)
    requires n <= |a|
    ensures forall name :: name in names <==> exists k :: 0 <= k < n && a[k].name == name
  {
    set k | 0 <= k < n :: a[k].name
  }

  lemma {:induction false} MemberCount(c: Codec, a: Archive, n: nat)
    requires n <= |a| && DistinctFolded(c, a)
    ensures |NamesUpTo(a, n)| == n
    decreases n
  {
    hide NamesUpTo;
    if n > 0 {
      MemberCount(c, a, n - 1);
      OneMoreUpTo(c, a, n - 1);
    } else {
      NoNamesYet(a);
    }
  }

  lemma NoNamesYet(a: Archive)
    ensures NamesUpTo(a, 0) == {}
  {
  }

  lemma OneMoreUpTo(c: Codec, a: Archive, n: nat)
    requires n < |a| && DistinctFolded(c, a)
    ensures NamesUpTo(a, n + 1) == NamesUpTo(a, n) + {a[n].name} && a[n].name !in NamesUpTo(a, n)
  {
    hide MemberOk;
    forall k | 0 <= k < n ensures a[k].name != a[n].name {
      assert c.fold(a[k].name) != c.fold(a[n].name);
    }
  }

  lemma {:induction false} EntryCount(files: seq<Entry>)
    requires forall i, j :: 0 <= i < j < |files| ==> files[i].name != files[j].name
    ensures |Names(files)| == |files|
  {
    hide Names;
    if files == [] {
      NoNames();
    } else {
      var n := |files| - 1;
      var shorter := files[..n];
      EntryCount(shorter);
      assert files == shorter + [files[n]];
      OneMoreNamed(shorter, files[n]);
      assert files[n].name !in Names(shorter) by { NotNamed(shorter, files[n].name); }
    }
  }

  lemma NoNames()
    ensures Names([]) == {}
  {
  }

  lemma NotNamed(files: seq<Entry>, name: string)
    requires forall k :: 0 <= k < |files| ==> files[k].name != name
    ensures name !in Names(files)
  {
  }

  /** Counting is enough: every member but the manifest is one of its entries. */
  lemma NothingElseInside(c: Codec, a: Archive, m: Manifest)
    requires Accepts(c, a, m)
    ensures NamesUpTo(a, |a|) == Names(m.files) + {MANIFEST} && MANIFEST !in Names(m.files)
  {
    hide NameAllowed, ReadManifest, HasRequired, TotalSize, MemberOk, ValidSHA256, DistinctFolded;
    var all, listed := NamesUpTo(a, |a|), Names(m.files);
    MemberCount(c, a, |a|);
    EntryCount(m.files);
    EntriesAreMembers(a, m.files);
    ManifestIsMember(c, a, m);
    assert listed + {MANIFEST} <= all;
    SameSize(listed + {MANIFEST}, all);
  }

  lemma EntriesAreMembers(a: Archive, files: seq<Entry>)
    requires forall k :: 0 <= k < |files| ==> EntryOk(a, files[k])
    ensures Names(files) <= NamesUpTo(a, |a|) && MANIFEST !in Names(files)
  {
    hide NameAllowed, ValidSHA256;
    forall name | name in Names(files) ensures name in NamesUpTo(a, |a|) && name != MANIFEST {
      var k :| 0 <= k < |files| && files[k].name == name;
      assert EntryOk(a, files[k]);
      AllowedIsLiteral(name);
    }
  }

  lemma ManifestIsMember(c: Codec, a: Archive, m: Manifest)
    requires ReadManifest(c, a) == Some(m)
    ensures MANIFEST in NamesUpTo(a, |a|)
  {
  }

  lemma SameSize<T>(a: set<T>, b: set<T>)
    requires a <= b && |a| == |b|
    ensures a == b
  {
    assert |b - a| == 0;
  }

  // ---- Reading an archive ---------------------------------------------------------------------

  method ReadBackup(c: Codec, a: Archive) returns (r: Option<Manifest>)
    ensures r == Read(c, a)
  {
    hide NameAllowed, ValidSHA256, HasRequired;
    if |a| > MAX_FILES + 1 {
      return None;
    }
    var ok, files := ReadMembers(c, a);
    if !ok {
      return None;
    }
    if MANIFEST !in files || files[MANIFEST].declared > MANIFEST_LIMIT || files[MANIFEST].content.None? {
      return None;
    }
    var decoded := c.decode(Head(files[MANIFEST].content.value, MANIFEST_LIMIT + 1));
    assert decoded == ReadManifest(c, a);
    assert |files| == |a|;
    if decoded.None? || decoded.value.version != 1 || |decoded.value.files| != |files| - 1 {
      return None;
    }
    var m := decoded.value;
    var valid := CheckEntries(a, files, m.files);
    if !valid || !HasRequired(Names(m.files)) {
      return None;
    }
    return Some(m);
  }

  method ReadMembers(c: Codec, a: Archive) returns (ok: bool, files: map<string, Member>)
    ensures ok <==> (forall k :: 0 <= k < |a| ==> MemberOk(a[k])) && DistinctFolded(c, a)
    ensures ok ==> |files| == |a| && Indexes(files, a)
  {
    hide Lookup, DistinctFolded, Indexes, MemberOk;
    files := map[];
    var names: set<string> := {};
    var k := 0;
    NoMembers(c);
    while k < |a|
      invariant k <= |a| && |files| == k
      invariant forall i :: 0 <= i < k ==> MemberOk(a[i])
      invariant names == FoldedNames(c, a, k)
      invariant DistinctFolded(c, a[..k]) && Indexes(files, a[..k])
    {
      var f := a[k];
      var key := c.fold(f.name);
      OneMoreName(c, a, k);
      if key in names || !MemberOk(f) {
        return false, files;
      }
      OneMoreMember(c, a, k, files);
      names := names + {key};
      files := files[f.name := f];
      k := k + 1;
    }
    assert a[..k] == a;
    ok := true;
  }

  ghost predicate Indexes(files: map<string, Member>, a: Archive) {
    forall name :: (name in files <==> Lookup(a, name).Some?) && (name in files ==> Lookup(a, name) == Some(files[name]))
  }

  function FoldedNames(c: Codec, a: Archive, k: nat): set<string>
    requires k <= |a|
  {
    set i | 0 <= i < k :: c.fold(a[i].name)
  }

  lemma NoMembers(c: Codec)
    ensures Indexes(map[], []) && DistinctFolded(c, [])
  {
  }

  lemma OneMoreName(c: Codec, a: Archive, k: nat)
    requires k < |a|
    ensures FoldedNames(c, a, k + 1) == FoldedNames(c, a, k) + {c.fold(a[k].name)}
    ensures DistinctFolded(c, a[..k + 1]) <==> DistinctFolded(c, a[..k]) && c.fold(a[k].name) !in FoldedNames(c, a, k)
    ensures DistinctFolded(c, a) ==> DistinctFolded(c, a[..k + 1])
  {
    var more, was := a[..k + 1], a[..k];
    assert forall i :: 0 <= i < k ==> more[i] == was[i];
    if DistinctFolded(c, more) {
      forall i, j | 0 <= i < j < k ensures c.fold(was[i].name) != c.fold(was[j].name) {
        assert more[i] == was[i] && more[j] == was[j];
      }
      forall i | 0 <= i < k ensures c.fold(a[i].name) != c.fold(a[k].name) {
        assert more[i] == a[i] && more[k] == a[k];
      }
    }
  }

  lemma OneMoreMember(c: Codec, a: Archive, k: nat, files: map<string, Member>)
    requires k < |a| && Indexes(files, a[..k]) && c.fold(a[k].name) !in FoldedNames(c, a, k)
    ensures Indexes(files[a[k].name := a[k]], a[..k + 1]) && a[k].name !in files
  {
    var f, more := a[k], a[..k + 1];
    assert more != [] && more[|more| - 1] == f && more[..|more| - 1] == a[..k];
    forall i | 0 <= i < k ensures a[..k][i].name != f.name {
      assert c.fold(a[i].name) in FoldedNames(c, a, k);
    }
    assert forall name :: Lookup(more, name) == if f.name == name then Some(f) else Lookup(a[..k], name);
  }

  method CheckEntries(a: Archive, files: map<string, Member>, entries: seq<Entry>) returns (ok: bool)
    requires Indexes(files, a)
    ensures ok <==> EntriesOk(a, entries)
  {
    hide NameAllowed, ValidSHA256, Lookup, EntriesOk;
    var seen: set<string> := {};
    var total := 0;
    var k := 0;
    NoEntries(a);
    while k < |entries|
      invariant k <= |entries| && EntriesOk(a, entries[..k])
      invariant seen == Names(entries[..k])
      invariant total == TotalSize(entries[..k])
    {
      var e := entries[k];
      OneMoreEntry(a, entries, k);
      if !NameAllowed(e.name) || e.name in seen || e.name !in files || e.size < 0 || e.size > MAX_BYTES - total
         || e.size != files[e.name].declared || !ValidSHA256(e.sha)
      {
        return false;
      }
      seen := seen + {e.name};
      total := total + e.size;
      k := k + 1;
    }
    assert entries[..k] == entries;
    ok := true;
  }

  lemma NoEntries(a: Archive)
    ensures EntriesOk(a, [])
  {
  }

  lemma OneMoreEntry(a: Archive, files: seq<Entry>, k: nat)
    requires k < |files| && EntriesOk(a, files[..k])
    ensures var e, was := files[k], files[..k];
      && Names(files[..k + 1]) == Names(was) + {e.name}
      && TotalSize(files[..k + 1]) == TotalSize(was) + e.size
      && (EntriesOk(a, files[..k + 1]) <==> EntryOk(a, e) && e.name !in Names(was) && TotalSize(was) + e.size <= MAX_BYTES)
    ensures EntriesOk(a, files) ==> EntriesOk(a, files[..k + 1])
  {
    hide EntryOk, EntriesOk, Names;
    var e, was, more := files[k], files[..k], files[..k + 1];
    assert more[..k] == was && more[k] == e && more == was + [e];
    OneMoreNamed(was, e);
    OneMoreOk(a, was, e);
    if EntriesOk(a, files) {
      FewerEntriesOk(a, files, k + 1);
    }
  }

  lemma OneMoreOk(a: Archive, was: seq<Entry>, e: Entry)
    requires EntriesOk(a, was)
    ensures EntriesOk(a, was + [e]) <==> EntryOk(a, e) && e.name !in Names(was) && TotalSize(was) + e.size <= MAX_BYTES
  {
    hide EntryOk;
    var more, k := was + [e], |was|;
    assert more[..k] == was && more[k] == e;
    if EntriesOk(a, more) {
      assert EntryOk(a, more[k]);
    }
  }

  lemma FewerEntriesOk(a: Archive, files: seq<Entry>, n: nat)
    requires EntriesOk(a, files) && n <= |files|
    ensures EntriesOk(a, files[..n])
  {
    hide EntryOk;
    SizesNotNegative(a, files);
    TotalGrows(files, n);
    assert forall i :: 0 <= i < n ==> files[..n][i] == files[i];
  }

  lemma SizesNotNegative(a: Archive, files: seq<Entry>)
    requires EntriesOk(a, files)
    ensures forall k :: 0 <= k < |files| ==> files[k].size >= 0
  {
    forall k | 0 <= k < |files| ensures files[k].size >= 0 {
      assert EntryOk(a, files[k]);
    }
  }

  lemma OneMoreNamed(was: seq<Entry>, e: Entry)
    ensures Names(was + [e]) == Names(was) + {e.name}
  {
    var more := was + [e];
    assert more[|was|] == e;
    forall name | name in Names(was) ensures name in Names(more) {
      var k :| 0 <= k < |was| && was[k].name == name;
      assert more[k] == was[k];
    }
  }

  lemma {:induction false} TotalGrows(files: seq<Entry>, n: nat)
    requires n <= |files| && forall k :: 0 <= k < |files| ==> files[k].size >= 0
    ensures TotalSize(files[..n]) <= TotalSize(files)
  {
    if n < |files| {
      var shorter := files[..|files| - 1];
      TotalGrows(shorter, n);
      assert shorter[..n] == files[..n];
    } else {
      assert files[..n] == files;
    }
  }

  // ---- Packing a folder --------------------------------------------------------------------------

  /** A file met while walking the folder: its size then, and what it holds when it is copied. */
  datatype Item = Item(name: string, regular: bool, size: nat, copied: seq<byte>)

  function Sizes(items: seq<Item>): nat {
    if items == [] then 0 else Sizes(items[..|items| - 1]) + items[|items| - 1].size
  }

  function ItemNames(items: seq<Item>): set<string> {
    set k | 0 <= k < |items| :: items[k].name
  }

  ghost predicate ItemOk(item: Item) {
    item.regular && NameAllowed(item.name)
  }

  /** The folders a backup is made of. */
  ghost predicate Collectable(items: seq<Item>) {
    && (forall k :: 0 <= k < |items| ==> ItemOk(items[k]))
    && |items| <= MAX_FILES && Sizes(items) <= MAX_BYTES && HasRequired(ItemNames(items))
  }

  ghost predicate Steady(items: seq<Item>) {
    forall k :: 0 <= k < |items| ==> |items[k].copied| == items[k].size
  }

  function Entries(c: Codec, items: seq<Item>): (files: seq<Entry>)
    ensures |files| == |items|
  {
    seq(|items|, k requires 0 <= k < |items| => Entry(items[k].name, items[k].size, c.sha(items[k].copied)))
  }

  function Members(items: seq<Item>): (a: Archive)
    ensures |a| == |items|
  {
    seq(|items|, k requires 0 <= k < |items| =>
      Member(items[k].name, true, |items[k].copied|, Some(items[k].copied)))
  }

  function ManifestText(c: Codec, items: seq<Item>): seq<byte> {
    c.encode(Manifest(1, Entries(c, items)))
  }

  function ManifestMember(c: Codec, items: seq<Item>): Member {
    var text := ManifestText(c, items);
    Member(MANIFEST, true, |text|, Some(text))
  }

  function Packed(c: Codec, items: seq<Item>): Archive {
    Members(items) + [ManifestMember(c, items)]
  }

  /** A backup that was written can be read again exactly when its names are
      distinct ignoring case and its manifest is within the limit; neither is
      checked when it is written. */
  lemma ReadsBackIff(c: Codec, items: seq<Item>)
    requires c.Lossless() && Collectable(items) && Steady(items)
    ensures Read(c, Packed(c, items)).Some? <==>
            DistinctFolded(c, Packed(c, items)) && |ManifestText(c, items)| <= MANIFEST_LIMIT
    ensures Read(c, Packed(c, items)).Some? ==> Read(c, Packed(c, items)).value == Manifest(1, Entries(c, items))
  {
    hide Packed, MemberOk, EntriesOk, HasRequired, DistinctFolded, ManifestText, Sizes;
    var a, text := Packed(c, items), ManifestText(c, items);
    PackedMembers(c, items);
    ManifestComesBack(c, items);
    if |text| <= MANIFEST_LIMIT && DistinctFolded(c, a) {
      PackedEntries(c, items);
      SameNames(c, items);
    }
  }

  lemma PackedMembers(c: Codec, items: seq<Item>)
    requires Collectable(items)
    ensures var a := Packed(c, items);
      |a| == |items| + 1 && a[|items|] == ManifestMember(c, items) && forall k :: 0 <= k < |a| ==> MemberOk(a[k])
  {
    hide NameAllowed, HasRequired, Sizes;
    var a := Packed(c, items);
    forall k | 0 <= k < |a| ensures MemberOk(a[k]) {
      if k < |items| {
        assert a[k] == Members(items)[k] && ItemOk(items[k]);
      }
    }
  }

  lemma ManifestComesBack(c: Codec, items: seq<Item>)
    requires c.Lossless()
    ensures Lookup(Packed(c, items), MANIFEST) == Some(ManifestMember(c, items))
    ensures ReadManifest(c, Packed(c, items)) ==
            if |ManifestText(c, items)| > MANIFEST_LIMIT then None else Some(Manifest(1, Entries(c, items)))
  {
    var a := Packed(c, items);
    assert a[|a| - 1] == ManifestMember(c, items);
  }

  lemma PackedEntries(c: Codec, items: seq<Item>)
    requires c.Lossless() && Collectable(items) && Steady(items) && DistinctFolded(c, Packed(c, items))
    ensures EntriesOk(Packed(c, items), Entries(c, items))
  {
    hide NameAllowed, HasRequired, Sizes, TotalSize, ValidSHA256, Lookup;
    var a, files := Packed(c, items), Entries(c, items);
    forall k | 0 <= k < |files| ensures EntryOk(a, files[k]) {
      ItemIsFound(c, items, k);
      assert ItemOk(items[k]) && |items[k].copied| == items[k].size;
    }
    forall i, j | 0 <= i < j < |files| ensures files[i].name != files[j].name {
      assert a[i] == Members(items)[i] && a[j] == Members(items)[j];
    }
    SameTotal(c, items);
  }

  lemma ItemIsFound(c: Codec, items: seq<Item>, k: nat)
    requires k < |items| && DistinctFolded(c, Packed(c, items))
    ensures Lookup(Packed(c, items), items[k].name) == Some(Members(items)[k])
  {
    hide Lookup;
    var a := Packed(c, items);
    assert a[k] == Members(items)[k];
    LookupFinds(a, k);
  }

  lemma {:induction false} SameTotal(c: Codec, items: seq<Item>)
    ensures TotalSize(Entries(c, items)) == Sizes(items)
  {
    if items != [] {
      var n := |items| - 1;
      SameTotal(c, items[..n]);
      assert Entries(c, items)[..n] == Entries(c, items[..n]);
    }
  }

  lemma SameNames(c: Codec, items: seq<Item>)
    ensures Names(Entries(c, items)) == ItemNames(items)
  {
    var files := Entries(c, items);
    forall name | name in ItemNames(items) ensures name in Names(files) {
      var k :| 0 <= k < |items| && items[k].name == name;
      assert files[k].name == name;
    }
    forall name | name in Names(files) ensures name in ItemNames(items) {
      var k :| 0 <= k < |files| && files[k].name == name;
      assert items[k].name == name;
    }
  }

  /** The walk over the folder. */
  method Collect(items: seq<Item>) returns (ok: bool)
    ensures ok <==> Collectable(items)
  {
    hide NameAllowed, HasRequired;
    var seen: set<string> := {};
    var total := 0;
    var k := 0;
    while k < |items|
      invariant k <= |items| && k <= MAX_FILES
      invariant seen == ItemNames(items[..k])
      invariant total == Sizes(items[..k]) <= MAX_BYTES
      invariant forall i :: 0 <= i < k ==> ItemOk(items[i])
    {
      var item := items[k];
      OneMoreItem(items, k);
      if !item.regular || !NameAllowed(item.name) {
        return false;
      }
      if k >= MAX_FILES || item.size > MAX_BYTES - total {
        return false;
      }
      total := total + item.size;
      seen := seen + {item.name};
      k := k + 1;
    }
    assert items[..k] == items;
    ok := HasRequired(seen);
  }

  lemma OneMoreItem(items: seq<Item>, k: nat)
    requires k < |items|
    ensures ItemNames(items[..k + 1]) == ItemNames(items[..k]) + {items[k].name}
    ensures Sizes(items[..k + 1]) == Sizes(items[..k]) + items[k].size <= Sizes(items)
  {
    OneMoreAtEnd(items, k);
    OneMoreItemName(items[..k], items[k]);
    OneMoreSize(items[..k], items[k]);
    SizesGrow(items, k + 1);
    hide ItemNames, Sizes;
  }

  lemma OneMoreAtEnd<T>(s: seq<T>, k: nat)
    requires k < |s|
    ensures s[..k + 1] == s[..k] + [s[k]]
  {
  }

  lemma OneMoreSize(was: seq<Item>, item: Item)
    ensures Sizes(was + [item]) == Sizes(was) + item.size
  {
    assert (was + [item])[..|was|] == was;
  }

  lemma OneMoreItemName(was: seq<Item>, item: Item)
    ensures ItemNames(was + [item]) == ItemNames(was) + {item.name}
  {
    var more := was + [item];
    assert more[|was|] == item;
    forall name | name in ItemNames(was) ensures name in ItemNames(more) {
      var i :| 0 <= i < |was| && was[i].name == name;
      assert more[i].name == name;
    }
  }

  lemma {:induction false} SizesGrow(items: seq<Item>, n: nat)
    requires n <= |items|
    ensures Sizes(items[..n]) <= Sizes(items)
  {
    if n < |items| {
      var shorter := items[..|items| - 1];
      SizesGrow(shorter, n);
      assert shorter[..n] == items[..n];
    } else {
      assert items[..n] == items;
    }
  }
}

// What a receipt says of the folder it was made for, and what storing one comes to
// when exactly one call fails (install_state.go).
module InstallReceiptOutcomes {
  import opened Wrappers
  import opened Bytes
  import opened Strings
  import opened FaultyFs
  import opened InstallReceipt

  const HEX := "0123456789abcdefABCDEF"

  /** A digest is 64 hexadecimal digits. */
  lemma DigestIff(s: string)
    ensures ValidSHA256(s) <==> |s| == 64 && forall c :: c in s ==> c in HEX
  {
    forall i | 0 <= i < |s| ensures ('0' <= s[i] <= '9' || 'a' <= s[i] <= 'f' || 'A' <= s[i] <= 'F') <==> s[i] in HEX {
      HexIff(s[i]);
    }
    assert (forall c :: c in s ==> c in HEX) <==> forall i :: 0 <= i < |s| ==> s[i] in HEX;
  }

  lemma HexIff(c: char)
    ensures ('0' <= c <= '9' || 'a' <= c <= 'f' || 'A' <= c <= 'F') <==> c in HEX
  {
    forall k | 0 <= k < 10 ensures HEX[k] as int == '0' as int + k {
    }
    forall k | 10 <= k < 16 ensures HEX[k] as int == 'a' as int + k - 10 {
    }
    forall k | 16 <= k < 22 ensures HEX[k] as int == 'A' as int + k - 16 {
    }
    if '0' <= c <= '9' {
      assert HEX[c as int - '0' as int] == c;
    } else if 'a' <= c <= 'f' {
      assert HEX[10 + (c as int - 'a' as int)] == c;
    } else if 'A' <= c <= 'F' {
      assert HEX[16 + (c as int - 'A' as int)] == c;
    }
  }

  /** A plain name is a single part, whichever slash separates parts, without a drive. */
  lemma PlainIff(name: string)
    ensures Plain(name) <==>
            && name != "" && name != "." && Split(name, '/') == [name] && Split(name, '\\') == [name]
            && forall drive, rest :: name != [drive, ':'] + rest
  {
    SplitNone(name, '/');
    SplitNone(name, '\\');
    if |name| >= 2 && name[1] == ':' {
      assert name == [name[0], ':'] + name[2..];
    }
  }

  /** A receipt of a folder names regular files that are in it, each with the digest the
      manifest gives it, its size and its time. */
  lemma ReceiptSays(t: Text, folder: Folder, release: string, manifest: string, names: seq<string>, sums: map<string, string>,
                    r: Receipt, k: nat)
    requires IsReceiptOf(t, folder, release, manifest, names, sums, r) && k < |names|
    ensures var name := names[k];
      && name in folder && folder[name].regular && name in sums && name in r.files
      && r.files[name].sha == t.normal(sums[name]) && |r.files[name].sha| == 64
      && r.files[name].size == |folder[name].content| && r.files[name].time == folder[name].time
    ensures RecordedPlainly(names[k])
  {
    assert Recordable(t, folder, sums, names[k]);
  }

  ghost predicate RecordedPlainly(name: string) {
    name != "" && name != "." && '/' !in name && '\\' !in name && (|name| >= 2 ==> name[1] != ':')
  }

  /** A file that is not regular, or not there, keeps the whole receipt from being written. */
  lemma OnlyRegularFiles(t: Text, folder: Folder, sums: map<string, string>, name: string)
    ensures Recordable(t, folder, sums, name) <==>
            && name in folder && folder[name].regular && name in sums && ValidSHA256(t.normal(sums[name]))
            && RecordedPlainly(name)
  {
  }

  /** Storing a receipt makes four calls. If one of them fails, nothing has changed and
      nothing is left, but for a part file that was there before. */
  lemma StoreWithOneFault(o: Oracle, w: World<string, FileState>, text: FileState, k: nat)
    requires w.alive && FailsOnceAt(o, w.clock + k)
    ensures var (v, ok) := StoreReceipt(o, w, text);
      && v.alive && (ok <==> 4 <= k)
      && v.files == if ok then (w.files - {RECEIPT_PART})[RECEIPT := text]
                    else if k == 0 then w.files else w.files - {RECEIPT_PART}
  {
    PartIsNotReceipt();
    hide RECEIPT, RECEIPT_PART;
    PartReplaced(w.files, text.(content := []), text);
  }

  lemma PartReplaced(f: map<string, FileState>, empty: FileState, text: FileState)
    ensures f[RECEIPT_PART := empty] - {RECEIPT_PART} == f - {RECEIPT_PART}
    ensures f[RECEIPT_PART := empty][RECEIPT_PART := text] == f[RECEIPT_PART := text]
    ensures f[RECEIPT_PART := text] - {RECEIPT_PART} == f - {RECEIPT_PART}
    ensures Moved(f[RECEIPT_PART := text], RECEIPT_PART, RECEIPT) == (f - {RECEIPT_PART})[RECEIPT := text]
  {
    hide RECEIPT, RECEIPT_PART;
  }

  /** Restamping changes no content, and gives its recorded time to exactly the regular
      files that have their recorded size, if that time is not zero. */
  lemma RestampOutcome(folder: Folder, files: map<string, Artifact>, name: string)
    requires name in folder
    ensures var g := Restamped(folder, files);
      && name in g && g[name].content == folder[name].content && g[name].regular == folder[name].regular
      && g[name].time ==
         if name in files && folder[name].regular && |folder[name].content| == files[name].size && files[name].time != 0
         then files[name].time else folder[name].time
  {
  }
}

// A backup that writeVMBackup accepts and readVMBackup refuses (backup.go).
module BackupLimits {
  import opened Wrappers
  import opened Strings
  import opened BackupArchive

  // ---- Names that are allowed ------------------------------------------------------------

  lemma NotReserved(base: string)
    requires (|base| != 3 && |base| != 4) || base[0] == 'd'
    ensures !Reserved(Upper(base))
  {
    if |base| == 4 {
      assert Upper(base)[..3][0] == 'D' && "COM"[0] == 'C' && "LPT"[0] == 'L';
    } else if |base| == 3 {
      assert Upper(base)[0] == 'D' && "CON"[0] == 'C' && "PRN"[0] == 'P' && "AUX"[0] == 'A' && "NUL"[0] == 'N';
    }
  }

  /** What an ordinary part ends with, and what comes before its first dot. */
  predicate Ordinary(part: string, base: string) {
    && part != [] && part[|part| - 1] != '.' && part[|part| - 1] != ' ' && base <= part && '.' !in base
    && (part == base || part[|base|] == '.')
    && ((|base| != 3 && |base| != 4) || base[0] == 'd')
    && forall i :: 0 <= i < |part| ==> part[i] != '/' && part[i] != '\\' && part[i] != ':'
  }

  lemma OrdinaryIsAllowed(part: string, base: string)
    requires Ordinary(part, base)
    ensures PartAllowed(part)
  {
    NotReserved(base);
    if part == base {
      SplitNone(part, '.');
    } else {
      assert part == base + ['.'] + part[|base| + 1..];
      SplitFirst(base, '.', part[|base| + 1..]);
    }
  }

  lemma NameIsAllowed(folder: string, part: string, base: string)
    requires Ordinary(folder, folder) && Ordinary(part, base) && InBackup(folder + "/" + part)
    ensures NameAllowed(folder + "/" + part)
  {
    hide InBackup, PartAllowed;
    var name := folder + "/" + part;
    OrdinaryIsAllowed(folder, folder);
    OrdinaryIsAllowed(part, base);
    assert name == folder + ['/'] + part;
    SplitFirst(folder, '/', part);
    SplitNone(part, '/');
  }

  lemma GuestNameIsAllowed(part: string, base: string)
    requires Ordinary(part, base)
    ensures NameAllowed("guest/" + part)
  {
    assert "guest/" + part == "guest" + "/" + part;
    assert "guest/" <= "guest/" + part;
    NameIsAllowed("guest", part, base);
  }

  // ---- A folder of seven empty files -------------------------------------------------------

  function SevenNames(): seq<string> {
    Required() + ["guest/a", "guest/A"]
  }

  function EmptyFiles(names: seq<string>): (items: seq<Item>)
    ensures |items| == |names|
  {
    seq(|names|, k requires 0 <= k < |names| => Item(names[k], true, 0, []))
  }

  lemma DiskIsAllowed()
    ensures NameAllowed("vm/disk.raw")
  {
    hide NameAllowed;
    assert "vm/disk.raw" == "vm" + "/" + "disk.raw";
    NameIsAllowed("vm", "disk.raw", "disk");
  }

  lemma SpecIsAllowed()
    ensures NameAllowed("guest/build-spec.json")
  {
    hide NameAllowed;
    assert "guest/build-spec.json" == "guest/" + "build-spec.json";
    GuestNameIsAllowed("build-spec.json", "build-spec");
  }

  lemma ImageIsAllowed()
    ensures NameAllowed("guest/rootfs.ext4")
  {
    hide NameAllowed;
    assert "guest/rootfs.ext4" == "guest/" + "rootfs.ext4";
    GuestNameIsAllowed("rootfs.ext4", "rootfs");
  }

  lemma KernelIsAllowed()
    ensures NameAllowed("guest/vmlinuz-linux")
  {
    hide NameAllowed;
    assert "guest/vmlinuz-linux" == "guest/" + "vmlinuz-linux";
    GuestNameIsAllowed("vmlinuz-linux", "vmlinuz-linux");
  }

  lemma InitramfsIsAllowed()
    ensures NameAllowed("guest/initramfs-linux.img")
  {
    hide NameAllowed;
    assert "guest/initramfs-linux.img" == "guest/" + "initramfs-linux.img";
    GuestNameIsAllowed("initramfs-linux.img", "initramfs-linux");
  }

  lemma SmallIsAllowed()
    ensures NameAllowed("guest/a")
  {
    hide NameAllowed;
    assert "guest/a" == "guest/" + "a";
    GuestNameIsAllowed("a", "a");
  }

  lemma CapitalIsAllowed()
    ensures NameAllowed("guest/A")
  {
    hide NameAllowed;
    assert "guest/A" == "guest/" + "A";
    GuestNameIsAllowed("A", "A");
  }

  lemma NamesAreAllowed(k: nat)
    requires k < |SevenNames()|
    ensures NameAllowed(SevenNames()[k])
  {
    hide NameAllowed;
    DiskIsAllowed();
    SpecIsAllowed();
    ImageIsAllowed();
    KernelIsAllowed();
    InitramfsIsAllowed();
    SmallIsAllowed();
    CapitalIsAllowed();
  }

  lemma {:induction false} EmptyFilesHaveNoSize(names: seq<string>)
    ensures Sizes(EmptyFiles(names)) == 0
  {
    if names != [] {
      var shorter := names[..|names| - 1];
      EmptyFilesHaveNoSize(shorter);
      assert EmptyFiles(names)[..|names| - 1] == EmptyFiles(shorter);
    }
  }

  lemma NamesAreCollectable()
    ensures Collectable(EmptyFiles(SevenNames())) && Steady(EmptyFiles(SevenNames()))
  {
    hide NameAllowed, Required;
    var items := EmptyFiles(SevenNames());
    EmptyFilesHaveNoSize(SevenNames());
    forall k | 0 <= k < |items| ensures ItemOk(items[k]) {
      NamesAreAllowed(k);
    }
    forall k | 0 <= k < |Required()| ensures Required()[k] in ItemNames(items) {
      assert items[k].name == Required()[k];
    }
    assert |Required()| == 5 by { FiveRequired(); }
  }

  lemma FiveRequired()
    ensures |Required()| == 5
  {
  }

  /** With any codec that takes the two cases of a letter for one, the folder is
      backed up and the backup is refused. */
  lemma UnreadableBackupWitness(c: Codec)
    requires c.Lossless() && c.fold("guest/a") == c.fold("guest/A")
    ensures Collectable(EmptyFiles(SevenNames())) && Steady(EmptyFiles(SevenNames()))
    ensures Read(c, Packed(c, EmptyFiles(SevenNames()))).None?
  {
    hide Read, Collectable, Steady, ManifestText, Required;
    var items := EmptyFiles(SevenNames());
    NamesAreCollectable();
    FiveRequired();
    ReadsBackIff(c, items);
    var a := Packed(c, items);
    assert a[5] == Members(items)[5] && a[6] == Members(items)[6];
    assert a[5].name == "guest/a" && a[6].name == "guest/A";
  }
}

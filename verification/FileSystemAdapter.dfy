/** The directory-changing calls of the POSIX adapter, over a FileX that may fail at any call.

    Every method is one critical section of the registry mutex. Its contract says which event of
    module FileSystem it performed, if any; `error` is what the C function leaves in `errno`. A FileX
    operation takes effect or fails; a failing one reports a status that `filex_errno` maps to an
    error, and a lookup says "not found" only of a missing entry. The ghost field `faults` counts the
    FileX calls that failed although FileX had no reason to refuse them; without such a fault every
    call reports exactly the error that its specification function names. `published` is, for each medium,
    the state in which FileX last flushed it: what is flushed survives a reset. */
module FileSystemAdapter {
  import opened Errors
  import opened FileXTree
  import opened FileSystem
  import opened FileSystemErrors
  import opened Paths

  /** The calls to FileX that move or delete entries. `fault` says that the device failed, rather than
      that FileX refused the operation; a deletion records the tree it was applied to. */
  datatype FxCall =
    | RenameCall(from: Key, to: Key, done: bool, fault: bool)
    | DeleteCall(key: Key, done: bool, before: Tree)

  function MountName(volume: Volume): string {
    if volume.Flash? then "/flash" else "/sd"
  }

  const BACKUP_ATTEMPTS := 256
  const SEQUENCE_SIZE := 0x10_0000

  function HexDigit(digit: nat): (c: char)
    requires digit < 16
    ensures '0' <= c <= '9' || 'A' <= c <= 'F'
  {
    "0123456789ABCDEF"[digit]
  }

  /** The backup name with the five digits of `sequence`. */
  function BackupName(volume: Volume, sequence: nat): string
    requires sequence < SEQUENCE_SIZE
  {
    MountName(volume) + "/" + BackupEntry(sequence)
  }

  function BackupEntry(sequence: nat): string
    requires sequence < SEQUENCE_SIZE
  {
    "FXR" + Digits(sequence) + ".TMP"
  }

  function DigitWeight(digit: nat): nat
    requires digit < 5
  {
    [65536, 4096, 256, 16, 1][digit]
  }

  /** Five hexadecimal digits, the most significant first. */
  function Digits(sequence: nat): (digits: string)
    requires sequence < SEQUENCE_SIZE
    ensures |digits| == 5
  {
    seq(5, digit requires 0 <= digit < 5 => HexDigit(sequence / DigitWeight(digit) % 16))
  }

  // ----- Lemmas about places and backup names -----

  lemma EntryIsEntryKey(mounts: Mounts, key: Key)
    requires Resolved(mounts, key).Success? && Resolved(mounts, key).value.Entry?
    ensures IsInside(mounts, Resolved(mounts, key).value.volume, key)
    ensures key != "/" && key != MountKey(Flash) && key != MountKey(Sd)
  {
    var volume := Resolved(mounts, key).value.volume;
    CoversItself(MountKey(volume), key);
    assert Covers(key, key, false);
    EntryIsNoMount(mounts, key, key);
  }

  lemma BackupEntryIsName(sequence: nat)
    requires sequence < SEQUENCE_SIZE
    ensures IsName(BackupEntry(sequence)) && |BackupEntry(sequence)| == 12
    ensures forall i | 0 <= i < 12 :: BackupEntry(sequence)[i] != '/' && FoldCharacter(BackupEntry(sequence)[i]) != '/'
  {}

  lemma BackupNameIsCanonical(volume: Volume, sequence: nat)
    requires sequence < SEQUENCE_SIZE
    ensures IsPath(BackupName(volume, sequence)) && IsCanonical(BackupName(volume, sequence))
  {
    var mount := if volume.Flash? then "flash" else "sd";
    var stack := [mount, BackupEntry(sequence)];
    BackupEntryIsName(sequence);
    assert AreNames(stack) && Render(stack) == BackupName(volume, sequence) by {
      assert stack[..1] == [mount] && [mount][..0] == [];
      assert Spell([mount][..0]) == "" && Spell([mount]) == "" + "/" + mount;
    }
    SpellIsNulFree(stack);
  }

  lemma BackupNameIsPath(volume: Volume, sequence: nat)
    requires sequence < SEQUENCE_SIZE
    ensures |BackupName(volume, sequence)| == |MountName(volume)| + 13
    ensures forall i | |MountName(volume)| < i < |BackupName(volume, sequence)| ::
              BackupName(volume, sequence)[i] != '/'
    ensures Covers(MountKey(volume), Fold(BackupName(volume, sequence)), true)
    ensures Fold(BackupName(volume, sequence)) != MountKey(volume)
  {
    BackupEntryIsName(sequence);
    assert Fold(BackupName(volume, sequence))[..|MountKey(volume)|] == MountKey(volume);
  }

  /** The value of a hexadecimal digit. */
  function DigitValue(c: char): nat {
    if '0' <= c <= '9' then c as nat - '0' as nat
    else if 'A' <= c <= 'F' then c as nat - 'A' as nat + 10
    else 16
  }

  lemma DigitIsReadBack(sequence: nat, k: nat)
    requires sequence < SEQUENCE_SIZE && k < 5
    ensures DigitValue(Digits(sequence)[k]) == sequence / DigitWeight(k) % 16
  {
    var digit := sequence / DigitWeight(k) % 16;
    assert DigitValue(HexDigit(digit)) == digit;
  }

  /** The five digits, read as a hexadecimal number, give back the sequence number. */
  lemma DigitsAreReadBack(sequence: nat)
    requires sequence < SEQUENCE_SIZE
    ensures var d := Digits(sequence);
            65536 * DigitValue(d[0]) + 4096 * DigitValue(d[1]) + 256 * DigitValue(d[2]) + 16 * DigitValue(d[3])
            + DigitValue(d[4]) == sequence
    ensures forall k | 0 <= k < 5 :: DigitValue(Digits(sequence)[k]) < 16
  {
    DigitIsReadBack(sequence, 0);
    DigitIsReadBack(sequence, 1);
    DigitIsReadBack(sequence, 2);
    DigitIsReadBack(sequence, 3);
    DigitIsReadBack(sequence, 4);
    assert DigitWeight(0) == 65536 && DigitWeight(1) == 4096 && DigitWeight(2) == 256 && DigitWeight(3) == 16;
    hide DigitValue, Digits;
    HexadecimalPlaces(sequence);
  }

  lemma HexadecimalPlaces(n: nat)
    requires n < SEQUENCE_SIZE
    ensures 65536 * (n / 65536 % 16) + 4096 * (n / 4096 % 16) + 256 * (n / 256 % 16) + 16 * (n / 16 % 16) + n / 1 % 16
            == n
  {
    var a := n / 16;
    var b := a / 16;
    var c := b / 16;
    var d := c / 16;
    assert n / 256 == b;
    assert n / 4096 == c;
    assert n / 65536 == d && d < 16;
  }

  /** A backup name has no entry of its volume above it. */
  lemma BackupIsBelowNothing(mounts: Mounts, volume: Volume, sequence: nat, key: Key)
    requires sequence < SEQUENCE_SIZE && IsInside(mounts, volume, key)
    requires key != Fold(BackupName(volume, sequence))
    ensures !Covers(key, Fold(BackupName(volume, sequence)), true)
  {
    BackupNameIsPath(volume, sequence);
    var backup := Fold(BackupName(volume, sequence));
    CoversItself(MountKey(volume), key);
    CoversItself(key, backup);
    assert |MountKey(volume)| == |MountName(volume)|;
    if |key| < |backup| {
      assert backup[|key|] == FoldCharacter(BackupName(volume, sequence)[|key|]) != '/';
    }
  }

  lemma BackupAncestors(mounts: Mounts, tree: Tree, volume: Volume, sequence: nat)
    requires sequence < SEQUENCE_SIZE && IsMounted(mounts, volume)
    ensures AncestorsExist(mounts, tree, Fold(BackupName(volume, sequence)))
    ensures IsInside(mounts, volume, Fold(BackupName(volume, sequence)))
  {
    BackupNameIsPath(volume, sequence);
    var backup := Fold(BackupName(volume, sequence));
    assert |MountKey(volume)| == |MountName(volume)|;
    forall i | 0 < i < |backup| && backup[i] == '/' ensures IsDirectoryAt(mounts, tree, backup[..i]) {
      assert BackupName(volume, sequence)[i] == '/';
      assert i == |MountName(volume)|;
    }
  }

  // ----- The adapter -----

  const FIRST_FILE_DESCRIPTOR := 3

  /** All the backup names that one call would try are taken. */
  ghost predicate BackupsAreTaken(tree: Tree, volume: Volume, sequence: nat) {
    forall k | 0 <= k < BACKUP_ATTEMPTS :: BackupIsTaken(tree, volume, sequence, k)
  }

  predicate BackupIsTaken(tree: Tree, volume: Volume, sequence: nat, k: nat) {
    Fold(BackupName(volume, (sequence + k) % SEQUENCE_SIZE)) in tree
  }

  class Adapter {
    const mounts: Mounts
    const descriptors: array<Slot>
    var tree: Tree
    var nextId: nat
    var currentDirectory: string
    var renameBackupSequence: nat
    ghost var calls: seq<FxCall>
    ghost var faults: nat
    ghost var published: map<Volume, State>

    ghost function View(): State
      reads this, descriptors
    {
      State(mounts, tree, currentDirectory, descriptors[..], nextId)
    }

    /** At state `s` the medium of the entry was last flushed: what the medium holds is no older than that. */
    ghost predicate IsPublished(key: Key, s: State)
      reads this
    {
      exists volume :: IsInside(mounts, volume, key) && volume in published && published[volume] == s
    }

    ghost predicate Valid()
      reads this, descriptors
    {
      descriptors.Length == MAXIMUM_OPEN_FILES && IsSound(View())
    }

    /** `runtime_filex_initialize`, over the content `volumes` found on the media. */
    constructor (mounts: Mounts, volumes: Tree, nextId: nat)
      requires mounts.flash || mounts.sd
      requires IsClosed(mounts, volumes) && IdentifiesObjects(volumes)
      requires forall key | key in volumes :: volumes[key].id < nextId
      ensures Valid() && IsInitial(View()) && fresh(descriptors)
      ensures this.mounts == mounts && tree == volumes && this.nextId == nextId
      ensures currentDirectory == if mounts.flash then "/flash" else "/sd"
      ensures descriptors.Length == 16 && renameBackupSequence == 0 && calls == [] && faults == 0
    {
      this.mounts, this.tree, this.nextId := mounts, volumes, nextId;
      currentDirectory := if mounts.flash then "/flash" else "/sd";
      descriptors := new Slot[MAXIMUM_OPEN_FILES](_ => Free);
      renameBackupSequence, calls, faults, published := 0, [], 0, map[];
      new;
      assert descriptors[..] == seq(MAXIMUM_OPEN_FILES, _ => Free);
      InitialIsSound(View());
    }

    // ----- FileX -----

    /** A call to the device that may fail. */
    method Fault() returns (error: Errno)
      modifies `faults
      ensures faults == if error == OK then old(faults) else old(faults) + 1
    {
      error := *;
      if error != OK {
        faults := faults + 1;
      }
    }

    method FxInformation(key: Key) returns (error: Errno, directory: bool)
      modifies `faults
      ensures error == OK ==> key in tree && directory == tree[key].directory
      ensures error == ENOENT ==> key !in tree
      ensures faults >= old(faults) && (faults == old(faults) ==> error == if key in tree then OK else ENOENT)
    {
      directory := false;
      error := Fault();
      if error == OK || error == ENOENT {
        error := if key in tree then OK else ENOENT;
        directory := key in tree && tree[key].directory;
      }
    }

    method FxFlush(ghost volume: Volume) returns (error: Errno)
      modifies `faults, `published
      ensures faults == if error == OK then old(faults) else old(faults) + 1
      ensures published == if error == OK then old(published)[volume := View()] else old(published)
      ensures error == OK ==> forall key | IsInside(mounts, volume, key) :: IsPublished(key, View())
    {
      error := Fault();
      if error == OK {
        published := published[volume := View()];
      }
    }

    method FxCreate(directory: bool, key: Key) returns (error: Errno)
      requires Valid() && IsEntryKey(mounts, key)
      modifies `tree, `nextId, `faults
      ensures error != OK ==> View() == old(View())
      ensures error == OK ==> Creates(old(View()), View(), key, directory)
      ensures faults >= old(faults)
      ensures faults == old(faults) ==>
                error ==
                  if key in old(tree) then EEXIST else if !AncestorsExist(mounts, old(tree), key) then EINVAL else OK
    {
      error := Fault();
      if error == OK && (key in tree || !AncestorsExist(mounts, tree, key)) {
        error := if key in tree then EEXIST else EINVAL;
      }
      if error == OK {
        tree := tree[key := Node(nextId, directory)];
        nextId := nextId + 1;
      }
    }

    predicate AcceptsRename(directory: bool, from: Key, to: Key)
      reads `tree
    {
      && from in tree && tree[from].directory == directory
      && (from == to || to !in tree) && AncestorsExist(mounts, tree, to)
    }

    /** FileX accepts the rename or refuses it, unless the device fails. It does not look whether a directory
        would come to lie below itself: it is never asked to do that. */
    method FxRename(directory: bool, from: Key, to: Key) returns (error: Errno, ghost fault: bool)
      requires directory && from != to ==> !Covers(from, to, true)
      modifies `tree, `calls, `faults
      ensures faults == if fault then old(faults) + 1 else old(faults)
      ensures !fault && old(from in tree && tree[from].directory == directory && (from == to || to !in tree)) ==>
                error == if old(AncestorsExist(mounts, tree, to)) then OK else EINVAL
      ensures calls == old(calls) + [RenameCall(from, to, error == OK, fault)]
      ensures error == OK <==> !fault && old(AcceptsRename(directory, from, to))
      ensures error != OK ==> tree == old(tree)
      ensures error == OK ==> tree == Move(old(tree), from, to, directory)
    {
      error := Fault();
      fault := error != OK;
      if error == OK && !AcceptsRename(directory, from, to) {
        error := if from !in tree then ENOENT
        else if tree[from].directory != directory then (if directory then ENOTDIR else EISDIR)
        else if from != to && to in tree then EEXIST
        else EINVAL;
      }
      calls := calls + [RenameCall(from, to, error == OK, fault)];
      if error == OK {
        tree := Move(tree, from, to, directory);
      }
    }

    /** A file that FileX holds open is not deleted; neither is a directory with entries. */
    method FxDelete(directory: bool, key: Key) returns (error: Errno)
      modifies `tree, `calls, `faults
      ensures faults >= old(faults)
      ensures faults == old(faults) && old(key in tree && tree[key].directory == directory) ==>
                error == if directory && !IsEmptyDirectory(old(tree), key) then ENOTEMPTY
                         else if !directory && IsHeld(old(View()), key) then EACCES else OK
      ensures calls == old(calls) + [DeleteCall(key, error == OK, old(tree))]
      ensures error != OK ==> tree == old(tree)
      ensures error == OK ==>
                && key in old(tree) && old(tree)[key].directory == directory && tree == old(tree) - {key}
                && (directory ==> IsEmptyDirectory(old(tree), key))
                && (!directory ==> forall i | 0 <= i < descriptors.Length && descriptors[i].Open?
                                              && descriptors[i].file == old(tree)[key].id ::
                                     descriptors[i].mode == Detached)
    {
      error := Fault();
      if error == OK {
        error := if key !in tree then ENOENT
        else if tree[key].directory != directory then (if directory then ENOTDIR else EISDIR)
        else if directory && !IsEmptyDirectory(tree, key) then ENOTEMPTY
        else if !directory && exists i | 0 <= i < descriptors.Length ::
            descriptors[i].Open? && descriptors[i].file == tree[key].id && descriptors[i].mode != Detached then EACCES
        else OK;
      }
      calls := calls + [DeleteCall(key, error == OK, tree)];
      if error == OK {
        tree := tree - {key};
      }
    }

    // ----- Paths and lookups -----

    method Normalize(path: CString) returns (result: Result<string>)
      requires Valid()
      ensures result == Normalized(currentDirectory, path)
      ensures result.Success? ==> IsPath(result.value) && IsCanonical(result.value)
    {
      var output := new char[Paths.MAXIMUM_PATH](_ => '\0');
      var error := NormalizePath(currentDirectory, path, output);
      if error != OK {
        return Failure(error);
      }
      ghost var text := Normalized(currentDirectory, path).value;
      NormalizedIsCanonical(currentDirectory, path);
      NormalizedNeverGrows(currentDirectory, path);
      assert forall i | 0 <= i < |text| :: output[i] == output[..|text|][i] == text[i];
      var length := 0;
      while output[length] != '\0'
        invariant length <= |text|
        decreases |text| - length
      {
        length := length + 1;
      }
      result := Success(output[..length]);
    }

    /** `resolve_normalized_path`. */
    method Resolve(name: string) returns (result: Result<Place>)
      ensures result == Resolved(mounts, Fold(name))
    {
      if name == "/" {
        return Success(VirtualRoot);
      }
      assert Fold(name) == "/" ==> name == "/";
      var found := PathHasPrefix(name, MountName(Flash), true);
      assert Fold(MountName(Flash)) == MountKey(Flash) && Fold(MountName(Sd)) == MountKey(Sd);
      CoversItself(MountKey(Flash), Fold(name));
      CoversItself(MountKey(Sd), Fold(name));
      if found {
        if !mounts.flash { return Failure(ENODEV); }
        return Success(if |name| == |MountName(Flash)| then MountRoot(Flash) else Entry(Flash));
      }
      found := PathHasPrefix(name, MountName(Sd), true);
      if found {
        if !mounts.sd { return Failure(ENODEV); }
        return Success(if |name| == |MountName(Sd)| then MountRoot(Sd) else Entry(Sd));
      }
      return Failure(ENOENT);
    }

    /** `information_unlocked` on a path that is already normalised: normalising again changes nothing. */
    method Information(name: CString) returns (error: Errno, directory: bool)
      requires Valid() && IsPath(name) && IsCanonical(name)
      modifies `faults
      ensures faults >= old(faults) && (faults == old(faults) ==> error == LookupError(View(), Fold(name)))
      ensures error == OK ==> directory == IsDirectoryAt(mounts, tree, Fold(name))
      ensures error == OK ==> Resolved(mounts, Fold(name)).Success? && (directory || Fold(name) in tree)
      ensures error == OK && Resolved(mounts, Fold(name)).value.Entry? ==> Fold(name) in tree
      ensures error == ENOENT ==> Fold(name) !in tree
    {
      var normalized := Normalize(name);
      CanonicalIsFixed(currentDirectory, name);
      var place: Result<Place>;
      match normalized {
        case Failure(e) => place := Failure(e);
        case Success(value) => place := Resolve(value);
      }
      if place.Failure? {
        error, directory := place.error, false;
        if Fold(name) in tree { assert IsEntryKey(mounts, Fold(name)); }
        return;
      }
      if !place.value.Entry? {
        return OK, true;
      }
      EntryIsEntryKey(mounts, Fold(name));
      error, directory := FxInformation(Fold(name));
    }

    // ----- Descriptors -----

    /** Some descriptor has the file open for writing: FileX has not yet written its size and clusters. */
    ghost predicate HasWriter(path: string)
      reads this, descriptors
    {
      exists j :: 0 <= j < descriptors.Length && descriptors[j].Open? && descriptors[j].mode == Writing
                  && Fold(descriptors[j].path) == Fold(path)
    }

    ghost function Detaching(s: State, i: nat): State
      requires i < |s.slots| && s.slots[i].Open?
    {
      s.(slots := s.slots[i := s.slots[i].(mode := Detached)])
    }

    /** `switch_mode`: close, resolve, flush behind a writer, reopen, seek. Any step can fail. */
    method SwitchMode(i: nat, requested: Mode) returns (error: Errno)
      requires Valid() && i < descriptors.Length && descriptors[i].Open? && IsAttached(requested)
      modifies descriptors, `faults, `published
      ensures faults >= old(faults) && (faults == old(faults) ==> error == OK)
      ensures Valid() && descriptors[i].Open?
      ensures View() == old(View()) || Switches(old(View()), View(), i, descriptors[i].mode)
      ensures error == OK ==> descriptors[i].mode == requested
      ensures error == OK && old(descriptors[i].mode) != requested == Reading && HasWriter(descriptors[i].path) ==>
                IsPublished(Fold(descriptors[i].path), Detaching(old(View()), i))
      ensures error != OK ==>
                descriptors[i].mode == requested || descriptors[i].mode == Detached ||
                (descriptors[i].mode == Lingering && IsAttached(old(descriptors[i].mode)))
    {
      hide Resolved, FileSystem.TreeIsSound, FileSystem.DirectoryIsSound;
      var slot := descriptors[i];
      if slot.mode == requested {
        return OK;
      }
      if IsAttached(slot.mode) {
        error := Fault();
        if error != OK {
          SetMode(i, Lingering);
          return;
        }
      }
      SetMode(i, Detached);
      error := Reopen(i, requested);
    }

    /** The second half of `switch_mode`: the file is found again, a writer's data are published, and it is
        opened and positioned. */
    method Reopen(i: nat, requested: Mode) returns (error: Errno)
      requires Valid() && i < descriptors.Length && descriptors[i].Open? && descriptors[i].mode == Detached
      requires IsAttached(requested)
      modifies descriptors, `faults, `published
      ensures faults >= old(faults) && (faults == old(faults) ==> error == OK)
      ensures Valid() && descriptors[i].Open?
      ensures View() == old(View()) || Switches(old(View()), View(), i, requested)
      ensures error == OK ==> descriptors[i].mode == requested
      ensures error == OK && requested == Reading && old(HasWriter(descriptors[i].path)) ==>
                IsPublished(Fold(descriptors[i].path), old(View()))
      ensures requested == Writing || !old(HasWriter(descriptors[i].path)) ==> published == old(published)
    {
      hide Resolved, FileSystem.TreeIsSound, FileSystem.DirectoryIsSound;
      var slot := descriptors[i];
      assert NamesItsObject(tree, slot);
      StoredPathResolves(slot.path);
      var place := Resolve(slot.path);
      error := match place case Failure(e) => e case Success(found) => if found.Entry? then OK else EISDIR;
      if error != OK {
        return;
      }
      if requested == Reading && exists j | 0 <= j < descriptors.Length ::
           descriptors[j].Open? && descriptors[j].mode == Writing && Fold(descriptors[j].path) == Fold(slot.path) {
        error := FxFlush(place.value.volume);
        if error != OK {
          return;
        }
      }
      error := Fault();
      if error != OK {
        return;
      }
      SetMode(i, requested);
      error := Fault();
    }

    /** The path of a descriptor names a file, and so an entry of a mounted volume. */
    lemma StoredPathResolves(path: string)
      requires Valid() && Fold(path) in tree
      ensures Resolved(mounts, Fold(path)).Success? && Resolved(mounts, Fold(path)).value.Entry?
      ensures IsInside(mounts, Resolved(mounts, Fold(path)).value.volume, Fold(path))
    {
      var key := Fold(path);
      assert IsEntryKey(mounts, key);
      assert Covers(key, key, false);
      EntryIsNoMount(mounts, key, key);
      SdIsNotFlash(key);
    }

    method SetMode(i: nat, mode: Mode)
      requires Valid() && i < descriptors.Length && descriptors[i].Open?
      modifies descriptors
      ensures Valid() && Switches(old(View()), View(), i, mode)
    {
      ghost var before := View();
      descriptors[i] := descriptors[i].(mode := mode);
      assert Switches(before, View(), i, mode);
      StepKeepsExactlyWhenSafe(before, View(), Event.SwitchMode(i, mode));
    }

    /** `descriptor_for`: the slot behind a descriptor number. */
    method SlotFor(fd: int) returns (result: Result<nat>)
      requires Valid()
      ensures result.Success? <==>
                3 <= fd < 19 && descriptors[fd - FIRST_FILE_DESCRIPTOR].Open?
      ensures result.Success? ==> result.value == fd - FIRST_FILE_DESCRIPTOR
      ensures result.Failure? ==> result.error == EBADF
    {
      if fd < FIRST_FILE_DESCRIPTOR {
        return Failure(EBADF);
      }
      var index := fd - FIRST_FILE_DESCRIPTOR;
      if index >= descriptors.Length || descriptors[index].Free? {
        return Failure(EBADF);
      }
      return Success(index);
    }

    method FreeSlot() returns (slot: nat)
      requires Valid()
      ensures slot <= descriptors.Length && (slot < descriptors.Length ==> descriptors[slot].Free?)
      ensures slot == descriptors.Length ==> forall i | 0 <= i < descriptors.Length :: descriptors[i].Open?
    {
      slot := 0;
      while slot < descriptors.Length && descriptors[slot].Open?
        invariant slot <= descriptors.Length && forall i | 0 <= i < slot :: descriptors[i].Open?
      {
        slot := slot + 1;
      }
    }

    /** `_open`: perhaps creates the file (`middle` is the state after that), then takes a free slot. */
    method Open(path: CString, flags: Flags)
      returns (fd: int, error: Errno, ghost name: string, ghost created: bool, ghost middle: State)
      requires Valid()
      modifies `tree, `nextId, `faults, `published, descriptors
      ensures Valid()
      ensures faults >= old(faults) && (faults == old(faults) ==> error == OpenError(old(View()), path, flags))
      ensures error == OK || created ==> old(Normalized(currentDirectory, path)) == Success(name)
      ensures if created then flags.create && Creates(old(View()), middle, Fold(name), false) else middle == old(View())
      ensures error != OK ==> fd == -1 && View() == middle
      ensures error == OK ==>
                && 3 <= fd < 19 && middle.slots[fd - 3].Free?
                && Opens(middle, View(), fd - FIRST_FILE_DESCRIPTOR, name,
                         if flags.access == ReadOnly then Reading else Writing)
      ensures error == OK && flags.create && flags.exclusive ==> created
      ensures error == OK ==>
                var slot := descriptors[fd - FIRST_FILE_DESCRIPTOR];
                && (slot.readable <==> flags.access == ReadOnly || flags.access == ReadWrite)
                && (slot.writable <==> flags.access == WriteOnly || flags.access == ReadWrite)
                && (slot.flushOnClose <==> created || slot.writable)
    {
      hide FileSystem.IsSound, Paths.Normalized;
      fd, created, middle := -1, false, View();
      var fileName, slot, present;
      error, fileName, slot, present := CheckOpen(path, flags);
      name := fileName;
      if error == OK && !present {
        error := CreateEntry(false, fileName);
        created, middle := error == OK, View();
      }
      if error == OK {
        error := TakeSlot(slot, fileName, flags, !present);
        fd := if error == OK then FIRST_FILE_DESCRIPTOR + slot else -1;
      }
    }

    /** The checks of `_open`, in the order of the code. */
    method CheckOpen(path: CString, flags: Flags) returns (error: Errno, name: string, slot: nat, present: bool)
      requires Valid()
      modifies `faults
      ensures faults >= old(faults)
      ensures faults == old(faults) && error != OK ==> error == OpenError(View(), path, flags)
      ensures faults == old(faults) && error == OK ==>
                OpenError(View(), path, flags) ==
                  if present || AncestorsExist(mounts, tree, Fold(name)) then OK else EINVAL
      ensures error == OK ==>
                && Normalized(currentDirectory, path) == Success(name)
                && IsPath(name) && IsEntryKey(mounts, Fold(name))
                && slot < descriptors.Length && descriptors[slot].Free?
      ensures error == OK ==> !flags.access.BadAccess?
      ensures error == OK && present ==> Fold(name) in tree && !tree[Fold(name)].directory
      ensures error == OK && present ==> !(flags.create && flags.exclusive)
      ensures error == OK && !present ==> flags.create && Fold(name) !in tree
    {
      error, name, slot, present := OK, "", 0, false;
      if flags.access == BadAccess {
        error := EINVAL;
        return;
      }
      var place;
      error, name, place := Locate(path);
      if error != OK {
        return;
      }
      if !place.Entry? {
        error := EISDIR;
        return;
      }
      slot := FreeSlot();
      if slot == descriptors.Length {
        error := EMFILE;
        return;
      }
      EntryIsEntryKey(mounts, Fold(name));
      var directory;
      error, directory := Information(name);
      present := error == OK;
      if present && directory {
        error := EISDIR;
      } else if present && flags.create && flags.exclusive {
        error := EEXIST;
      } else if error == ENOENT && flags.create {
        error := OK;
      }
    }

    /** Normalise and resolve, as most calls begin. */
    method Locate(path: CString) returns (error: Errno, name: string, place: Place)
      requires Valid()
      ensures error == LocateError(View(), path)
      ensures error == OK ==> Normalized(currentDirectory, path) == Success(name) && IsPath(name) && IsCanonical(name)
      ensures error == OK ==> Resolved(mounts, Fold(name)) == Success(place)
    {
      error, name, place := OK, "", VirtualRoot;
      var normalized := Normalize(path);
      if normalized.Failure? {
        error := normalized.error;
        return;
      }
      name := normalized.value;
      var resolved := Resolve(name);
      match resolved {
        case Failure(e) => error := e;
        case Success(found) => place := found;
      }
    }

    /** Filling the slot, opening the file in FileX, and truncating; on failure the slot is free again. */
    method TakeSlot(slot: nat, name: string, flags: Flags, created: bool) returns (error: Errno)
      requires Valid() && slot < descriptors.Length && descriptors[slot].Free? && IsPath(name)
      requires Fold(name) in tree && !tree[Fold(name)].directory
      modifies descriptors, `faults, `published
      ensures Valid()
      ensures faults >= old(faults) && (faults == old(faults) ==> error == OK)
      ensures error != OK ==> View() == old(View())
      ensures error == OK ==>
                Opens(old(View()), View(), slot, name, if flags.access == ReadOnly then Reading else Writing)
      ensures error == OK && !flags.access.BadAccess? ==>
                && (descriptors[slot].readable <==> flags.access == ReadOnly || flags.access == ReadWrite)
                && (descriptors[slot].writable <==> flags.access == WriteOnly || flags.access == ReadWrite)
                && (descriptors[slot].flushOnClose <==> created || descriptors[slot].writable)
    {
      hide IsPublished, HasWriter;
      ghost var before := View();
      var mode := if flags.access == ReadOnly then Reading else Writing;
      descriptors[slot] := Slot.Open(name, tree[Fold(name)].id, Detached,
                                      flags.access != WriteOnly, flags.access != ReadOnly,
                                      created || flags.access != ReadOnly);
      StepKeepsExactlyWhenSafe(before, View(), OpenFile(slot, name, Detached));
      error := SwitchMode(slot, mode);
      if error == OK && flags.access != ReadOnly && flags.truncate {
        error := Fault();
      }
      if error != OK {
        ghost var failed := View();
        descriptors[slot] := Free;
        assert View().slots == before.slots;
      }
    }

    /** `_close`: the slot is released even when closing or flushing failed. */
    method Close(fd: int) returns (error: Errno)
      requires Valid()
      modifies descriptors, `faults, `published
      ensures Valid()
      ensures old(FIRST_FILE_DESCRIPTOR <= fd < FIRST_FILE_DESCRIPTOR + MAXIMUM_OPEN_FILES
                  && descriptors[fd - FIRST_FILE_DESCRIPTOR].Open?) ==>
                Closes(old(View()), View(), fd - FIRST_FILE_DESCRIPTOR) && (error == OK <==> faults == old(faults))
      ensures error == OK && old(FIRST_FILE_DESCRIPTOR <= fd < FIRST_FILE_DESCRIPTOR + MAXIMUM_OPEN_FILES
                                 && descriptors[fd - FIRST_FILE_DESCRIPTOR].Open?
                                 && descriptors[fd - FIRST_FILE_DESCRIPTOR].flushOnClose) ==>
                IsPublished(Fold(old(descriptors[fd - FIRST_FILE_DESCRIPTOR].path)), View())
      ensures !old(FIRST_FILE_DESCRIPTOR <= fd < FIRST_FILE_DESCRIPTOR + MAXIMUM_OPEN_FILES
                   && descriptors[fd - FIRST_FILE_DESCRIPTOR].Open?) ==>
                View() == old(View()) && error == if 0 <= fd <= 2 then OK else EBADF
    {
      if 0 <= fd <= 2 {
        return OK;
      }
      var found := SlotFor(fd);
      if found.Failure? {
        return found.error;
      }
      ghost var before := View();
      var slot := descriptors[found.value];
      assert NamesItsObject(tree, slot);
      StoredPathResolves(slot.path);
      descriptors[found.value] := Free;
      StepKeepsExactlyWhenSafe(before, View(), CloseFile(found.value));
      error := OK;
      if IsAttached(slot.mode) {
        error := Fault();
      }
      if error == OK && slot.flushOnClose {
        error := FxFlush(Resolved(mounts, Fold(slot.path)).value.volume);
      }
    }

    /** `_fsync`. */
    method Sync(fd: int) returns (error: Errno)
      requires Valid()
      modifies `faults, `published
      ensures if FIRST_FILE_DESCRIPTOR <= fd < FIRST_FILE_DESCRIPTOR + MAXIMUM_OPEN_FILES
                 && descriptors[fd - FIRST_FILE_DESCRIPTOR].Open?
              then (error == OK <==> faults == old(faults)) &&
                   (error == OK ==> IsPublished(Fold(descriptors[fd - FIRST_FILE_DESCRIPTOR].path), View()))
              else error == EBADF && published == old(published)
    {
      var found := SlotFor(fd);
      if found.Failure? {
        return found.error;
      }
      var slot := descriptors[found.value];
      assert NamesItsObject(tree, slot);
      StoredPathResolves(slot.path);
      var place := Resolve(slot.path);
      error := match place case Failure(e) => e case Success(_) => OK;
      if error == OK {
        error := FxFlush(place.value.volume);
      }
    }

    // ----- Directories and names -----

    /** `setCurrentPath`, behind `_chdir`. */
    method ChangeDirectory(path: CString) returns (error: Errno)
      requires Valid()
      modifies `currentDirectory, `faults
      ensures Valid()
      ensures faults >= old(faults) && (faults == old(faults) ==> error == ChangeDirectoryError(old(View()), path))
      ensures error != OK ==> View() == old(View())
      ensures error == OK ==>
                && old(Normalized(currentDirectory, path)) == Success(currentDirectory)
                && Enters(old(View()), View(), currentDirectory)
    {
      var normalized := Normalize(path);
      if normalized.Failure? {
        return normalized.error;
      }
      var directory;
      error, directory := Information(normalized.value);
      if error == OK && !directory {
        error := ENOTDIR;
      }
      if error == OK {
        currentDirectory := normalized.value;
      }
    }

    /** `_mkdir`. A failing flush is reported although the directory now exists. */
    method MakeDirectory(path: CString) returns (error: Errno, ghost created: bool, ghost name: string)
      requires Valid()
      modifies `tree, `nextId, `faults, `published
      ensures Valid()
      ensures faults >= old(faults) && (faults == old(faults) ==> error == MakeDirectoryError(old(View()), path))
      ensures error == OK ==> created && IsPublished(Fold(name), View())
      ensures if created then old(Normalized(currentDirectory, path)) == Success(name)
                              && Creates(old(View()), View(), Fold(name), true)
              else View() == old(View())
    {
      created := false;
      var directoryName, place;
      error, directoryName, place := Locate(path);
      name := directoryName;
      if error != OK {
        return;
      }
      if !place.Entry? {
        error := EEXIST;
        return;
      }
      EntryIsEntryKey(mounts, Fold(directoryName));
      error := CreateEntry(true, directoryName);
      if error == OK {
        created := true;
        error := FxFlush(place.volume);
      }
    }

    method CreateEntry(directory: bool, name: string) returns (error: Errno)
      requires Valid() && IsEntryKey(mounts, Fold(name))
      modifies `tree, `nextId, `faults
      ensures Valid() && faults >= old(faults)
      ensures faults == old(faults) ==>
                error == if Fold(name) in old(tree) then EEXIST
                         else if !AncestorsExist(mounts, old(tree), Fold(name)) then EINVAL else OK
      ensures error != OK ==> View() == old(View())
      ensures error == OK ==> Creates(old(View()), View(), Fold(name), directory)
      ensures error == OK ==> Fold(name) in tree && tree[Fold(name)].directory == directory
    {
      ghost var before := View();
      error := FxCreate(directory, Fold(name));
      if error == OK {
        StepKeepsExactlyWhenSafe(before, View(), Event.Create(Fold(name), directory));
      }
    }

    /** `_unlink`. The invariant survives exactly when no detached descriptor names the deleted file. */
    method Unlink(path: CString) returns (error: Errno, ghost deleted: Option<Key>)
      requires Valid()
      modifies `tree, `calls, `faults, `published
      ensures faults >= old(faults) && (faults == old(faults) ==> error == UnlinkError(old(View()), path))
      ensures deleted.None? ==> View() == old(View()) && error != OK
      ensures error == OK ==> IsPublished(deleted.value, View())
      ensures deleted.Some? ==> Unlinks(old(View()), View(), deleted.value)
      ensures deleted.Some? ==>
                old(Normalized(currentDirectory, path)).Success?
                && deleted.value == Fold(old(Normalized(currentDirectory, path)).value)
      ensures Valid() <==> deleted.None? || IsSafe(old(View()), Event.Unlink(deleted.value))
    {
      deleted := None;
      var name, place, directory;
      error, name, place := Locate(path);
      if error == OK {
        error, directory := Information(name);
      }
      if error != OK {
        return;
      }
      if directory {
        error := EISDIR;
        return;
      }
      if !place.Entry? {
        error := EBUSY;
        return;
      }
      ghost var before := View();
      error := FxDelete(false, Fold(name));
      if error == OK {
        deleted := Some(Fold(name));
        StepKeepsExactlyWhenSafe(before, View(), Event.Unlink(Fold(name)));
        error := FxFlush(place.volume);
      }
    }

    /** `_rmdir`. The working directory and its ancestors are refused. */
    method RemoveDirectory(path: CString) returns (error: Errno, ghost deleted: Option<Key>)
      requires Valid()
      modifies `tree, `calls, `faults, `published
      ensures Valid()
      ensures faults >= old(faults) && (faults == old(faults) ==> error == RemoveDirectoryError(old(View()), path))
      ensures deleted.None? ==> View() == old(View()) && error != OK
      ensures error == OK ==> IsPublished(deleted.value, View())
      ensures deleted.Some? ==>
                && RemovesDirectory(old(View()), View(), deleted.value)
                && old(Normalized(currentDirectory, path)).Success?
                && deleted.value == Fold(old(Normalized(currentDirectory, path)).value)
    {
      hide IsPublished, FileSystem.TreeIsSound;
      deleted := None;
      var name, place, directory;
      error, name, place := Locate(path);
      if error == OK {
        error, directory := Information(name);
      }
      if error != OK {
        return;
      }
      if !directory {
        error := ENOTDIR;
        return;
      }
      if !place.Entry? {
        error := EBUSY;
        return;
      }
      var busy := PathHasPrefix(currentDirectory, name, true);
      if busy {
        error := EBUSY;
        return;
      }
      ghost var before := View();
      error := FxDelete(true, Fold(name));
      if error == OK {
        deleted := Some(Fold(name));
        StepKeepsExactlyWhenSafe(before, View(), Event.RemoveDirectory(Fold(name)));
        error := FxFlush(place.volume);
      }
    }

    // ----- Renaming -----

    /** The first checks of `_rename`: both paths resolve, the source exists, neither is a volume. */
    method PrepareRename(oldPath: CString, newPath: CString)
      returns (error: Errno, oldName: string, newName: string, volume: Volume, directory: bool)
      requires Valid()
      modifies `faults
      ensures faults >= old(faults)
      ensures faults == old(faults) && error != OK ==> error == RenameError(View(), oldPath, newPath)
      ensures error == OK ==>
                && Normalized(currentDirectory, oldPath) == Success(oldName) && IsPath(oldName)
                && Normalized(currentDirectory, newPath) == Success(newName) && IsPath(newName)
                && IsCanonical(newName)
                && IsInside(mounts, volume, Fold(oldName)) && IsInside(mounts, volume, Fold(newName))
                && IsEntry(View(), Fold(newName)) && Fold(oldName) in tree && tree[Fold(oldName)].directory == directory
                && RenameError(View(), oldPath, newPath) == MoveError(View(), oldName, newName)
    {
      var oldPlace, newPlace;
      newName, volume, directory := "", Flash, false;
      error, oldName, oldPlace := Locate(oldPath);
      if error == OK {
        error, newName, newPlace := Locate(newPath);
      }
      if error == OK {
        error, directory := Information(oldName);
      }
      if error != OK {
        return;
      }
      if !oldPlace.Entry? || !newPlace.Entry? {
        error := EBUSY;
        return;
      }
      if oldPlace.volume != newPlace.volume {
        error := EXDEV;
        return;
      }
      volume := oldPlace.volume;
      EntryIsEntryKey(mounts, Fold(oldName));
      EntryIsEntryKey(mounts, Fold(newName));
    }

    /** No stored path may outgrow its buffer when the source moves. */
    method CheckLengths(oldName: string, newName: string, directory: bool) returns (error: Errno)
      requires Valid()
      ensures error == OK <==> PathsFit(View(), oldName, newName, directory)
      ensures error == OK || error == ENAMETOOLONG
    {
      var i := 0;
      while i < descriptors.Length
        invariant 0 <= i <= descriptors.Length
        invariant forall j | 0 <= j < i && descriptors[j].Open? ::
            |MigratePath(descriptors[j].path, oldName, newName, directory)| < Paths.MAXIMUM_PATH
      {
        if descriptors[i].Open? {
          var length := MigratedLength(descriptors[i].path, oldName, newName, directory);
          if length >= Paths.MAXIMUM_PATH {
            return ENAMETOOLONG;
          }
        }
        i := i + 1;
      }
      if directory {
        var length := MigratedLength(currentDirectory, oldName, newName, true);
        if length >= Paths.MAXIMUM_PATH {
          return ENAMETOOLONG;
        }
      }
      return OK;
    }

    /** `migrated_path_length`. */
    method MigratedLength(path: string, oldName: string, newName: string, descend: bool) returns (length: nat)
      ensures length == |MigratePath(path, oldName, newName, descend)|
    {
      var covered := PathHasPrefix(path, oldName, descend);
      return if covered then |newName| + |path[|oldName|..]| else |path|;
    }

    /** Does any allocated descriptor (any attached one, when asked) lie at or below `name`? */
    method AnyDescriptorAt(name: string, descend: bool, attachedOnly: bool) returns (found: bool)
      requires Valid()
      ensures found <==>
                exists i :: 0 <= i < descriptors.Length && descriptors[i].Open?
                            && (attachedOnly ==> IsAttached(descriptors[i].mode))
                            && Covers(Fold(name), Fold(descriptors[i].path), descend)
    {
      var i := 0;
      while i < descriptors.Length
        invariant 0 <= i <= descriptors.Length
        invariant forall j | 0 <= j < i && descriptors[j].Open? && (attachedOnly ==> IsAttached(descriptors[j].mode)) ::
            !Covers(Fold(name), Fold(descriptors[j].path), descend)
      {
        if descriptors[i].Open? && (attachedOnly ==> IsAttached(descriptors[i].mode)) {
          found := PathHasPrefix(descriptors[i].path, name, descend);
          if found {
            return;
          }
        }
        i := i + 1;
      }
      return false;
    }

    /** `require_empty_directory_unlocked`. */
    method RequireEmptyDirectory(name: string) returns (error: Errno)
      requires Valid() && Fold(name) in tree && tree[Fold(name)].directory
      modifies `faults
      ensures error == OK ==> IsEmptyDirectory(tree, Fold(name))
      ensures faults >= old(faults)
      ensures faults == old(faults) ==> error == if IsEmptyDirectory(tree, Fold(name)) then OK else ENOTEMPTY
    {
      error := Fault();
      if error == OK && !IsEmptyDirectory(tree, Fold(name)) {
        error := ENOTEMPTY;
      }
      var resetError := Fault();
      error := if error != OK then error else resetError;
    }

    /** What an existing destination must satisfy to be replaced. */
    method CheckDestination(oldName: string, newName: string, directory: bool, isDirectory: bool, isSource: bool)
      returns (error: Errno)
      requires Valid() && Fold(newName) in tree && tree[Fold(newName)].directory == isDirectory
      requires Fold(oldName) in tree && tree[Fold(oldName)].directory == directory
      requires isSource <==> Fold(oldName) == Fold(newName)
      modifies `faults
      ensures faults >= old(faults)
      ensures faults == old(faults) && !isSource ==> error == ReplaceError(View(), directory, Fold(newName))
      ensures faults == old(faults) && isSource ==> error == OK
      ensures error == OK && !isSource ==>
                && isDirectory == directory
                && (directory ==> IsEmptyDirectory(tree, Fold(newName))
                                  && !Covers(Fold(newName), Fold(currentDirectory), true))
                && forall i | 0 <= i < descriptors.Length && descriptors[i].Open? ::
                     !Covers(Fold(newName), Fold(descriptors[i].path), directory)
    {
      if directory != isDirectory {
        return if directory then ENOTDIR else EISDIR;
      }
      if !isSource && directory {
        var busy := PathHasPrefix(currentDirectory, newName, true);
        if busy {
          return EBUSY;
        }
      }
      if !isSource {
        var busy := AnyDescriptorAt(newName, isDirectory, false);
        if busy {
          return EBUSY;
        }
      }
      error := OK;
      if !isSource && isDirectory {
        error := RequireEmptyDirectory(newName);
      }
    }

    /** Whether the new name exists, and if so, whether it may be replaced. */
    method LookAtDestination(oldName: string, newName: string, directory: bool, isSource: bool)
      returns (error: Errno, destinationExists: bool)
      requires Valid() && IsPath(newName) && IsCanonical(newName) && IsEntry(View(), Fold(newName))
      requires Fold(oldName) in tree && tree[Fold(oldName)].directory == directory
      requires isSource <==> Fold(oldName) == Fold(newName)
      modifies `faults
      ensures faults >= old(faults)
      ensures faults == old(faults) ==>
                error ==
                  if isSource || Fold(newName) !in tree then OK else ReplaceError(View(), directory, Fold(newName))
      ensures error == OK ==> (destinationExists <==> Fold(newName) in tree)
      ensures error == OK && destinationExists && !isSource ==> ReplaceError(View(), directory, Fold(newName)) == OK
    {
      hide FileSystem.IsSound;
      destinationExists := false;
      var isDirectory;
      error, isDirectory := Information(newName);
      if error == OK {
        destinationExists := true;
        EntryIsEntryKey(mounts, Fold(newName));
        error := CheckDestination(oldName, newName, directory, isDirectory, isSource);
      } else if error == ENOENT {
        error := OK;
      }
    }

    /** FileX has a file at or below the name open. */
    ghost predicate IsHeldOpen(name: string, descend: bool)
      reads this, descriptors
    {
      exists i :: 0 <= i < descriptors.Length && descriptors[i].Open? && IsAttached(descriptors[i].mode)
                  && Covers(Fold(name), Fold(descriptors[i].path), descend)
    }

    /** The checks of `_rename` between resolving the names and changing the tree. */
    method CheckRename(oldName: string, newName: string, directory: bool, ghost volume: Volume)
      returns (error: Errno, isSource: bool, destinationExists: bool)
      requires Valid() && IsPath(oldName) && IsPath(newName) && IsCanonical(newName)
      requires Fold(oldName) in tree && tree[Fold(oldName)].directory == directory
      requires IsEntryKey(mounts, Fold(newName)) && IsEntry(View(), Fold(newName))
      requires IsInside(mounts, volume, Fold(oldName))
      modifies `faults, `published
      ensures faults >= old(faults)
      ensures faults == old(faults) && error != OK ==> error == MoveError(View(), oldName, newName)
      ensures faults == old(faults) && error == OK ==>
                MoveError(View(), oldName, newName) ==
                if oldName == newName || Fold(newName) in tree || AncestorsExist(mounts, tree, Fold(newName)) then OK
                else EINVAL
      ensures isSource <==> Fold(oldName) == Fold(newName)
      ensures error == OK ==> MayRename(View(), oldName, newName)
      ensures error == OK && oldName != newName ==> (destinationExists <==> Fold(newName) in tree)
      ensures error == OK && oldName != newName && IsHeldOpen(oldName, directory) ==> IsPublished(Fold(oldName), View())
    {
      hide IsPublished;
      destinationExists := false;
      var spellingChanged := oldName != newName;
      isSource := PathHasPrefix(oldName, newName, false);
      CoversItself(Fold(newName), Fold(oldName));
      if directory && !isSource {
        var below := PathHasPrefix(newName, oldName, true);
        if below {
          error := EINVAL;
          return;
        }
      }
      error := CheckLengths(oldName, newName, directory);
      if error == OK && spellingChanged {
        error, destinationExists := LookAtDestination(oldName, newName, directory, isSource);
      }
      if error == OK && spellingChanged {
        var sourceIsOpen := AnyDescriptorAt(oldName, directory, true);
        if sourceIsOpen {
          error := FxFlush(volume);
        }
      }
    }

    lemma BackupResolves(volume: Volume, sequence: nat)
      requires sequence < SEQUENCE_SIZE && IsMounted(mounts, volume)
      ensures Resolved(mounts, Fold(BackupName(volume, sequence))) == Success(Entry(volume))
    {
      BackupNameIsPath(volume, sequence);
      SdIsNotFlash(Fold(BackupName(volume, sequence)));
      BackupAncestors(mounts, map[], volume, sequence);
    }

    /** One attempt: ENOENT says that the name is free. */
    method TryBackup(volume: Volume, number: nat) returns (error: Errno, name: string)
      requires Valid() && IsMounted(mounts, volume) && number < SEQUENCE_SIZE
      modifies `faults
      ensures name == BackupName(volume, number) && faults >= old(faults)
      ensures error == ENOENT ==> Fold(name) !in tree
      ensures error == OK ==> Fold(name) in tree
      ensures faults == old(faults) ==> error == OK || error == ENOENT
    {
      hide FileSystem.IsSound;
      name := SpellBackup(volume, number);
      BackupNameIsCanonical(volume, number);
      BackupResolves(volume, number);
      var directory;
      error, directory := Information(name);
    }

    lemma NextSequence(number: nat, first: nat, attempt: nat)
      requires number % SEQUENCE_SIZE == (first + attempt) % SEQUENCE_SIZE
      ensures (number + 1) % 0x1_0000_0000 % SEQUENCE_SIZE == (first + (attempt + 1)) % SEQUENCE_SIZE
    {}

    /** `find_rename_backup_unlocked`: the next unused name of at most 256 tried. */
    method FindBackup(volume: Volume) returns (error: Errno, name: string, ghost sequence: nat)
      requires Valid() && IsMounted(mounts, volume)
      modifies `renameBackupSequence, `faults
      ensures error == OK ==>
                sequence < SEQUENCE_SIZE && name == BackupName(volume, sequence) && Fold(name) !in tree
      ensures faults >= old(faults) && (faults == old(faults) && error != OK ==> error == ENOSPC)
      ensures faults == old(faults) && error == ENOSPC ==>
                && BackupsAreTaken(tree, volume, old(renameBackupSequence))
                && forall k | 0 <= k < 256 :: BackupIsTaken(tree, volume, old(renameBackupSequence), k)
    {
      hide FileSystem.IsSound, Resolved, BackupName;
      name, sequence := "", 0;
      var attempt := 0;
      while attempt < BACKUP_ATTEMPTS
        invariant attempt <= BACKUP_ATTEMPTS && faults >= old(faults)
        invariant renameBackupSequence % SEQUENCE_SIZE == (old(renameBackupSequence) + attempt) % SEQUENCE_SIZE
        invariant forall k | 0 <= k < attempt :: BackupIsTaken(tree, volume, old(renameBackupSequence), k)
      {
        var number := renameBackupSequence % SEQUENCE_SIZE;
        NextSequence(renameBackupSequence, old(renameBackupSequence), attempt);
        renameBackupSequence := (renameBackupSequence + 1) % 0x1_0000_0000;
        sequence := number;
        error, name := TryBackup(volume, number);
        if error == ENOENT {
          error := OK;
          return;
        }
        if error != OK {
          return;
        }
        attempt := attempt + 1;
      }
      error := ENOSPC;
    }

    /** The template name with its five digits written one by one. */
    method SpellBackup(volume: Volume, sequence: nat) returns (name: string)
      requires sequence < SEQUENCE_SIZE
      ensures name == BackupName(volume, sequence)
    {
      var digits := "";
      for digit := 0 to 5
        invariant digits == Digits(sequence)[..digit]
      {
        digits := digits + [HexDigit(sequence / DigitWeight(digit) % 16)];
      }
      name := MountName(volume) + "/" + ("FXR" + digits + ".TMP");
    }

    /** The stored paths follow the moved source. */
    method FollowSource(oldName: string, newName: string, directory: bool)
      requires descriptors.Length == MAXIMUM_OPEN_FILES
      modifies descriptors, `currentDirectory
      ensures View() == Follow(old(View()), oldName, newName, directory)
    {
      var i := 0;
      while i < descriptors.Length
        invariant 0 <= i <= descriptors.Length
        invariant forall j | 0 <= j < i ::
                    descriptors[j] == MigrateSlot(old(descriptors[j]), oldName, newName, directory)
        invariant forall j | i <= j < descriptors.Length :: descriptors[j] == old(descriptors[j])
        invariant currentDirectory == old(currentDirectory)
      {
        if descriptors[i].Open? {
          var path := MigrateStored(descriptors[i].path, oldName, newName, directory);
          descriptors[i] := descriptors[i].(path := path);
        }
        i := i + 1;
      }
      if directory {
        currentDirectory := MigrateStored(currentDirectory, oldName, newName, true);
      }
    }

    /** `migrate_path`. */
    method MigrateStored(path: string, oldName: string, newName: string, descend: bool) returns (migrated: string)
      ensures migrated == MigratePath(path, oldName, newName, descend)
    {
      var covered := PathHasPrefix(path, oldName, descend);
      return if covered then newName + path[|oldName|..] else path;
    }

    /** A rename with no destination in the way, or one that only changes the spelling. */
    method MoveSource(oldName: string, newName: string, directory: bool, ghost volume: Volume)
      returns (error: Errno, ghost ending: Option<Ending>)
      requires Valid() && MayRename(View(), oldName, newName) && tree[Fold(oldName)].directory == directory
      requires Fold(oldName) == Fold(newName) || Fold(newName) !in tree
      requires IsInside(mounts, volume, Fold(newName))
      modifies `tree, `calls, `currentDirectory, `faults, `published, descriptors
      ensures Valid()
      ensures faults >= old(faults)
      ensures faults == old(faults) ==>
                && error == (if AncestorsExist(mounts, old(tree), Fold(newName)) then OK else EINVAL)
                && (error == OK <==> ending.Some?)
      ensures |calls| == |old(calls)| + 1 && calls[..|old(calls)|] == old(calls) && !calls[|old(calls)|].DeleteCall?
      ensures error == OK ==> IsPublished(Fold(newName), View())
      ensures ending.None? ==> View() == old(View()) && error != OK
      ensures ending.Some? ==> ending.value.Moved? && Renames(old(View()), View(), oldName, newName, ending.value)
    {
      hide FileSystem.IsSound, FileXTree.AncestorsExist, FileXTree.Move;
      ending := None;
      ghost var before := View();
      ghost var fault;
      error, fault := FxRename(directory, Fold(oldName), Fold(newName));
      if error == OK {
        ending := Some(Moved);
        assert View() == before.(tree := Move(before.tree, Fold(oldName), Fold(newName), directory));
        FollowSource(oldName, newName, directory);
        RenameKeeps(before, View(), oldName, newName, Moved);
        error := FxFlush(volume);
      }
    }

    /** The calls that a replacement makes: each deletion finds the source at the new name already. */
    static ghost predicate DeletesOnlyAfterMove(calls: seq<FxCall>, to: Key, source: Node) {
      forall i | 0 <= i < |calls| && calls[i].DeleteCall? ::
        calls[i].key != to && to in calls[i].before && calls[i].before[to] == source
    }

    /** The source rename and the restoring rename were both accepted by FileX, and the device failed both. */
    static ghost predicate EndsWithTwoFaults(calls: seq<FxCall>, from: Key, to: Key, backup: Key) {
      |calls| == 3 && calls == [RenameCall(to, backup, true, false), RenameCall(from, to, false, true),
                                RenameCall(backup, to, false, true)]
    }

    /** FxRename of an entry with nothing below it to a free place. */
    method RenameAlone(directory: bool, from: Key, to: Key) returns (error: Errno, ghost fault: bool)
      requires TreeIsSound(View()) && from in tree && tree[from].directory == directory
      requires to !in tree && IsEntryKey(mounts, to) && AncestorsExist(mounts, tree, to)
      requires directory ==> IsEmptyDirectory(tree, from) && !Covers(from, to, true)
      modifies `tree, `calls, `faults
      ensures faults == if fault then old(faults) + 1 else old(faults)
      ensures fault == (error != OK) && calls == old(calls) + [RenameCall(from, to, error == OK, fault)]
      ensures tree == if error == OK then SetAside(old(tree), from, to) else old(tree)
    {
      MoveOfOneEntry(View(), from, to);
      error, fault := FxRename(directory, from, to);
    }

    /** The destination is set aside, or the call fails without effect. */
    method BackUp(oldName: string, newName: string, backup: Key, directory: bool) returns (error: Errno)
      requires Valid() && MayRename(View(), oldName, newName) && tree[Fold(oldName)].directory == directory
      requires Fold(oldName) != Fold(newName) && Fold(newName) in tree
      requires IsBackup(View(), oldName, newName, backup)
      modifies `tree, `calls, `faults
      ensures Valid() && faults == if error == OK then old(faults) else old(faults) + 1
      ensures calls == old(calls) + [RenameCall(Fold(newName), backup, error == OK, error != OK)]
      ensures error != OK ==> View() == old(View())
      ensures error == OK ==> View() == old(View()).(tree := SetAside(old(tree), Fold(newName), backup))
    {
      ghost var before := View();
      ghost var fault;
      error, fault := RenameAlone(directory, Fold(newName), backup);
      if error == OK {
        BackupKeeps(before, View(), oldName, newName, backup);
      }
    }

    /** After the destination was set aside: move the source; if that fails, move the destination back. */
    method MoveOrRestore(oldName: string, newName: string, backup: Key, directory: bool, ghost before: State)
      returns (error: Errno, restored: bool, ghost made: seq<FxCall>)
      requires IsSound(before) && MayRename(before, oldName, newName)
      requires before.tree[Fold(oldName)].directory == directory
      requires Fold(oldName) != Fold(newName) && Fold(newName) in before.tree
      requires IsBackup(before, oldName, newName, backup)
      requires View() == before.(tree := SetAside(before.tree, Fold(newName), backup))
      modifies `tree, `calls, `faults
      ensures faults >= old(faults) && (faults == old(faults) <==> error == OK)
      ensures calls == old(calls) + made
      ensures error == OK ==>
                && View() == before.(tree := Move(SetAside(before.tree, Fold(newName), backup),
                                                  Fold(oldName), Fold(newName), directory))
                && Fold(newName) in tree && tree[Fold(newName)] == before.tree[Fold(oldName)]
                && made == [RenameCall(Fold(oldName), Fold(newName), true, false)]
      ensures error != OK && restored ==> View() == before && |made| == 2 && made[0].RenameCall? && made[1].RenameCall?
      ensures error != OK && !restored ==>
                && View() == old(View())
                && made == [RenameCall(Fold(oldName), Fold(newName), false, true),
                            RenameCall(backup, Fold(newName), false, true)]
    {
      hide FileSystem.IsSound, FileSystem.MayRename, FileSystem.TreeIsSound, FileXTree.Move;
      var from, to := Fold(oldName), Fold(newName);
      ghost var fault;
      KindsAgree(before, oldName, newName);
      BackupKeeps(before, View(), oldName, newName, backup);
      assert TreeIsSound(View()) by { SoundParts(View()); }
      MayMove(View(), oldName, newName);
      SourceArrives(View(), from, to, directory);
      assert AcceptsRename(directory, from, to);
      error, fault := FxRename(directory, from, to);
      made := [RenameCall(from, to, error == OK, fault)];
      restored := false;
      if error != OK {
        BackupStaysAlone(before, from, to, backup);
        BackupRestored(before.tree, to, backup);
        var restoreError;
        restoreError, fault := RenameAlone(directory, backup, to);
        ghost var second := [RenameCall(backup, to, restoreError == OK, fault)];
        assert calls == old(calls) + made + second == old(calls) + (made + second);
        made := made + second;
        if restoreError != OK {
          // Both entries keep their data; the failed restoration is the more actionable error.
          error := restoreError;
        }
        restored := restoreError == OK;
      }
    }

    /** FileX has no reason to refuse the deletion of the backup: nothing is below it and nobody holds it. */
    lemma BackupIsDeletable(s: State, oldName: string, newName: string, backup: Key)
      requires IsSound(s) && MayRename(s, oldName, newName) && Fold(oldName) != Fold(newName)
      requires Fold(newName) in s.tree && IsBackup(s, oldName, newName, backup)
      ensures var directory := s.tree[Fold(oldName)].directory;
              var moved := Move(SetAside(s.tree, Fold(newName), backup), Fold(oldName), Fold(newName), directory);
              && backup in moved && moved[backup] == s.tree[Fold(newName)]
              && (directory ==> IsEmptyDirectory(moved, backup))
              && !(!directory && IsHeld(s.(tree := moved), backup))
    {
      var from, to, directory := Fold(oldName), Fold(newName), s.tree[Fold(oldName)].directory;
      var aside := s.(tree := SetAside(s.tree, to, backup));
      BackupKeeps(s, aside, oldName, newName, backup);
      RoomAtFreeName(aside, from, to, directory);
      MoveKeepsUnrelated(aside.tree, from, to, directory, backup);
      BackupStaysEmpty(s, from, to, backup, directory);
      BackupIsNotHeld(s, to);
    }

    lemma BackupIsNotHeld(s: State, to: Key)
      requires IsSound(s) && to in s.tree
      requires forall i | 0 <= i < |s.slots| && s.slots[i].Open? :: Fold(s.slots[i].path) != to
      ensures forall i | 0 <= i < |s.slots| && s.slots[i].Open? :: s.slots[i].file != s.tree[to].id
    {
      forall i | 0 <= i < |s.slots| && s.slots[i].Open? ensures s.slots[i].file != s.tree[to].id {
        assert NamesItsObject(s.tree, s.slots[i]);
      }
    }

    lemma BackupStaysEmpty(s: State, from: Key, to: Key, backup: Key, directory: bool)
      requires TreeIsSound(s) && from in s.tree && to in s.tree && from != to
      requires backup !in s.tree && IsEntryKey(s.mounts, backup) && !Covers(to, backup, true)
      requires IsRoomAt(SetAside(s.tree, to, backup), from, to, directory)
      ensures forall key | key in Move(SetAside(s.tree, to, backup), from, to, directory) &&
                           Covers(backup, key, true) ::
                key == backup
    {
      BackupStaysAlone(s, from, to, backup);
      var aside := SetAside(s.tree, to, backup);
      forall key | key in Move(aside, from, to, directory) && Covers(backup, key, true) ensures key == backup {
        var source := MovedFrom(aside, from, to, directory, key);
        if Covers(from, source, directory) {
          Landed(source, from, to, directory);
          PrefixesNest(backup, to, key);
        } else if key != backup {
          NothingBelow(s.mounts, s.tree, backup, key);
        }
      }
    }

    lemma PrefixesNest(a: Key, b: Key, key: Key)
      requires Covers(a, key, true) && Covers(b, key, true)
      ensures Covers(a, b, true) || Covers(b, a, true)
    {
      if |a| <= |b| {
        assert key[..|b|][..|a|] == key[..|a|];
      } else {
        assert key[..|a|][..|b|] == key[..|b|];
      }
    }

    /** After the move: delete the backup and let the stored paths follow, whether or not it was deleted. */
    method FinishReplacement(oldName: string, newName: string, backup: Key, directory: bool, ghost before: State,
                             ghost volume: Volume)
      returns (error: Errno, ghost ending: Ending, ghost made: seq<FxCall>)
      requires IsSound(before) && MayRename(before, oldName, newName)
      requires before.tree[Fold(oldName)].directory == directory
      requires Fold(oldName) != Fold(newName) && Fold(newName) in before.tree
      requires IsBackup(before, oldName, newName, backup)
      requires descriptors.Length == MAXIMUM_OPEN_FILES && IsInside(mounts, volume, Fold(newName))
      requires View() == before.(tree := Move(SetAside(before.tree, Fold(newName), backup),
                                              Fold(oldName), Fold(newName), directory))
      modifies `tree, `calls, `currentDirectory, `faults, `published, descriptors
      ensures faults >= old(faults) && (faults == old(faults) ==> error == OK)
      ensures ending == Replaced || ending == BackupLeft(backup)
      ensures Renames(before, View(), oldName, newName, ending) && IsSound(View())
      ensures error == OK ==> ending == Replaced && IsPublished(Fold(newName), View())
      ensures calls == old(calls) + made && made == [DeleteCall(backup, ending == Replaced, old(tree))]
    {
      BackupDeleted(before, oldName, newName, backup);
      BackupIsDeletable(before, oldName, newName, backup);
      error := FxDelete(directory, backup);
      made := [DeleteCall(backup, error == OK, old(tree))];
      ending := if error == OK then Replaced else BackupLeft(backup);
      FollowSource(oldName, newName, directory);
      RenameKeeps(before, View(), oldName, newName, ending);
      if error == OK {
        error := FxFlush(volume);
      }
    }

    /** A rename over an existing destination: set it aside, move the source, then delete the backup;
        if the source does not move, put the destination back. */
    method ReplaceDestination(oldName: string, newName: string, backupName: string, directory: bool,
                              ghost volume: Volume)
      returns (error: Errno, ghost ending: Option<Ending>, ghost made: seq<FxCall>)
      requires Valid() && MayRename(View(), oldName, newName) && tree[Fold(oldName)].directory == directory
      requires Fold(oldName) != Fold(newName) && Fold(newName) in tree
      requires IsBackup(View(), oldName, newName, Fold(backupName)) && IsInside(mounts, volume, Fold(newName))
      modifies `tree, `calls, `currentDirectory, `faults, `published, descriptors
      ensures Valid()
      ensures faults >= old(faults) && (faults == old(faults) ==> error == OK)
      ensures ending.None? ==> View() == old(View()) && error != OK && forall i | 0 <= i < |made| :: made[i].RenameCall?
      ensures ending.Some? ==> Renames(old(View()), View(), oldName, newName, ending.value)
      ensures ending.Some? ==> ending.value == Replaced || ending.value == BackupLeft(Fold(backupName))
                               || ending.value == Stranded(Fold(backupName))
      ensures error == OK ==> ending == Some(Replaced) && IsPublished(Fold(newName), View())
      ensures calls == old(calls) + made && DeletesOnlyAfterMove(made, Fold(newName), old(tree)[Fold(oldName)])
      ensures ending.Some? && ending.value.Stranded? ==>
                EndsWithTwoFaults(made, Fold(oldName), Fold(newName), Fold(backupName))
    {
      hide IsPublished, FileSystem.IsSound, FileSystem.MayRename, FileSystem.Follow, FileXTree.Move;
      var backup := Fold(backupName);
      ghost var before := View();
      ending := None;
      error := BackUp(oldName, newName, backup, directory);
      made := [RenameCall(Fold(newName), backup, error == OK, error != OK)];
      if error != OK {
        return;
      }
      ghost var aside, more := View(), [];
      var restored;
      error, restored, more := MoveOrRestore(oldName, newName, backup, directory, before);
      made := made + more;
      if error == OK {
        ghost var result;
        error, result, more := FinishReplacement(oldName, newName, backup, directory, before, volume);
        made := made + more;
        ending := Some(result);
      } else if !restored {
        ending := Some(Stranded(backup));
        RenameKeeps(before, View(), oldName, newName, Stranded(backup));
      }
    }

    /** The backup can go back: it has no entries below it, and the new name is not below it. */
    lemma BackupStaysAlone(s: State, from: Key, to: Key, backup: Key)
      requires TreeIsSound(s) && to in s.tree && backup !in s.tree && IsEntryKey(s.mounts, backup)
      requires from in s.tree && from != to
      ensures var tree := SetAside(s.tree, to, backup);
              && (s.tree[to].directory ==> IsEmptyDirectory(tree, backup))
              && !Covers(backup, to, true)
    {
      forall key | key in s.tree ensures !Covers(backup, key, true) {
        if Covers(backup, key, true) { NothingBelow(s.mounts, s.tree, backup, key); }
      }
    }

    lemma SourceArrives(s: State, from: Key, to: Key, directory: bool)
      requires TreeIsSound(s) && from in s.tree && to !in s.tree && IsEntryKey(s.mounts, to)
      ensures to in Move(s.tree, from, to, directory)
      ensures Move(s.tree, from, to, directory)[to] == s.tree[from]
    {
      RoomAtFreeName(s, from, to, directory);
      assert to + from[|from|..] == to;
      MovedTo(s.tree, from, to, directory, from);
    }

    lemma KindsAgree(s: State, oldName: string, newName: string)
      requires IsSound(s) && MayRename(s, oldName, newName)
      requires Fold(oldName) != Fold(newName) && Fold(newName) in s.tree
      ensures TreeIsSound(s) && Fold(oldName) in s.tree
      ensures s.tree[Fold(newName)].directory == s.tree[Fold(oldName)].directory
    {}

    lemma MayMove(s: State, oldName: string, newName: string)
      requires IsSound(s) && MayRename(s, oldName, newName) && Fold(oldName) != Fold(newName)
      requires AncestorsExist(s.mounts, s.tree, Fold(newName))
      ensures !Covers(Fold(oldName), Fold(newName), true)
    {
      if !s.tree[Fold(oldName)].directory { NotBelowFile(s, Fold(oldName), Fold(newName)); }
    }

    lemma BackupIsFree(s: State, oldName: string, newName: string, volume: Volume, sequence: nat)
      requires sequence < SEQUENCE_SIZE && Fold(BackupName(volume, sequence)) !in s.tree
      requires IsInside(s.mounts, volume, Fold(oldName)) && IsInside(s.mounts, volume, Fold(newName))
      requires Fold(oldName) in s.tree && Fold(newName) in s.tree
      ensures IsBackup(s, oldName, newName, Fold(BackupName(volume, sequence)))
    {
      BackupAncestors(s.mounts, s.tree, volume, sequence);
      BackupIsBelowNothing(s.mounts, volume, sequence, Fold(oldName));
      BackupIsBelowNothing(s.mounts, volume, sequence, Fold(newName));
    }

    /** `_rename` once both names are known: the checks, then the move or the replacement. */
    method RenameNamed(from: string, to: string, volume: Volume, directory: bool)
      returns (error: Errno, ghost ending: Option<Ending>, ghost made: seq<FxCall>)
      requires Valid() && IsPath(from) && IsPath(to) && IsCanonical(to)
      requires IsInside(mounts, volume, Fold(from)) && IsInside(mounts, volume, Fold(to)) && IsEntry(View(), Fold(to))
      requires Fold(from) in tree && tree[Fold(from)].directory == directory
      modifies `tree, `calls, `currentDirectory, `renameBackupSequence, `faults, `published, descriptors
      ensures Valid() && faults >= old(faults)
      ensures faults == old(faults) ==>
                error == MoveError(old(View()), from, to) ||
                (error == ENOSPC && MoveError(old(View()), from, to) == OK
                 && BackupsAreTaken(old(tree), volume, old(renameBackupSequence)))
      ensures faults == old(faults) && error != OK ==> ending.None?
      ensures ending.None? ==> View() == old(View())
      ensures ending.Some? ==> Renames(old(View()), View(), from, to, ending.value)
      ensures error == OK ==> if ending.Some? then ending.value.Moved? || ending.value.Replaced? else from == to
      ensures error == OK && ending.Some? ==> IsPublished(Fold(to), View())
      ensures ending == Some(Moved) ==> Fold(from) == Fold(to) || Fold(to) !in old(tree)
      ensures calls == old(calls) + made
      ensures ending.Some? ==> DeletesOnlyAfterMove(made, Fold(to), old(tree)[Fold(from)])
      ensures ending.None? ==> forall i | 0 <= i < |made| :: made[i].RenameCall?
      ensures ending.Some? && ending.value.Stranded? ==>
                EndsWithTwoFaults(made, Fold(from), Fold(to), ending.value.backup)
    {
      hide FileSystem.IsSound, FileSystem.MayRename, FileSystem.Renames, FileSystem.IsBackup;
      hide FileXTree.AncestorsExist, MoveError, BackupsAreTaken;
      ending, made := None, [];
      var isSource, destinationExists;
      error, isSource, destinationExists := CheckRename(from, to, directory, volume);
      if error != OK || from == to {
        return;
      }
      if destinationExists && !isSource {
        var backupName;
        ghost var sequence;
        error, backupName, sequence := FindBackup(volume);
        if error != OK {
          return;
        }
        BackupIsFree(View(), from, to, volume, sequence);
        error, ending, made := ReplaceDestination(from, to, backupName, directory, volume);
      } else {
        SourceHasAncestors(from);
        error, ending := MoveSource(from, to, directory, volume);
        made := [calls[|old(calls)|]];
      }
    }

    lemma SourceHasAncestors(name: string)
      requires Valid() && Fold(name) in tree
      ensures AncestorsExist(mounts, tree, Fold(name))
    {}

    /** A rename over an existing entry that nothing stands against. */
    static ghost predicate MayReplace(s: State, oldPath: CString, newPath: CString) {
      && Normalized(s.cwd, oldPath).Success? && Normalized(s.cwd, newPath).Success?
      && IsReplaceable(s, Normalized(s.cwd, oldPath).value, Normalized(s.cwd, newPath).value)
    }

    /** `_rename`. Whatever FileX does, nothing changed, or the source has the new name, or both the
        move and the restoration failed and the destination waits intact under its backup name. If the
        device does not fail, the call is refused exactly for the reasons of `RenameError`, and then
        nothing has changed; only a volume full of backup names is a reason more. */
    method Rename(oldPath: CString, newPath: CString)
      returns (error: Errno, ghost oldName: string, ghost newName: string, ghost ending: Option<Ending>,
               ghost made: seq<FxCall>)
      requires Valid()
      modifies `tree, `calls, `currentDirectory, `renameBackupSequence, `faults, `published, descriptors
      ensures Valid() && faults >= old(faults)
      ensures faults == old(faults) ==>
                error == RenameError(old(View()), oldPath, newPath) ||
                (error == ENOSPC && RenameError(old(View()), oldPath, newPath) == OK
                 && exists volume :: BackupsAreTaken(old(tree), volume, old(renameBackupSequence)))
      ensures faults == old(faults) && error != OK ==> ending.None?
      ensures ending.None? ==> View() == old(View())
      ensures ending.Some? ==>
                && old(Normalized(currentDirectory, oldPath)) == Success(oldName)
                && old(Normalized(currentDirectory, newPath)) == Success(newName)
                && Renames(old(View()), View(), oldName, newName, ending.value)
      ensures error == OK ==>
                if ending.Some? then ending.value.Moved? || ending.value.Replaced?
                else old(Normalized(currentDirectory, oldPath)) == old(Normalized(currentDirectory, newPath))
      ensures error == OK && ending.Some? ==> IsPublished(Fold(newName), View())
      ensures calls == old(calls) + made
      ensures ending.Some? ==> DeletesOnlyAfterMove(made, Fold(newName), old(tree)[Fold(oldName)])
      ensures ending.None? ==> forall i | 0 <= i < |made| :: made[i].RenameCall?
      ensures ending.Some? && ending.value.Stranded? ==>
                EndsWithTwoFaults(made, Fold(oldName), Fold(newName), ending.value.backup)
      ensures faults == old(faults) && old(MayReplace(View(), oldPath, newPath)) ==>
                || (error == OK && ending == Some(Replaced))
                || (error == ENOSPC && exists volume :: BackupsAreTaken(old(tree), volume, old(renameBackupSequence)))
    {
      hide FileSystem.IsSound, FileSystem.Renames, Paths.Normalized, RenameError, MoveError, BackupsAreTaken;
      ending, made := None, [];
      if MayReplace(View(), oldPath, newPath) {
        ReplacementIsAllowed(View(), oldPath, newPath);
      }
      var from, to, volume, directory;
      error, from, to, volume, directory := PrepareRename(oldPath, newPath);
      oldName, newName := from, to;
      if error == OK {
        error, ending, made := RenameNamed(from, to, volume, directory);
      }
    }
  }
}

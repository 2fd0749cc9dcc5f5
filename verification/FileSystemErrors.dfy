/** What the calls of the POSIX adapter refuse when the device does not fail.

    The functions follow the order of the tests in the code; the lemmas say of each error, in terms of the
    names and the volume alone, exactly when it is reported. */
module FileSystemErrors {
  import opened Errors
  import opened FileXTree
  import opened FileSystem
  import opened Paths

  datatype Place = VirtualRoot | MountRoot(volume: Volume) | Entry(volume: Volume)

  /** What `resolve_normalized_path` finds: the first volume whose mount name is a prefix. */
  function Resolved(mounts: Mounts, key: Key): Result<Place> {
    if key == "/" then Success(VirtualRoot)
    else if Covers(MountKey(Flash), key, true) then ResolvedOn(mounts, Flash, key)
    else if Covers(MountKey(Sd), key, true) then ResolvedOn(mounts, Sd, key)
    else Failure(ENOENT)
  }

  function ResolvedOn(mounts: Mounts, volume: Volume, key: Key): Result<Place> {
    if !IsMounted(mounts, volume) then Failure(ENODEV)
    else if key == MountKey(volume) then Success(MountRoot(volume))
    else Success(Entry(volume))
  }

  datatype Access = ReadOnly | WriteOnly | ReadWrite | BadAccess

  datatype Flags = Flags(access: Access, create: bool, exclusive: bool, truncate: bool)

  // ----- What the calls report when the device does not fail -----

  function LookupError(s: State, key: Key): Errno {
    match Resolved(s.mounts, key)
    case Failure(e) => e
    case Success(place) => if place.Entry? && key !in s.tree then ENOENT else OK
  }

  function LocateError(s: State, path: string): Errno {
    match Normalized(s.cwd, path)
    case Failure(e) => e
    case Success(name) => match Resolved(s.mounts, Fold(name)) case Failure(e) => e case Success(_) => OK
  }

  /** The key of a path that can be located. */
  function KeyOf(s: State, path: string): Key {
    match Normalized(s.cwd, path) case Failure(_) => "" case Success(name) => Fold(name)
  }

  predicate IsEntry(s: State, key: Key) {
    Resolved(s.mounts, key).Success? && Resolved(s.mounts, key).value.Entry?
  }

  /** FileX holds the file open for some descriptor. */
  predicate IsHeld(s: State, key: Key) {
    key in s.tree &&
    exists i | 0 <= i < |s.slots| ::
      s.slots[i].Open? && s.slots[i].file == s.tree[key].id && s.slots[i].mode != Detached
  }

  function OpenError(s: State, path: string, flags: Flags): Errno {
    var key := KeyOf(s, path);
    if flags.access == BadAccess then EINVAL
    else if LocateError(s, path) != OK then LocateError(s, path)
    else if !IsEntry(s, key) then EISDIR
    else if forall i | 0 <= i < |s.slots| :: s.slots[i].Open? then EMFILE
    else if key in s.tree && s.tree[key].directory then EISDIR
    else if key in s.tree then (if flags.create && flags.exclusive then EEXIST else OK)
    else if !flags.create then ENOENT
    else if !AncestorsExist(s.mounts, s.tree, key) then EINVAL
    else OK
  }

  function ChangeDirectoryError(s: State, path: string): Errno {
    match Normalized(s.cwd, path)
    case Failure(e) => e
    case Success(name) =>
      if LookupError(s, Fold(name)) != OK then LookupError(s, Fold(name))
      else if !IsDirectoryAt(s.mounts, s.tree, Fold(name)) then ENOTDIR
      else OK
  }

  function MakeDirectoryError(s: State, path: string): Errno {
    var key := KeyOf(s, path);
    if LocateError(s, path) != OK then LocateError(s, path)
    else if !IsEntry(s, key) || key in s.tree then EEXIST
    else if !AncestorsExist(s.mounts, s.tree, key) then EINVAL
    else OK
  }

  function UnlinkError(s: State, path: string): Errno {
    var key := KeyOf(s, path);
    if LocateError(s, path) != OK then LocateError(s, path)
    else if LookupError(s, key) != OK then LookupError(s, key)
    else if IsDirectoryAt(s.mounts, s.tree, key) then EISDIR
    else if IsHeld(s, key) then EACCES
    else OK
  }

  function RemoveDirectoryError(s: State, path: string): Errno {
    var key := KeyOf(s, path);
    if LocateError(s, path) != OK then LocateError(s, path)
    else if LookupError(s, key) != OK then LookupError(s, key)
    else if !IsDirectoryAt(s.mounts, s.tree, key) then ENOTDIR
    else if !IsEntry(s, key) || Covers(key, Fold(s.cwd), true) then EBUSY
    else if !IsEmptyDirectory(s.tree, key) then ENOTEMPTY
    else OK
  }

  predicate PathsFit(s: State, oldName: string, newName: string, directory: bool) {
    && (forall i | 0 <= i < |s.slots| && s.slots[i].Open? ::
          |MigratePath(s.slots[i].path, oldName, newName, directory)| < Paths.MAXIMUM_PATH)
    && (directory ==> |MigratePath(s.cwd, oldName, newName, true)| < Paths.MAXIMUM_PATH)
  }

  predicate IsOpenAt(s: State, key: Key, descend: bool) {
    exists i | 0 <= i < |s.slots| :: s.slots[i].Open? && Covers(key, Fold(s.slots[i].path), descend)
  }

  /** An existing destination that is not the source. */
  function ReplaceError(s: State, directory: bool, to: Key): Errno
    requires to in s.tree
  {
    if s.tree[to].directory != directory then (if directory then ENOTDIR else EISDIR)
    else if directory && Covers(to, Fold(s.cwd), true) then EBUSY
    else if IsOpenAt(s, to, directory) then EBUSY
    else if directory && !IsEmptyDirectory(s.tree, to) then ENOTEMPTY
    else OK
  }

  /** What `_rename` refuses once both names are known; FileX itself refuses a missing parent at the end. */
  function MoveError(s: State, oldName: string, newName: string): Errno
    requires Fold(oldName) in s.tree
  {
    var from, to, directory := Fold(oldName), Fold(newName), s.tree[Fold(oldName)].directory;
    if directory && from != to && Covers(from, to, true) then EINVAL
    else if !PathsFit(s, oldName, newName, directory) then ENAMETOOLONG
    else if oldName == newName || from == to then OK
    else if to in s.tree then ReplaceError(s, directory, to)
    else if !AncestorsExist(s.mounts, s.tree, to) then EINVAL
    else OK
  }

  function RenameError(s: State, oldPath: string, newPath: string): Errno {
    var from, to := KeyOf(s, oldPath), KeyOf(s, newPath);
    if LocateError(s, oldPath) != OK then LocateError(s, oldPath)
    else if LocateError(s, newPath) != OK then LocateError(s, newPath)
    else if LookupError(s, from) != OK then LookupError(s, from)
    else if !IsEntry(s, from) || !IsEntry(s, to) then EBUSY
    else if Resolved(s.mounts, from).value != Resolved(s.mounts, to).value then EXDEV
    else MoveError(s, Normalized(s.cwd, oldPath).value, Normalized(s.cwd, newPath).value)
  }

  /** No name lies below both volumes. */
  lemma SdIsNotFlash(key: Key)
    ensures !(Covers(MountKey(Flash), key, true) && Covers(MountKey(Sd), key, true))
  {
    if Covers(MountKey(Flash), key, true) {
      assert key[1] == key[..6][1] == 'F';
    }
    if Covers(MountKey(Sd), key, true) {
      assert key[1] == key[..3][1] == 'S';
    }
  }

  // ----- Names and what they name -----

  ghost predicate IsAt(key: Key, top: Key) {
    key == top || IsBelow(key, top)
  }

  /** At or below a volume that was not mounted. */
  ghost predicate IsUnmounted(s: State, key: Key) {
    (IsAt(key, "/FLASH") && !s.mounts.flash) || (IsAt(key, "/SD") && !s.mounts.sd)
  }

  ghost predicate IsNowhere(key: Key) {
    key != "/" && !IsAt(key, "/FLASH") && !IsAt(key, "/SD")
  }

  ghost predicate IsReachable(s: State, key: Key) {
    !IsNowhere(key) && !IsUnmounted(s, key)
  }

  /** The virtual root and the volumes. */
  predicate IsTop(key: Key) {
    key == "/" || key == "/FLASH" || key == "/SD"
  }

  predicate IsFile(s: State, key: Key) {
    key in s.tree && !s.tree[key].directory
  }

  predicate IsFolder(s: State, key: Key) {
    key in s.tree && s.tree[key].directory
  }

  ghost predicate IsExistingDirectory(s: State, key: Key) {
    IsFolder(s, key) || (IsTop(key) && IsReachable(s, key))
  }

  /** A name below a mounted volume that nothing has. */
  ghost predicate IsMissing(s: State, key: Key) {
    IsReachable(s, key) && !IsTop(key) && key !in s.tree
  }

  ghost predicate HasParent(s: State, name: string) {
    exists parent :: IsParent(parent, name) && IsExistingDirectory(s, Fold(parent))
  }

  ghost predicate HasEntries(s: State, key: Key) {
    exists other :: other in s.tree && IsBelow(other, key)
  }

  ghost predicate IsSlotAt(slot: Slot, key: Key, descend: bool) {
    slot.Open? && (Fold(slot.path) == key || (descend && IsBelow(Fold(slot.path), key)))
  }

  ghost predicate IsOpen(s: State, key: Key, descend: bool) {
    exists i | 0 <= i < |s.slots| :: IsSlotAt(s.slots[i], key, descend)
  }

  /** A descriptor through which FileX holds the file of this name. */
  ghost predicate IsHeldAt(s: State, key: Key) {
    exists i | 0 <= i < |s.slots| :: IsSlotAt(s.slots[i], key, false) && s.slots[i].mode != Detached
  }

  // ----- Lemmas about names -----

  lemma VolumesMean(s: State, key: Key)
    ensures Covers(MountKey(Flash), key, true) <==> IsAt(key, "/FLASH")
    ensures Covers(MountKey(Sd), key, true) <==> IsAt(key, "/SD")
    ensures !(IsAt(key, "/FLASH") && IsAt(key, "/SD"))
    ensures !IsAt("/", "/FLASH") && !IsAt("/", "/SD")
  {
    CoversMeans(MountKey(Flash), key, true);
    CoversMeans(MountKey(Sd), key, true);
    CoversMeans(MountKey(Flash), "/", true);
    CoversMeans(MountKey(Sd), "/", true);
    SdIsNotFlash(key);
  }

  lemma ResolvedMeans(s: State, key: Key)
    ensures match Resolved(s.mounts, key)
            case Failure(e) => (e == ENODEV && IsUnmounted(s, key)) || (e == ENOENT && IsNowhere(key))
            case Success(place) => IsReachable(s, key) && (place.Entry? <==> !IsTop(key))
                                   && (place.Entry? ==> (place.volume == Flash <==> IsAt(key, "/FLASH")))
    ensures !(IsUnmounted(s, key) && IsNowhere(key))
    ensures IsNowhere(key) || IsUnmounted(s, key) ==> !(IsReachable(s, key))
    ensures IsDirectoryAt(s.mounts, s.tree, key) <==> IsExistingDirectory(s, key)
  {
    VolumesMean(s, key);
    VolumesMean(s, "/FLASH");
    VolumesMean(s, "/SD");
  }

  /** Whatever is in a sound tree is below a mounted volume. */
  lemma EntriesAreReachable(s: State, key: Key)
    requires TreeIsSound(s) && key in s.tree
    ensures IsReachable(s, key) && !IsTop(key)
  {
    assert IsEntryKey(s.mounts, key);
    VolumesMean(s, key);
    VolumesMean(s, "/FLASH");
    VolumesMean(s, "/SD");
  }

  lemma {:induction false} LastSlash(name: string) returns (k: nat)
    requires name != "" && name[0] == '/'
    ensures k < |name| && name[k] == '/' && forall i | k < i < |name| :: name[i] != '/'
  {
    k := |name| - 1;
    while name[k] != '/'
      invariant k < |name| && forall i | k < i < |name| :: name[i] != '/'
      decreases k
    {
      k := k - 1;
    }
  }

  /** An entry of a volume has two slashes at least. */
  lemma EntryHasDirectory(s: State, name: string, k: nat)
    requires IsReachable(s, Fold(name)) && !IsTop(Fold(name))
    requires k < |name| && name[k] == '/' && forall i | k < i < |name| :: name[i] != '/'
    ensures k > 0
  {
    var key := Fold(name);
    var volume := if IsAt(key, "/FLASH") then "/FLASH" else "/SD";
    var rest :| key == volume + "/" + rest;
    assert key[|volume|] == '/' && name[|volume|] == '/';
  }

  lemma SplitName(name: string, k: nat)
    requires IsPlain(name) && 0 < k < |name| && name[k] == '/' && forall i | k < i < |name| :: name[i] != '/'
    ensures IsParent(name[..k], name)
  {
    var parent, last := name[..k], name[k + 1..];
    assert name == parent + "/" + last;
    assert name[0] == '/' && k != 1;
    LastNameIsBelow(parent, name, last);
  }

  /** Only what stands before the last slash is a parent. */
  lemma ParentEndsAtLastSlash(parent: string, name: string, k: nat)
    requires IsParent(parent, name) && 0 < k < |name| && name[k] == '/' && forall i | k < i < |name| :: name[i] != '/'
    ensures parent == name[..k]
  {
    var last :| last != "" && IsSlashFree(last) && name == (if parent == "/" then "" else parent) + "/" + last;
    var slash := |name| - |last| - 1;
    assert name[slash] == '/';
    assert forall i | slash < i < |name| :: name[i] == last[i - slash - 1] && name[i] != '/';
  }

  /** All the directories above a name exist as soon as the next one does. */
  lemma ParentSuffices(s: State, name: string)
    requires TreeIsSound(s) && IsPlain(name) && IsReachable(s, Fold(name)) && !IsTop(Fold(name))
    ensures AncestorsExist(s.mounts, s.tree, Fold(name)) <==> HasParent(s, name)
  {
    var k := LastSlash(name);
    EntryHasDirectory(s, name, k);
    var parent, key := name[..k], Fold(name);
    assert key[..k] == Fold(parent) && key[k] == '/';
    ResolvedMeans(s, Fold(parent));
    SplitName(name, k);
    if HasParent(s, name) {
      var other :| IsParent(other, name) && IsExistingDirectory(s, Fold(other));
      ParentEndsAtLastSlash(other, name, k);
      ParentHasAncestors(s, Fold(parent));
      hide IsPlain, TreeIsSound, IsParent, IsExistingDirectory;
      ChildHasAncestors(s, name, k);
    } else {
      hide IsPlain, TreeIsSound, IsParent, IsExistingDirectory;
    }
  }

  lemma ChildHasAncestors(s: State, name: string, k: nat)
    requires k < |name| && name[k] == '/' && forall i | k < i < |name| :: name[i] != '/'
    requires IsDirectoryAt(s.mounts, s.tree, Fold(name[..k])) && AncestorsExist(s.mounts, s.tree, Fold(name[..k]))
    ensures AncestorsExist(s.mounts, s.tree, Fold(name))
  {
    hide IsDirectoryAt;
    var key, parent := Fold(name), Fold(name[..k]);
    assert key[..k] == parent;
    forall i | 0 < i < |key| && key[i] == '/' ensures IsDirectoryAt(s.mounts, s.tree, key[..i]) {
      assert name[i] == '/' && i <= k;
      if i < k {
        assert key[..i] == parent[..i] && parent[i] == '/';
      }
    }
  }

  lemma ParentHasAncestors(s: State, key: Key)
    requires TreeIsSound(s) && IsExistingDirectory(s, key)
    ensures AncestorsExist(s.mounts, s.tree, key)
  {
    if key !in s.tree {
      assert forall i | 0 < i < |key| :: key[i] != '/';
    }
  }

  // ----- When each call is refused, and why -----

  lemma NameOf(s: State, path: CString) returns (name: string)
    requires IsSound(s) && Normalized(s.cwd, path).Success?
    ensures Normalized(s.cwd, path) == Success(name) && IsPlain(name) && KeyOf(s, path) == Fold(name)
    ensures LocateError(s, path) ==
            if IsUnmounted(s, Fold(name)) then ENODEV else if IsNowhere(Fold(name)) then ENOENT else OK
    ensures IsEntry(s, Fold(name)) <==> IsReachable(s, Fold(name)) && !IsTop(Fold(name))
    ensures Fold(name) in s.tree ==> IsReachable(s, Fold(name)) && !IsTop(Fold(name))
    ensures IsDirectoryAt(s.mounts, s.tree, Fold(name)) <==> IsExistingDirectory(s, Fold(name))
    ensures IsReachable(s, Fold(name)) <==> !IsUnmounted(s, Fold(name)) && !IsNowhere(Fold(name))
    ensures !(IsUnmounted(s, Fold(name)) && IsNowhere(Fold(name)))
  {
    NormalizedIsCanonical(s.cwd, path);
    name := Normalized(s.cwd, path).value;
    ResolvedMeans(s, Fold(name));
    if Fold(name) in s.tree {
      EntriesAreReachable(s, Fold(name));
    }
  }

  lemma MakeDirectoryErrors(s: State, path: CString)
    requires IsSound(s)
    ensures match Normalized(s.cwd, path)
            case Failure(e) => MakeDirectoryError(s, path) == e
            case Success(name) =>
              var key, error := Fold(name), MakeDirectoryError(s, path);
              && (error == ENODEV <==> IsUnmounted(s, key))
              && (error == ENOENT <==> IsNowhere(key))
              && (error == EEXIST <==> IsReachable(s, key) && (IsTop(key) || key in s.tree))
              && (error == EINVAL <==> IsMissing(s, key) && !HasParent(s, name))
              && (error == OK <==> IsMissing(s, key) && HasParent(s, name))
  {
    if Normalized(s.cwd, path).Success? {
      var name := NameOf(s, path);
      if IsMissing(s, Fold(name)) {
        ParentSuffices(s, name);
      }
    }
  }

  lemma ChangeDirectoryErrors(s: State, path: CString)
    requires IsSound(s)
    ensures match Normalized(s.cwd, path)
            case Failure(e) => ChangeDirectoryError(s, path) == e
            case Success(name) =>
              var key, error := Fold(name), ChangeDirectoryError(s, path);
              && (error == ENODEV <==> IsUnmounted(s, key))
              && (error == ENOENT <==> IsNowhere(key) || IsMissing(s, key))
              && (error == ENOTDIR <==> IsFile(s, key))
              && (error == OK <==> IsExistingDirectory(s, key))
  {
    if Normalized(s.cwd, path).Success? {
      var name := NameOf(s, path);
    }
  }

  lemma UnlinkErrors(s: State, path: CString)
    requires IsSound(s)
    ensures match Normalized(s.cwd, path)
            case Failure(e) => UnlinkError(s, path) == e
            case Success(name) =>
              var key, error := Fold(name), UnlinkError(s, path);
              && (error == ENODEV <==> IsUnmounted(s, key))
              && (error == ENOENT <==> IsNowhere(key) || IsMissing(s, key))
              && (error == EISDIR <==> IsExistingDirectory(s, key))
              && (error == EACCES <==> IsFile(s, key) && IsHeldAt(s, key))
              && (error == OK <==> IsFile(s, key) && !IsHeldAt(s, key))
  {
    if Normalized(s.cwd, path).Success? {
      var name := NameOf(s, path);
      HoldersAreAt(s, Fold(name));
    }
  }

  /** In a sound state a file is held by the descriptors whose path names it. */
  lemma HoldersAreAt(s: State, key: Key)
    requires IsSound(s)
    ensures IsHeld(s, key) <==> IsFile(s, key) && IsHeldAt(s, key)
  {
    assert forall i | 0 <= i < |s.slots| :: NamesItsObject(s.tree, s.slots[i]);
    if IsHeld(s, key) {
      var i :| 0 <= i < |s.slots| && s.slots[i].Open? && s.slots[i].file == s.tree[key].id
               && s.slots[i].mode != Detached;
      assert IsSlotAt(s.slots[i], key, false);
    }
    if IsFile(s, key) && IsHeldAt(s, key) {
      var i :| 0 <= i < |s.slots| && IsSlotAt(s.slots[i], key, false) && s.slots[i].mode != Detached;
      assert s.slots[i].file == s.tree[key].id;
    }
  }

  lemma RemoveDirectoryErrors(s: State, path: CString)
    requires IsSound(s)
    ensures match Normalized(s.cwd, path)
            case Failure(e) => RemoveDirectoryError(s, path) == e
            case Success(name) =>
              var key, error := Fold(name), RemoveDirectoryError(s, path);
              && (error == ENODEV <==> IsUnmounted(s, key))
              && (error == ENOENT <==> IsNowhere(key) || IsMissing(s, key))
              && (error == ENOTDIR <==> IsFile(s, key))
              && (error == EBUSY <==> IsExistingDirectory(s, key) && (IsTop(key) || IsAt(Fold(s.cwd), key)))
              && (error == ENOTEMPTY <==> IsFolder(s, key) && !IsAt(Fold(s.cwd), key) && HasEntries(s, key))
              && (error == OK <==> IsFolder(s, key) && !IsAt(Fold(s.cwd), key) && !HasEntries(s, key))
  {
    if Normalized(s.cwd, path).Success? {
      var name := NameOf(s, path);
      CoversMeans(Fold(name), Fold(s.cwd), true);
      EmptyMeans(s, Fold(name));
    }
  }

  lemma EmptyMeans(s: State, key: Key)
    ensures IsEmptyDirectory(s.tree, key) <==> IsFolder(s, key) && !HasEntries(s, key)
  {
    forall other ensures Covers(key, other, true) <==> IsAt(other, key) {
      CoversMeans(key, other, true);
    }
    forall other | IsBelow(other, key) ensures other != key {
      var rest :| other == key + "/" + rest;
    }
  }

  lemma OpenErrors(s: State, path: CString, flags: Flags)
    requires IsSound(s)
    ensures var full := forall i | 0 <= i < |s.slots| :: s.slots[i].Open?;
            if flags.access == BadAccess then OpenError(s, path, flags) == EINVAL
            else
              match Normalized(s.cwd, path)
              case Failure(e) => OpenError(s, path, flags) == e
              case Success(name) =>
                var key, error := Fold(name), OpenError(s, path, flags);
                && (error == ENODEV <==> IsUnmounted(s, key))
                && (error == EMFILE <==> IsReachable(s, key) && !IsTop(key) && full)
                && (error == EISDIR <==> IsReachable(s, key) && (IsTop(key) || (!full && IsFolder(s, key))))
                && (error == EEXIST <==> !full && IsFile(s, key) && flags.create && flags.exclusive)
                && (error == ENOENT <==> IsNowhere(key) || (!full && IsMissing(s, key) && !flags.create))
                && (error == EINVAL <==> !full && IsMissing(s, key) && flags.create && !HasParent(s, name))
                && (error == OK <==>
                    !full && ((IsFile(s, key) && !(flags.create && flags.exclusive)) ||
                              (IsMissing(s, key) && flags.create && HasParent(s, name))))
  {
    if Normalized(s.cwd, path).Success? {
      var name := NameOf(s, path);
      if IsMissing(s, Fold(name)) {
        ParentSuffices(s, name);
      }
    }
  }

  // ----- When a rename is refused, and why -----

  ghost predicate IsSameVolume(from: Key, to: Key) {
    IsAt(from, "/FLASH") <==> IsAt(to, "/FLASH")
  }

  ghost predicate IsMovedWith(path: string, from: Key, directory: bool) {
    Fold(path) == from || (directory && IsBelow(Fold(path), from))
  }

  /** Every stored path that begins with the old name still fits when it begins with the new one. */
  ghost predicate StoredPathsFit(s: State, oldName: string, newName: string) {
    var from, directory := Fold(oldName), IsFolder(s, Fold(oldName));
    && (forall i | 0 <= i < |s.slots| && s.slots[i].Open? && IsMovedWith(s.slots[i].path, from, directory) ::
          |newName| + |s.slots[i].path| - |oldName| < 256)
    && (directory && IsMovedWith(s.cwd, from, true) ==> |newName| + |s.cwd| - |oldName| < 256)
  }

  /** The entry cannot be given up: the working directory or a descriptor is at or below it. */
  ghost predicate IsInUse(s: State, key: Key) {
    (IsFolder(s, key) && IsAt(Fold(s.cwd), key)) || IsOpen(s, key, IsFolder(s, key))
  }

  /** Everything but the destination allows the move. */
  ghost predicate IsMovable(s: State, oldName: string, newName: string) {
    var from, to := Fold(oldName), Fold(newName);
    && from in s.tree && IsReachable(s, to) && !IsTop(to) && IsSameVolume(from, to)
    && !(IsFolder(s, from) && IsBelow(to, from)) && StoredPathsFit(s, oldName, newName)
  }

  /** The destination is another entry of the same kind, not in use and, if it is a directory, empty. */
  ghost predicate IsReplaceable(s: State, oldName: string, newName: string) {
    var from, to := Fold(oldName), Fold(newName);
    && IsMovable(s, oldName, newName) && from != to && to in s.tree && IsFolder(s, from) == IsFolder(s, to)
    && !IsInUse(s, to) && !HasEntries(s, to)
  }

  lemma MigratedLength(path: string, oldName: string, newName: string, directory: bool)
    ensures IsMovedWith(path, Fold(oldName), directory) ==>
              |MigratePath(path, oldName, newName, directory)| == |newName| + |path| - |oldName|
    ensures !IsMovedWith(path, Fold(oldName), directory) ==> MigratePath(path, oldName, newName, directory) == path
  {
    CoversMeans(Fold(oldName), Fold(path), directory);
  }

  lemma FittingMeans(s: State, oldName: string, newName: string)
    requires IsSound(s)
    ensures PathsFit(s, oldName, newName, IsFolder(s, Fold(oldName))) <==> StoredPathsFit(s, oldName, newName)
  {
    var directory := IsFolder(s, Fold(oldName));
    assert forall i | 0 <= i < |s.slots| :: NamesItsObject(s.tree, s.slots[i]);
    hide MigratePath, IsMovedWith, TreeIsSound;
    forall path ensures IsMovedWith(path, Fold(oldName), directory) ==>
              |MigratePath(path, oldName, newName, directory)| == |newName| + |path| - |oldName|
      ensures !IsMovedWith(path, Fold(oldName), directory) ==> MigratePath(path, oldName, newName, directory) == path
    {
      MigratedLength(path, oldName, newName, directory);
    }
  }

  lemma OpenMeans(s: State, key: Key, descend: bool)
    ensures IsOpenAt(s, key, descend) <==> IsOpen(s, key, descend)
  {
    forall path: string ensures Covers(key, Fold(path), descend) <==>
                                Fold(path) == key || (descend && IsBelow(Fold(path), key))
    {
      CoversMeans(key, Fold(path), descend);
    }
    if IsOpenAt(s, key, descend) {
      var i :| 0 <= i < |s.slots| && s.slots[i].Open? && Covers(key, Fold(s.slots[i].path), descend);
      assert IsSlotAt(s.slots[i], key, descend);
    }
    if IsOpen(s, key, descend) {
      var i :| 0 <= i < |s.slots| && IsSlotAt(s.slots[i], key, descend);
      assert s.slots[i].Open? && Covers(key, Fold(s.slots[i].path), descend);
    }
  }

  /** What is in the way of an entry that takes another's place: the kind, the use that is made of the other
      one, and what lies in it. */
  lemma ReplaceErrors(s: State, directory: bool, to: Key)
    requires IsSound(s) && to in s.tree
    ensures var error := ReplaceError(s, directory, to);
            && (error == EISDIR <==> !directory && IsFolder(s, to))
            && (error == ENOTDIR <==> directory && IsFile(s, to))
            && (error == EBUSY <==> directory == IsFolder(s, to) && IsInUse(s, to))
            && (error == ENOTEMPTY <==> directory && IsFolder(s, to) && !IsInUse(s, to) && HasEntries(s, to))
            && (error == OK <==>
                directory == IsFolder(s, to) && !IsInUse(s, to) && !HasEntries(s, to))
  {
    CoversMeans(to, Fold(s.cwd), true);
    OpenMeans(s, to, directory);
    EmptyMeans(s, to);
    if IsFile(s, to) && HasEntries(s, to) {
      var other :| other in s.tree && IsBelow(other, to);
      CoversMeans(to, other, true);
      var rest :| other == to + "/" + rest;
      NothingBelow(s.mounts, s.tree, to, other);
    }
  }

  /** Between two names that both can be located. */
  lemma MoveErrors(s: State, oldName: string, newName: string)
    requires IsSound(s) && IsPlain(newName) && Fold(oldName) in s.tree
    requires IsReachable(s, Fold(newName)) && !IsTop(Fold(newName)) && IsSameVolume(Fold(oldName), Fold(newName))
    ensures var from, to, error := Fold(oldName), Fold(newName), MoveError(s, oldName, newName);
            var directory, below := IsFolder(s, from), IsFolder(s, from) && IsBelow(to, from);
            var meets := IsMovable(s, oldName, newName) && from != to && to in s.tree;
            && (error == ENAMETOOLONG <==> !below && !StoredPathsFit(s, oldName, newName))
            && (error == EISDIR <==> meets && !directory && IsFolder(s, to))
            && (error == ENOTDIR <==> meets && directory && IsFile(s, to))
            && (error == EBUSY <==> meets && directory == IsFolder(s, to) && IsInUse(s, to))
            && (error == ENOTEMPTY <==>
                meets && directory && IsFolder(s, to) && !IsInUse(s, to) && HasEntries(s, to))
            && (error == EINVAL <==>
                below || (IsMovable(s, oldName, newName) && to !in s.tree && !HasParent(s, newName)))
            && (error == OK <==>
                IsReplaceable(s, oldName, newName) ||
                (IsMovable(s, oldName, newName) && (from == to || (to !in s.tree && HasParent(s, newName)))))
  {
    var from, to := Fold(oldName), Fold(newName);
    CoversMeans(from, to, true);
    FittingMeans(s, oldName, newName);
    if to in s.tree {
      ReplaceErrors(s, IsFolder(s, from), to);
    }
    ParentSuffices(s, newName);
    if IsBelow(to, from) {
      var rest :| to == from + "/" + rest;
    }
    hide IsSound, PathsFit, StoredPathsFit, IsInUse, HasEntries, HasParent, ReplaceError, IsBelow, Covers;
  }

  /** The error of a rename whose old name is on a mounted volume or above it. */
  ghost predicate IsRenameError(s: State, oldName: string, newName: string, error: Errno) {
    var from, to := Fold(oldName), Fold(newName);
    if IsUnmounted(s, to) then error == ENODEV
    else if IsNowhere(to) then error == ENOENT
    else
      var entries := from in s.tree && !IsTop(to);
      var directory, below := IsFolder(s, from), IsFolder(s, from) && IsBelow(to, from);
      var meets := IsMovable(s, oldName, newName) && from != to && to in s.tree;
      && (error == ENOENT <==> IsMissing(s, from))
      && (error == EBUSY <==>
          (!IsMissing(s, from) && (IsTop(from) || IsTop(to))) ||
          (meets && directory == IsFolder(s, to) && IsInUse(s, to)))
      && (error == EXDEV <==> entries && !IsSameVolume(from, to))
      && (error == ENAMETOOLONG <==>
          entries && IsSameVolume(from, to) && !below && !StoredPathsFit(s, oldName, newName))
      && (error == EISDIR <==> meets && !directory && IsFolder(s, to))
      && (error == ENOTDIR <==> meets && directory && IsFile(s, to))
      && (error == ENOTEMPTY <==> meets && directory && IsFolder(s, to) && !IsInUse(s, to) && HasEntries(s, to))
      && (error == EINVAL <==>
          (entries && IsSameVolume(from, to) && below) ||
          (IsMovable(s, oldName, newName) && to !in s.tree && !HasParent(s, newName)))
      && (error == OK <==>
          IsReplaceable(s, oldName, newName) ||
          (IsMovable(s, oldName, newName) && (from == to || (to !in s.tree && HasParent(s, newName)))))
  }

  /** All refusals of a rename, each with the names and the volumes for which it comes. */
  lemma RenameErrors(s: State, oldPath: CString, newPath: CString)
    requires IsSound(s)
    ensures match Normalized(s.cwd, oldPath)
            case Failure(e) => RenameError(s, oldPath, newPath) == e
            case Success(oldName) =>
              if IsUnmounted(s, Fold(oldName)) then RenameError(s, oldPath, newPath) == ENODEV
              else if IsNowhere(Fold(oldName)) then RenameError(s, oldPath, newPath) == ENOENT
              else
                match Normalized(s.cwd, newPath)
                case Failure(e) => RenameError(s, oldPath, newPath) == e
                case Success(newName) => IsRenameError(s, oldName, newName, RenameError(s, oldPath, newPath))
  {
    if Normalized(s.cwd, oldPath).Success? {
      var oldName := NameOf(s, oldPath);
      if Normalized(s.cwd, newPath).Success? {
        var newName := NameOf(s, newPath);
        hide Normalized, IsSound, LocateError, IsEntry, IsUnmounted, IsNowhere;
        if IsReachable(s, Fold(oldName)) && IsReachable(s, Fold(newName)) {
          LocatedErrors(s, oldPath, newPath, oldName, newName);
        }
      }
    }
  }

  lemma LocatedErrors(s: State, oldPath: CString, newPath: CString, oldName: string, newName: string)
    requires IsSound(s) && IsPlain(newName)
    requires Normalized(s.cwd, oldPath) == Success(oldName) && Normalized(s.cwd, newPath) == Success(newName)
    requires IsReachable(s, Fold(oldName)) && IsReachable(s, Fold(newName))
    ensures IsRenameError(s, oldName, newName, RenameError(s, oldPath, newPath))
  {
    var from, to := Fold(oldName), Fold(newName);
    ResolvedMeans(s, from);
    ResolvedMeans(s, to);
    if from in s.tree {
      EntriesAreReachable(s, from);
    }
    hide IsSound, MoveError, StoredPathsFit, IsInUse, HasEntries, HasParent, IsUnmounted, IsNowhere, IsAt, IsBelow;
    if from in s.tree && !IsTop(to) && IsSameVolume(from, to) {
      MoveErrors(s, oldName, newName);
      assert RenameError(s, oldPath, newPath) == MoveError(s, oldName, newName);
      hide Normalized, RenameError, IsMovable, IsReplaceable;
    } else {
      assert !IsMovable(s, oldName, newName) && !IsReplaceable(s, oldName, newName);
      hide IsMovable, IsReplaceable;
    }
  }

  /** Nothing stands against a rename over an entry that may be replaced. */
  lemma ReplacementIsAllowed(s: State, oldPath: CString, newPath: CString)
    requires IsSound(s) && Normalized(s.cwd, oldPath).Success? && Normalized(s.cwd, newPath).Success?
    requires IsReplaceable(s, Normalized(s.cwd, oldPath).value, Normalized(s.cwd, newPath).value)
    ensures RenameError(s, oldPath, newPath) == OK
  {
    var oldName := NameOf(s, oldPath);
    var newName := NameOf(s, newPath);
    RenameErrors(s, oldPath, newPath);
    hide RenameError, Normalized, IsSound, StoredPathsFit, IsInUse, HasEntries, HasParent, IsAt;
  }
}

/** The state the POSIX adapter keeps beside the FileX tree, what each call may do to it, and what
    every run keeps: the working directory names a directory, and the path of each allocated
    descriptor names the object the descriptor was opened on.

    The effects are stated as relations, with every pattern of FileX failures allowed; the adapter's
    methods are proved to do nothing else (module FileSystemAdapter). */
module FileSystem {
  import opened FileXTree
  import Paths

  const MAXIMUM_OPEN_FILES := 16

  /** How FileX holds the file of a descriptor. A mode switch closes and reopens the file. When the closing
      fails, the adapter takes the file for closed while FileX still holds it (`Lingering`), until the next
      switch clears the control block. When the reopening fails, the descriptor stays allocated but FileX no
      longer has the file open (`Detached`). */
  datatype Mode = Detached | Lingering | Reading | Writing

  /** `open_mode >= 0`: what the adapter itself knows. */
  predicate IsAttached(mode: Mode) {
    mode.Reading? || mode.Writing?
  }

  /** One entry of `descriptors`; `file` is the identity of the file it was opened on. */
  datatype Slot = Free | Open(path: string, file: nat, mode: Mode, readable: bool, writable: bool, flushOnClose: bool)

  datatype State = State(mounts: Mounts, tree: Tree, cwd: string, slots: seq<Slot>, nextId: nat)

  // ----- The invariant -----

  ghost predicate IsPath(path: string) {
    0 < |path| < Paths.MAXIMUM_PATH && path[0] == '/' && Paths.IsNulFree(path)
  }

  ghost predicate TreeIsSound(state: State) {
    && IsClosed(state.mounts, state.tree) && IdentifiesObjects(state.tree)
    && forall key | key in state.tree :: state.tree[key].id < state.nextId
  }

  ghost predicate DirectoryIsSound(state: State) {
    IsPath(state.cwd) && IsDirectoryAt(state.mounts, state.tree, Fold(state.cwd))
  }

  /** The descriptor's path names the file the descriptor was opened on. */
  ghost predicate NamesItsObject(tree: Tree, slot: Slot) {
    slot.Open? ==>
      IsPath(slot.path) && Fold(slot.path) in tree && tree[Fold(slot.path)] == Node(slot.file, false)
  }

  ghost predicate SlotsAreSound(state: State) {
    |state.slots| == MAXIMUM_OPEN_FILES
    && forall i | 0 <= i < |state.slots| :: NamesItsObject(state.tree, state.slots[i])
  }

  ghost predicate IsSound(state: State) {
    TreeIsSound(state) && DirectoryIsSound(state) && SlotsAreSound(state)
  }

  lemma SoundParts(state: State)
    requires IsSound(state)
    ensures TreeIsSound(state) && DirectoryIsSound(state) && SlotsAreSound(state)
  {}

  // ----- What the calls may do -----

  ghost predicate Creates(s: State, t: State, key: Key, directory: bool) {
    && key !in s.tree && IsEntryKey(s.mounts, key) && AncestorsExist(s.mounts, s.tree, key)
    && t == s.(tree := s.tree[key := Node(s.nextId, directory)], nextId := s.nextId + 1)
  }

  ghost predicate Opens(s: State, t: State, i: nat, path: string, mode: Mode) {
    && i < |s.slots| && s.slots[i].Free? && IsPath(path)
    && Fold(path) in s.tree && !s.tree[Fold(path)].directory
    && |t.slots| == |s.slots| && t.slots == s.slots[i := t.slots[i]] && t == s.(slots := t.slots)
    && t.slots[i].Open? && t.slots[i].path == path
    && t.slots[i].file == s.tree[Fold(path)].id && t.slots[i].mode == mode
  }

  ghost predicate Closes(s: State, t: State, i: nat) {
    i < |s.slots| && t == s.(slots := s.slots[i := Free])
  }

  /** A mode switch: the descriptor's file is open in another mode, or not open any more. */
  ghost predicate Switches(s: State, t: State, i: nat, mode: Mode) {
    i < |s.slots| && s.slots[i].Open? && t == s.(slots := s.slots[i := s.slots[i].(mode := mode)])
  }

  ghost predicate Enters(s: State, t: State, path: string) {
    IsPath(path) && IsDirectoryAt(s.mounts, s.tree, Fold(path)) && t == s.(cwd := path)
  }

  /** FileX deletes a file that exists and that it does not hold open. */
  ghost predicate Unlinks(s: State, t: State, key: Key) {
    && key in s.tree && !s.tree[key].directory
    && (forall i | 0 <= i < |s.slots| && s.slots[i].Open? && s.slots[i].file == s.tree[key].id ::
          s.slots[i].mode == Detached)
    && t == s.(tree := s.tree - {key})
  }

  predicate IsEmptyDirectory(tree: Tree, key: Key) {
    key in tree && tree[key].directory && forall other | other in tree && Covers(key, other, true) :: other == key
  }

  ghost predicate RemovesDirectory(s: State, t: State, key: Key) {
    && IsEmptyDirectory(s.tree, key) && !Covers(key, Fold(s.cwd), true)
    && t == s.(tree := s.tree - {key})
  }

  // ----- Renaming -----

  /** `migrate_path` on one stored path. */
  function MigratePath(path: string, oldName: string, newName: string, descend: bool): string {
    if Covers(Fold(oldName), Fold(path), descend) then newName + path[|oldName|..] else path
  }

  function MigrateSlot(slot: Slot, oldName: string, newName: string, descend: bool): Slot {
    if slot.Free? then slot else slot.(path := MigratePath(slot.path, oldName, newName, descend))
  }

  /** The adapter's bookkeeping after the source entry moved. */
  function Follow(s: State, oldName: string, newName: string, directory: bool): State {
    s.(cwd := if directory then MigratePath(s.cwd, oldName, newName, true) else s.cwd,
       slots := seq(|s.slots|, i requires 0 <= i < |s.slots| =>
                  MigrateSlot(s.slots[i], oldName, newName, directory)))
  }

  /** What the adapter has checked before it changes anything. */
  ghost predicate MayRename(s: State, oldName: string, newName: string) {
    var from, to := Fold(oldName), Fold(newName);
    && IsPath(oldName) && IsPath(newName)
    && from in s.tree && IsEntryKey(s.mounts, to)
    && var directory := s.tree[from].directory;
    && (directory && from != to ==> !Covers(from, to, true))
    && (forall i | 0 <= i < |s.slots| && s.slots[i].Open? ::
          |MigratePath(s.slots[i].path, oldName, newName, directory)| < Paths.MAXIMUM_PATH)
    && (directory ==> |MigratePath(s.cwd, oldName, newName, true)| < Paths.MAXIMUM_PATH)
    && (from != to && to in s.tree ==>
          && s.tree[to].directory == directory
          && (directory ==> IsEmptyDirectory(s.tree, to) && !Covers(to, Fold(s.cwd), true))
          && forall i | 0 <= i < |s.slots| && s.slots[i].Open? :: !Covers(to, Fold(s.slots[i].path), directory))
  }

  /** A free name at the top of the volume, where the destination waits during a replacement. */
  ghost predicate IsBackup(s: State, oldName: string, newName: string, backup: Key) {
    && backup !in s.tree && IsEntryKey(s.mounts, backup) && AncestorsExist(s.mounts, s.tree, backup)
    && !Covers(Fold(oldName), backup, true) && !Covers(Fold(newName), backup, true)
  }

  /** An entry with nothing below it, now at another place. */
  function SetAside(tree: Tree, key: Key, place: Key): Tree
    requires key in tree
  {
    (tree - {key})[place := tree[key]]
  }

  /** How a call of `_rename` can end, apart from leaving everything as it was. */
  datatype Ending =
    | Moved                      // the source has the new name; no destination existed
    | Replaced                   // the source has the new name; the old destination is gone
    | BackupLeft(backup: Key)    // the source has the new name; the old destination kept its backup name
    | Stranded(backup: Key)      // the source has the old name; the old destination kept its backup name

  ghost predicate Renames(s: State, t: State, oldName: string, newName: string, ending: Ending) {
    && MayRename(s, oldName, newName)
    && var from, to, directory := Fold(oldName), Fold(newName), s.tree[Fold(oldName)].directory;
    match ending
    case Moved =>
      && (from == to || to !in s.tree) && AncestorsExist(s.mounts, s.tree, to)
      && t == Follow(s.(tree := Move(s.tree, from, to, directory)), oldName, newName, directory)
    case Replaced =>
      && from != to && to in s.tree
      && t == Follow(s.(tree := Move(s.tree - {to}, from, to, directory)), oldName, newName, directory)
    case BackupLeft(backup) =>
      && from != to && to in s.tree && IsBackup(s, oldName, newName, backup)
      && t == Follow(s.(tree := Move(SetAside(s.tree, to, backup), from, to, directory)), oldName, newName, directory)
    case Stranded(backup) =>
      && from != to && to in s.tree && IsBackup(s, oldName, newName, backup)
      && t == s.(tree := SetAside(s.tree, to, backup))
  }

  // ----- Steps and runs -----

  datatype Event =
    | Create(key: Key, directory: bool)
    | OpenFile(slot: nat, path: string, mode: Mode)
    | CloseFile(slot: nat)
    | SwitchMode(slot: nat, mode: Mode)
    | ChangeDirectory(path: string)
    | Unlink(key: Key)
    | RemoveDirectory(key: Key)
    | Rename(oldName: string, newName: string, ending: Ending)

  ghost predicate Does(s: State, t: State, event: Event) {
    match event
    case Create(key, directory) => Creates(s, t, key, directory)
    case OpenFile(i, path, mode) => Opens(s, t, i, path, mode)
    case CloseFile(i) => Closes(s, t, i)
    case SwitchMode(i, mode) => Switches(s, t, i, mode)
    case ChangeDirectory(path) => Enters(s, t, path)
    case Unlink(key) => Unlinks(s, t, key)
    case RemoveDirectory(key) => RemovesDirectory(s, t, key)
    case Rename(oldName, newName, ending) => Renames(s, t, oldName, newName, ending)
  }

  /** The one thing that can go wrong: unlinking a file behind an allocated descriptor that a failed
      mode switch has detached from FileX. */
  ghost predicate IsSafe(s: State, event: Event) {
    event.Unlink? ==>
      forall i | 0 <= i < |s.slots| && s.slots[i].Open? && s.slots[i].mode == Detached ::
        Fold(s.slots[i].path) != event.key
  }

  ghost predicate IsRun(states: seq<State>, events: seq<Event>) {
    |states| == |events| + 1
    && forall i | 0 <= i < |events| :: Does(states[i], states[i + 1], events[i])
  }

  // ----- Lemmas: the simple effects -----

  lemma AddKeeps(s: State, t: State, key: Key, node: Node)
    requires IsSound(s) && key !in s.tree && IsEntryKey(s.mounts, key) && AncestorsExist(s.mounts, s.tree, key)
    requires s.nextId <= t.nextId && node.id < t.nextId && forall other | other in s.tree :: s.tree[other].id != node.id
    requires t == s.(tree := s.tree[key := node], nextId := t.nextId)
    ensures IsSound(t)
  {
    forall other | other in t.tree ensures IsEntryKey(t.mounts, other) && AncestorsExist(t.mounts, t.tree, other) {
      assert AncestorsExist(s.mounts, s.tree, other);
      forall i | 0 < i < |other| && other[i] == '/' ensures IsDirectoryAt(t.mounts, t.tree, other[..i]) {
        assert IsDirectoryAt(s.mounts, s.tree, other[..i]);
      }
    }
    forall i | 0 <= i < |t.slots| ensures NamesItsObject(t.tree, t.slots[i]) {
      assert NamesItsObject(s.tree, s.slots[i]);
    }
  }

  /** What was created is a new object of its kind, and removing it again gives back the tree. */
  lemma RemovalUndoesCreation(s: State, t: State, u: State, key: Key, directory: bool)
    requires IsSound(s) && Creates(s, t, key, directory)
    requires if directory then RemovesDirectory(t, u, key) else Unlinks(t, u, key)
    ensures key in t.tree && t.tree[key].directory == directory && key !in u.tree
    ensures forall other | other in s.tree :: s.tree[other].id != t.tree[key].id
    ensures u == s.(nextId := t.nextId)
  {
    assert t.tree - {key} == s.tree;
  }

  lemma OpenKeeps(s: State, t: State, i: nat, path: string, mode: Mode)
    requires IsSound(s) && Opens(s, t, i, path, mode)
    ensures IsSound(t)
  {
    forall j | 0 <= j < |t.slots| ensures NamesItsObject(t.tree, t.slots[j]) {
      if j != i { assert NamesItsObject(s.tree, s.slots[j]); }
    }
  }

  lemma SlotChangeKeeps(s: State, t: State, i: nat, slot: Slot)
    requires IsSound(s) && i < |s.slots| && NamesItsObject(s.tree, slot)
    requires t == s.(slots := s.slots[i := slot])
    ensures IsSound(t)
  {
    forall j | 0 <= j < |t.slots| ensures NamesItsObject(t.tree, t.slots[j]) {
      if j != i { assert NamesItsObject(s.tree, s.slots[j]); }
    }
  }

  /** Removing one entry that covers no other keeps the tree sound. */
  lemma RemovalKeepsTree(s: State, t: State, key: Key)
    requires TreeIsSound(s) && key in s.tree && t == s.(tree := s.tree - {key})
    requires s.tree[key].directory ==> IsEmptyDirectory(s.tree, key)
    ensures TreeIsSound(t)
  {
    forall other | other in t.tree ensures AncestorsExist(t.mounts, t.tree, other) {
      assert AncestorsExist(s.mounts, s.tree, other);
      forall i | 0 < i < |other| && other[i] == '/' ensures IsDirectoryAt(t.mounts, t.tree, other[..i]) {
        assert IsDirectoryAt(s.mounts, s.tree, other[..i]);
        if other[..i] == key { assert Covers(key, other, true); }
      }
    }
  }

  /** Unlinking keeps the invariant exactly when no detached descriptor names the file. */
  lemma UnlinkKeeps(s: State, t: State, key: Key)
    requires IsSound(s) && Unlinks(s, t, key)
    ensures IsSound(t) <==> IsSafe(s, Unlink(key))
  {
    RemovalKeepsTree(s, t, key);
    forall i | 0 <= i < |s.slots| && s.slots[i].Open?
      ensures NamesItsObject(t.tree, t.slots[i]) <==> Fold(s.slots[i].path) != key
    {
      assert NamesItsObject(s.tree, s.slots[i]);
    }
    if !IsSafe(s, Unlink(key)) {
      var i :| 0 <= i < |s.slots| && s.slots[i].Open? && s.slots[i].mode == Detached && Fold(s.slots[i].path) == key;
      assert !NamesItsObject(t.tree, t.slots[i]);
    } else {
      forall i | 0 <= i < |s.slots| ensures NamesItsObject(t.tree, t.slots[i]) {
        assert NamesItsObject(s.tree, s.slots[i]);
      }
    }
  }

  lemma RemoveDirectoryKeeps(s: State, t: State, key: Key)
    requires IsSound(s) && RemovesDirectory(s, t, key)
    ensures IsSound(t)
  {
    RemovalKeepsTree(s, t, key);
    forall i | 0 <= i < |s.slots| ensures NamesItsObject(t.tree, t.slots[i]) {
      assert NamesItsObject(s.tree, s.slots[i]);
    }
    assert Fold(s.cwd) != key by { assert Covers(key, key, true); }
  }

  // ----- Lemmas: renaming -----

  lemma FoldOfMigrated(path: string, oldName: string, newName: string, descend: bool)
    ensures Fold(MigratePath(path, oldName, newName, descend)) ==
            Migrate(Fold(path), Fold(oldName), Fold(newName), descend)
  {}

  lemma MigratedIsPath(path: string, oldName: string, newName: string, descend: bool)
    requires IsPath(path) && IsPath(newName)
    requires |MigratePath(path, oldName, newName, descend)| < Paths.MAXIMUM_PATH
    ensures IsPath(MigratePath(path, oldName, newName, descend))
  {}

  /** Moving the source within a sound tree, with the bookkeeping following, keeps the invariant. */
  lemma FollowKeeps(s: State, oldName: string, newName: string)
    requires IsSound(s) && MayRename(s, oldName, newName)
    requires Fold(oldName) == Fold(newName) || Fold(newName) !in s.tree
    requires AncestorsExist(s.mounts, s.tree, Fold(newName))
    ensures var directory := s.tree[Fold(oldName)].directory;
            var tree := Move(s.tree, Fold(oldName), Fold(newName), directory);
            IsSound(Follow(s.(tree := tree), oldName, newName, directory))
  {
    var from, to := Fold(oldName), Fold(newName);
    var directory := s.tree[from].directory;
    RoomAtFreeName(s, from, to, directory);
    if from != to && !directory { NotBelowFile(s, from, to); }
    MoveKeepsClosed(s.mounts, s.tree, from, to);
    MoveIdentifiesObjects(s.tree, from, to, directory);
    var tree := Move(s.tree, from, to, directory);
    var t := Follow(s.(tree := tree), oldName, newName, directory);
    forall key | key in tree ensures tree[key].id < s.nextId {
      var source := MovedFrom(s.tree, from, to, directory, key);
    }
    forall i | 0 <= i < |t.slots| ensures NamesItsObject(tree, t.slots[i]) {
      assert NamesItsObject(s.tree, s.slots[i]);
      if s.slots[i].Open? {
        FoldOfMigrated(s.slots[i].path, oldName, newName, directory);
        MigratedIsPath(s.slots[i].path, oldName, newName, directory);
        MovedTo(s.tree, from, to, directory, Fold(s.slots[i].path));
      }
    }
    FollowedDirectory(s, oldName, newName);
  }

  lemma FollowedDirectory(s: State, oldName: string, newName: string)
    requires IsSound(s) && MayRename(s, oldName, newName)
    requires IsRoomAt(s.tree, Fold(oldName), Fold(newName), s.tree[Fold(oldName)].directory)
    ensures var directory := s.tree[Fold(oldName)].directory;
            var tree := Move(s.tree, Fold(oldName), Fold(newName), directory);
            DirectoryIsSound(Follow(s.(tree := tree), oldName, newName, directory))
  {
    var from, to, cwd := Fold(oldName), Fold(newName), Fold(s.cwd);
    var directory := s.tree[from].directory;
    assert IsEntryKey(s.mounts, from);
    CoversItself(from, cwd);
    if Covers(from, cwd, directory) {
      EntryIsNoMount(s.mounts, from, cwd);
      assert cwd in s.tree && s.tree[cwd].directory && directory;
      FoldOfMigrated(s.cwd, oldName, newName, true);
      MigratedIsPath(s.cwd, oldName, newName, true);
      MovedTo(s.tree, from, to, directory, cwd);
    } else {
      UnmovedDirectory(s.mounts, s.tree, from, to, cwd);
    }
  }

  lemma RoomAtFreeName(s: State, from: Key, to: Key, descend: bool)
    requires TreeIsSound(s) && IsEntryKey(s.mounts, to) && (from == to || to !in s.tree)
    ensures IsRoomAt(s.tree, from, to, descend)
  {
    if from != to {
      forall key | key in s.tree ensures !Covers(to, key, descend) {
        if Covers(to, key, descend) { NothingBelow(s.mounts, s.tree, to, key); }
      }
    }
  }

  /** No name whose ancestors exist lies below a file. */
  lemma NotBelowFile(s: State, file: Key, key: Key)
    requires TreeIsSound(s) && file in s.tree && !s.tree[file].directory
    requires AncestorsExist(s.mounts, s.tree, key) && key != file
    ensures !Covers(file, key, true)
  {
    if Covers(file, key, true) {
      assert key[|file|] == '/' && IsEntryKey(s.mounts, file);
      assert IsDirectoryAt(s.mounts, s.tree, key[..|file|]);
      EntryIsNoMount(s.mounts, file, file);
    }
  }

  /** The destination set aside under its backup name: nothing else changed, and the new name is free. */
  lemma BackupKeeps(s: State, t: State, oldName: string, newName: string, backup: Key)
    requires IsSound(s) && MayRename(s, oldName, newName) && Fold(oldName) != Fold(newName)
    requires Fold(newName) in s.tree && IsBackup(s, oldName, newName, backup)
    requires t == s.(tree := SetAside(s.tree, Fold(newName), backup))
    ensures IsSound(t) && Fold(newName) !in t.tree && MayRename(t, oldName, newName)
    ensures t.tree[Fold(oldName)] == s.tree[Fold(oldName)]
    ensures AncestorsExist(t.mounts, t.tree, Fold(newName))
    ensures backup in t.tree && t.tree[backup] == s.tree[Fold(newName)]
  {
    var to := Fold(newName);
    var gone := s.(tree := s.tree - {to});
    DestinationRemoved(s, gone, oldName, newName);
    forall i | 0 < i < |backup| && backup[i] == '/' ensures IsDirectoryAt(s.mounts, gone.tree, backup[..i]) {
      assert IsDirectoryAt(s.mounts, s.tree, backup[..i]);
      if backup[..i] == to { assert Covers(to, backup, true); }
    }
    AddKeeps(gone, t, backup, s.tree[to]);
    StillMayRename(gone, t, oldName, newName, backup, s.tree[to]);
  }

  lemma StillMayRename(s: State, t: State, oldName: string, newName: string, backup: Key, node: Node)
    requires MayRename(s, oldName, newName) && Fold(newName) !in s.tree
    requires AncestorsExist(s.mounts, s.tree, Fold(newName)) && !Covers(Fold(newName), backup, true)
    requires backup !in s.tree && t == s.(tree := s.tree[backup := node])
    ensures MayRename(t, oldName, newName) && Fold(newName) !in t.tree
    ensures AncestorsExist(t.mounts, t.tree, Fold(newName))
    ensures t.tree[Fold(oldName)] == s.tree[Fold(oldName)]
  {
    var to := Fold(newName);
    assert Covers(to, to, true);
    forall i | 0 < i < |to| && to[i] == '/' ensures IsDirectoryAt(t.mounts, t.tree, to[..i]) {
      assert IsDirectoryAt(s.mounts, s.tree, to[..i]);
    }
  }

  /** Moving an entry with nothing below it sets just that entry aside. */
  lemma MoveOfOneEntry(s: State, to: Key, backup: Key)
    requires TreeIsSound(s) && to in s.tree && backup !in s.tree && IsEntryKey(s.mounts, backup)
    requires s.tree[to].directory ==> IsEmptyDirectory(s.tree, to)
    ensures Move(s.tree, to, backup, s.tree[to].directory) == SetAside(s.tree, to, backup)
  {
    var directory := s.tree[to].directory;
    RoomAtFreeName(s, to, backup, directory);
    var moved := Move(s.tree, to, backup, directory);
    var expected := SetAside(s.tree, to, backup);
    assert IsPart(expected, moved) by {
      forall key | key in expected ensures key in moved && moved[key] == expected[key] {
        var source := if key == backup then to else key;
        OneEntryMigrates(s.tree, to, backup, source);
        MovedTo(s.tree, to, backup, directory, source);
      }
    }
    assert IsWithin(moved, expected) by {
      forall key | key in moved ensures key in expected {
        var source := MovedFrom(s.tree, to, backup, directory, key);
        OneEntryMigrates(s.tree, to, backup, source);
      }
    }
    PartsAreEqual(expected, moved);
  }

  lemma OneEntryMigrates(tree: Tree, to: Key, backup: Key, key: Key)
    requires to in tree && key in tree && (tree[to].directory ==> IsEmptyDirectory(tree, to))
    ensures Migrate(key, to, backup, tree[to].directory) == if key == to then backup else key
  {
    CoversItself(to, key);
    assert key == to ==> backup + key[|to|..] == backup;
  }

  /** Deleting the backup after the move leaves what moving over a removed destination would. */
  lemma BackupDeleted(s: State, oldName: string, newName: string, backup: Key)
    requires IsSound(s) && MayRename(s, oldName, newName) && Fold(oldName) != Fold(newName)
    requires Fold(newName) in s.tree && IsBackup(s, oldName, newName, backup)
    ensures var from, to, directory := Fold(oldName), Fold(newName), s.tree[Fold(oldName)].directory;
            Move(SetAside(s.tree, to, backup), from, to, directory) - {backup} ==
            Move(s.tree - {to}, from, to, directory)
  {
    var from, to := Fold(oldName), Fold(newName);
    var directory := s.tree[from].directory;
    var gone := s.(tree := s.tree - {to});
    assert Covers(to, to, true);
    assert IsEntryKey(s.mounts, to) && backup != to && backup !in gone.tree;
    assert !Covers(from, backup, directory) && !Covers(to, backup, directory);
    hide IsSound, MayRename, IsBackup, Move, Covers, Fold;
    DestinationRemoved(s, gone, oldName, newName);
    SoundParts(gone);
    RoomAtFreeName(gone, from, to, directory);
    MoveWithExtra(gone.tree, backup, s.tree[to], from, to, directory);
    MoveKeepsUnrelated(gone.tree, from, to, directory, backup);
    AddedAndRemoved(Move(gone.tree, from, to, directory), backup, s.tree[to]);
  }

  lemma AddedAndRemoved(tree: Tree, key: Key, node: Node)
    requires key !in tree
    ensures tree[key := node] - {key} == tree
  {}

  /** Moving the destination back from its backup name restores the tree. */
  lemma BackupRestored(tree: Tree, to: Key, backup: Key)
    requires to in tree && backup !in tree
    ensures SetAside(SetAside(tree, to, backup), backup, to) == tree
  {}

  lemma RenameKeeps(s: State, t: State, oldName: string, newName: string, ending: Ending)
    requires IsSound(s) && Renames(s, t, oldName, newName, ending)
    ensures IsSound(t)
  {
    var from, to := Fold(oldName), Fold(newName);
    match ending
    case Moved =>
      FollowKeeps(s, oldName, newName);
    case Replaced =>
      var gone := s.(tree := s.tree - {to});
      DestinationRemoved(s, gone, oldName, newName);
      FollowKeeps(gone, oldName, newName);
    case BackupLeft(backup) =>
      var aside := s.(tree := SetAside(s.tree, to, backup));
      BackupKeeps(s, aside, oldName, newName, backup);
      FollowKeeps(aside, oldName, newName);
    case Stranded(backup) =>
      BackupKeeps(s, t, oldName, newName, backup);
  }

  lemma DestinationRemoved(s: State, t: State, oldName: string, newName: string)
    requires IsSound(s) && MayRename(s, oldName, newName) && Fold(oldName) != Fold(newName)
    requires Fold(newName) in s.tree && t == s.(tree := s.tree - {Fold(newName)})
    ensures IsSound(t) && MayRename(t, oldName, newName)
    ensures AncestorsExist(t.mounts, t.tree, Fold(newName))
  {
    var to := Fold(newName);
    RemovalKeepsTree(s, t, to);
    forall i | 0 <= i < |t.slots| ensures NamesItsObject(t.tree, t.slots[i]) {
      assert NamesItsObject(s.tree, s.slots[i]);
    }
    assert IsEntryKey(s.mounts, to) && AncestorsExist(s.mounts, s.tree, to);
    assert Covers(to, to, true);
    forall i | 0 < i < |to| && to[i] == '/' ensures IsDirectoryAt(t.mounts, t.tree, to[..i]) {
      assert IsDirectoryAt(s.mounts, s.tree, to[..i]) && to[..i] != to;
    }
  }

  // ----- Main results -----

  /** What a move means for one key: everything at or below the old name is under the new name and nothing else
      is, nothing stays behind, and a key under neither name is as before. */
  ghost predicate IsMovedAt(before: Tree, after: Tree, from: Key, to: Key, descend: bool, key: Key) {
    && (Covers(from, key, descend) && key in before ==>
          to + key[|from|..] in after && after[to + key[|from|..]] == before[key])
    && (Covers(from, key, descend) && !Covers(to, key, descend) ==> key !in after)
    && (from != to && Covers(to, key, descend) && key in after ==>
          Covers(from, from + key[|to|..], descend) && from + key[|to|..] in before)
    && (!Covers(from, key, descend) && !Covers(to, key, descend) ==>
          (key in after <==> key in before) && (key in before ==> after[key] == before[key]))
  }

  /** What a rename means, key by key: the source is wholly at one of its two names, nothing else has come
      under the new name, nothing the rename does not name has changed, and the destination is gone only once
      the source is in its place. */
  lemma RenameMeaning(s: State, t: State, oldName: string, newName: string, ending: Ending, key: Key)
    requires IsSound(s) && Renames(s, t, oldName, newName, ending)
    ensures var from, to, descend := Fold(oldName), Fold(newName), s.tree[Fold(oldName)].directory;
            if ending.Stranded? then
              && to !in t.tree && ending.backup in t.tree && t.tree[ending.backup] == s.tree[to]
              && (key != to && key != ending.backup ==> (key in t.tree <==> key in s.tree))
              && (key in s.tree && key != to ==> t.tree[key] == s.tree[key])
            else
              && ((ending.BackupLeft? ==> key != ending.backup) ==> IsMovedAt(s.tree, t.tree, from, to, descend, key))
              && (ending.BackupLeft? ==> ending.backup in t.tree && t.tree[ending.backup] == s.tree[to])
              && (ending.Replaced? && key in t.tree ==> t.tree[key].id != s.tree[to].id)
  {
    hide IsMovedAt;
    match ending
    case Stranded(backup) => CoversItself(Fold(newName), backup);
    case Moved => MoveMeaning(s, Fold(oldName), Fold(newName), s.tree[Fold(oldName)].directory, key);
    case Replaced => ReplacedMeaning(s, t, oldName, newName, key);
    case BackupLeft(backup) => BackupLeftMeaning(s, t, oldName, newName, backup, key);
  }

  lemma ReplacedMeaning(s: State, t: State, oldName: string, newName: string, key: Key)
    requires IsSound(s) && Renames(s, t, oldName, newName, Replaced)
    ensures var from, to, descend := Fold(oldName), Fold(newName), s.tree[Fold(oldName)].directory;
            && IsMovedAt(s.tree, t.tree, from, to, descend, key)
            && (key in t.tree ==> t.tree[key].id != s.tree[to].id)
  {
    var from, to, descend := Fold(oldName), Fold(newName), s.tree[Fold(oldName)].directory;
    var gone := s.(tree := s.tree - {to});
    DestinationRemoved(s, gone, oldName, newName);
    MoveMeaning(gone, from, to, descend, key);
    if key in t.tree {
      RoomAtFreeName(gone, from, to, descend);
      var source := MovedFrom(gone.tree, from, to, descend, key);
    }
    SourceIsNotBelow(s, from, to, descend, key);
    assert Covers(to, to, descend);
    hide Covers, Move, IsSound, MayRename;
  }

  lemma BackupLeftMeaning(s: State, t: State, oldName: string, newName: string, backup: Key, key: Key)
    requires IsSound(s) && Renames(s, t, oldName, newName, BackupLeft(backup))
    ensures var from, to, descend := Fold(oldName), Fold(newName), s.tree[Fold(oldName)].directory;
            && (key != backup ==> IsMovedAt(s.tree, t.tree, from, to, descend, key))
            && backup in t.tree && t.tree[backup] == s.tree[to]
  {
    var from, to, descend := Fold(oldName), Fold(newName), s.tree[Fold(oldName)].directory;
    var aside := s.(tree := SetAside(s.tree, to, backup));
    BackupKeeps(s, aside, oldName, newName, backup);
    MoveMeaning(aside, from, to, descend, key);
    MoveMeaning(aside, from, to, descend, backup);
    SourceIsNotBelow(s, from, to, descend, key);
    assert Covers(to, to, descend) && !Covers(from, backup, descend) && !Covers(to, backup, descend);
    hide Covers, Move, IsSound, MayRename;
  }

  /** An empty destination directory, or a file, is not part of what moves. */
  lemma SourceIsNotBelow(s: State, from: Key, to: Key, descend: bool, key: Key)
    requires from in s.tree && to in s.tree && from != to && s.tree[from].directory == descend
    requires descend ==> !Covers(from, to, true)
    ensures Covers(from, key, descend) && key in s.tree ==> key != to
  {
    CoversItself(from, key);
  }

  lemma MoveMeaning(s: State, from: Key, to: Key, descend: bool, key: Key)
    requires TreeIsSound(s) && IsEntryKey(s.mounts, to) && (from == to || to !in s.tree)
    ensures IsMovedAt(s.tree, Move(s.tree, from, to, descend), from, to, descend, key)
  {
    var tree := s.tree;
    RoomAtFreeName(s, from, to, descend);
    if Covers(to, key, descend) { Landed(key, to, from, descend); }
    if Covers(from, key, descend) {
      if key in tree { MovedTo(tree, from, to, descend, key); }
      if !Covers(to, key, descend) { MoveLeavesNothingBehind(tree, from, to, descend, key); }
    } else if !Covers(to, key, descend) {
      MoveKeepsUnrelated(tree, from, to, descend, key);
    }
  }

  /** Each step keeps the invariant exactly when it is safe. */
  lemma StepKeepsExactlyWhenSafe(s: State, t: State, event: Event)
    requires IsSound(s) && Does(s, t, event)
    ensures IsSound(t) <==> IsSafe(s, event)
  {
    match event
    case Create(key, directory) => AddKeeps(s, t, key, Node(s.nextId, directory));
    case OpenFile(i, path, mode) => OpenKeeps(s, t, i, path, mode);
    case CloseFile(i) => SlotChangeKeeps(s, t, i, Free);
    case SwitchMode(i, mode) =>
      assert NamesItsObject(s.tree, s.slots[i]);
      SlotChangeKeeps(s, t, i, s.slots[i].(mode := mode));
    case ChangeDirectory(path) =>
    case Unlink(key) => UnlinkKeeps(s, t, key);
    case RemoveDirectory(key) => RemoveDirectoryKeeps(s, t, key);
    case Rename(oldName, newName, ending) => RenameKeeps(s, t, oldName, newName, ending);
  }

  /** A run from a sound state stays sound throughout exactly when each of its steps is safe. */
  lemma {:induction false} RunKeepsExactlyWhenSafe(states: seq<State>, events: seq<Event>)
    requires IsRun(states, events) && IsSound(states[0])
    ensures (forall i | 0 <= i < |states| :: IsSound(states[i])) <==>
            (forall i | 0 <= i < |events| :: IsSafe(states[i], events[i]))
  {
    var n := 0;
    while n < |events| && IsSafe(states[n], events[n])
      invariant 0 <= n <= |events|
      invariant forall i | 0 <= i <= n :: IsSound(states[i])
      invariant forall i | 0 <= i < n :: IsSafe(states[i], events[i])
    {
      StepKeepsExactlyWhenSafe(states[n], states[n + 1], events[n]);
      n := n + 1;
    }
    if n < |events| {
      StepKeepsExactlyWhenSafe(states[n], states[n + 1], events[n]);
    }
  }

  ghost predicate Reuses(event: Event, i: nat) {
    (event.OpenFile? || event.CloseFile?) && event.slot == i
  }

  /** Between its opening and its closing, a descriptor keeps naming the object it was opened on. */
  lemma {:induction false} DescriptorFollowsObject(states: seq<State>, events: seq<Event>, i: nat)
    requires IsRun(states, events) && IsSound(states[0]) && i < |states[0].slots| && states[0].slots[i].Open?
    requires forall k | 0 <= k < |events| :: IsSafe(states[k], events[k]) && !Reuses(events[k], i)
    ensures var slots, tree := states[|events|].slots, states[|events|].tree;
            && i < |slots| && slots[i].Open? && Fold(slots[i].path) in tree
            && tree[Fold(slots[i].path)] == Node(states[0].slots[i].file, false)
            && slots[i].readable == states[0].slots[i].readable && slots[i].writable == states[0].slots[i].writable
            && slots[i].flushOnClose == states[0].slots[i].flushOnClose
  {
    hide IsSound, Does, IsSafe;
    var n := 0;
    while n < |events|
      invariant 0 <= n <= |events|
      invariant IsSound(states[n]) && i < |states[n].slots| && states[n].slots[i].Open?
      invariant var slot, first := states[n].slots[i], states[0].slots[i];
                && slot.file == first.file && slot.readable == first.readable && slot.writable == first.writable
                && slot.flushOnClose == first.flushOnClose
    {
      assert Does(states[n], states[n + 1], events[n]);
      StepKeepsDescriptor(states[n], states[n + 1], events[n], i);
      n := n + 1;
    }
    SoundParts(states[n]);
    assert NamesItsObject(states[n].tree, states[n].slots[i]);
  }

  lemma StepKeepsDescriptor(s: State, t: State, event: Event, i: nat)
    requires IsSound(s) && Does(s, t, event) && IsSafe(s, event) && !Reuses(event, i)
    requires i < |s.slots| && s.slots[i].Open?
    ensures IsSound(t) && i < |t.slots| && t.slots[i].Open? && SameUse(s.slots[i], t.slots[i])
  {
    hide IsSound, IsSafe, Does;
    StepKeepsExactlyWhenSafe(s, t, event);
    StepKeepsSlot(s, t, event, i);
  }

  ghost predicate SameUse(before: Slot, after: Slot)
    requires before.Open? && after.Open?
  {
    && after.file == before.file && after.readable == before.readable && after.writable == before.writable
    && after.flushOnClose == before.flushOnClose
  }

  /** What another descriptor is used for, and what FileX makes of it, no call changes; a free slot stays free. */
  lemma StepKeepsSlot(s: State, t: State, event: Event, i: nat)
    requires Does(s, t, event) && !Reuses(event, i) && i < |s.slots|
    ensures i < |t.slots| && t.slots[i].Open? == s.slots[i].Open?
    ensures s.slots[i].Open? ==>
              && SameUse(s.slots[i], t.slots[i])
              && t.slots[i].mode == if event.SwitchMode? && event.slot == i then event.mode else s.slots[i].mode
  {
    hide MayRename, IsBackup, AncestorsExist, IsEmptyDirectory, Move, Fold;
  }

  /** The working directory is the same object as before: a volume or the virtual root under the same name, or
      the same entry, wherever it has been moved. */
  ghost predicate SameDirectory(s: State, t: State) {
    if Fold(s.cwd) in s.tree then Fold(t.cwd) in t.tree && t.tree[Fold(t.cwd)] == s.tree[Fold(s.cwd)]
    else t.cwd == s.cwd && Fold(t.cwd) !in t.tree
  }

  lemma FollowKeepsDirectory(s: State, oldName: string, newName: string)
    requires IsSound(s) && MayRename(s, oldName, newName)
    requires Fold(oldName) == Fold(newName) || Fold(newName) !in s.tree
    requires AncestorsExist(s.mounts, s.tree, Fold(newName))
    ensures var directory := s.tree[Fold(oldName)].directory;
            var tree := Move(s.tree, Fold(oldName), Fold(newName), directory);
            SameDirectory(s, Follow(s.(tree := tree), oldName, newName, directory))
  {
    var from, to, cwd := Fold(oldName), Fold(newName), Fold(s.cwd);
    var directory := s.tree[from].directory;
    var t := Follow(s.(tree := Move(s.tree, from, to, directory)), oldName, newName, directory);
    RoomAtFreeName(s, from, to, directory);
    FollowKeeps(s, oldName, newName);
    CoversItself(from, cwd);
    if cwd in s.tree {
      FoldOfMigrated(s.cwd, oldName, newName, directory);
      MovedTo(s.tree, from, to, directory, cwd);
    } else {
      assert !Covers(from, cwd, true) by {
        if Covers(from, cwd, true) { EntryIsNoMount(s.mounts, from, cwd); }
      }
      VolumesAreNoEntries(t, cwd);
    }
  }

  /** What is a directory without being an entry never is one. */
  lemma VolumesAreNoEntries(s: State, key: Key)
    requires TreeIsSound(s) && (key == "/" || key == MountKey(Flash) || key == MountKey(Sd))
    ensures key !in s.tree
  {
    if key in s.tree {
      CoversItself(key, key);
      assert Covers(key, key, true);
      EntryIsNoMount(s.mounts, key, key);
    }
  }

  lemma RenameKeepsDirectory(s: State, t: State, oldName: string, newName: string, ending: Ending)
    requires IsSound(s) && Renames(s, t, oldName, newName, ending)
    ensures SameDirectory(s, t)
  {
    var from, to, cwd := Fold(oldName), Fold(newName), Fold(s.cwd);
    assert Covers(to, to, true);
    match ending
    case Moved =>
      FollowKeepsDirectory(s, oldName, newName);
    case Replaced =>
      var gone := s.(tree := s.tree - {to});
      DestinationRemoved(s, gone, oldName, newName);
      FollowKeepsDirectory(gone, oldName, newName);
    case BackupLeft(backup) =>
      var aside := s.(tree := SetAside(s.tree, to, backup));
      BackupKeeps(s, aside, oldName, newName, backup);
      BackupIsNoVolume(s, backup);
      FollowKeepsDirectory(aside, oldName, newName);
    case Stranded(backup) =>
      BackupIsNoVolume(s, backup);
  }

  lemma BackupIsNoVolume(s: State, backup: Key)
    requires IsEntryKey(s.mounts, backup)
    ensures backup != "/" && backup != MountKey(Flash) && backup != MountKey(Sd)
  {
    assert Covers(backup, backup, true);
    EntryIsNoMount(s.mounts, backup, backup);
  }

  lemma StepKeepsDirectory(s: State, t: State, event: Event)
    requires IsSound(s) && Does(s, t, event) && !event.ChangeDirectory?
    ensures SameDirectory(s, t)
  {
    match event
    case Create(key, _) => BackupIsNoVolume(s, key);
    case RemoveDirectory(key) => assert Covers(key, key, true);
    case Rename(oldName, newName, ending) => RenameKeepsDirectory(s, t, oldName, newName, ending);
    case _ =>
  }

  /** Until it is changed, the working directory stays the same object over any safe run, through renames of it
      and of its parents. */
  lemma {:induction false} WorkingDirectoryFollowsObject(states: seq<State>, events: seq<Event>)
    requires IsRun(states, events) && IsSound(states[0])
    requires forall k | 0 <= k < |events| :: IsSafe(states[k], events[k]) && !events[k].ChangeDirectory?
    ensures SameDirectory(states[0], states[|events|])
  {
    hide IsSound, Does, IsSafe;
    var n := 0;
    SoundParts(states[0]);
    if Fold(states[0].cwd) !in states[0].tree {
      VolumesAreNoEntries(states[0], Fold(states[0].cwd));
    }
    while n < |events|
      invariant 0 <= n <= |events|
      invariant IsSound(states[n]) && SameDirectory(states[0], states[n])
    {
      assert Does(states[n], states[n + 1], events[n]);
      StepKeepsExactlyWhenSafe(states[n], states[n + 1], events[n]);
      StepKeepsDirectory(states[n], states[n + 1], events[n]);
      n := n + 1;
    }
  }

  /** The state `runtime_filex_initialize` leaves, over any volume content. */
  ghost predicate IsInitial(state: State) {
    && TreeIsSound(state) && (state.mounts.flash || state.mounts.sd)
    && state.cwd == (if state.mounts.flash then "/flash" else "/sd")
    && state.slots == seq(MAXIMUM_OPEN_FILES, _ => Free)
  }

  lemma InitialIsSound(state: State)
    requires IsInitial(state)
    ensures IsSound(state)
  {
    assert Fold("/flash") == MountKey(Flash) && Fold("/sd") == MountKey(Sd);
  }

  /** The unsafe step exists: a file is opened, a mode switch fails, the file is unlinked. */
  lemma DetachedDescriptorDangles(mounts: Mounts) returns (states: seq<State>, events: seq<Event>)
    requires mounts.flash
    ensures |states| == 4 && IsRun(states, events) && IsInitial(states[0])
    ensures events == [OpenFile(0, "/flash/a", Writing), SwitchMode(0, Detached), Unlink("/FLASH/A")]
    ensures |states[3].slots| > 0 && states[3].slots[0].Open? && Fold(states[3].slots[0].path) !in states[3].tree
  {
    var key := "/FLASH/A";
    var free: seq<Slot> := seq(MAXIMUM_OPEN_FILES, _ => Free);
    var s0 := State(mounts, map[key := Node(0, false)], "/flash", free, 1);
    assert Fold("/flash/a") == key && Fold("/flash") == MountKey(Flash);
    var s1 := s0.(slots := free[0 := Open("/flash/a", 0, Writing, true, true, true)]);
    var s2 := s1.(slots := s1.slots[0 := s1.slots[0].(mode := Detached)]);
    var s3 := s2.(tree := s2.tree - {key});
    events := [OpenFile(0, "/flash/a", Writing), SwitchMode(0, Detached), Unlink(key)];
    states := [s0, s1, s2, s3];
  }
}

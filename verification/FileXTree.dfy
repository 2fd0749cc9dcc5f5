/** FileX as a small abstract machine: a tree of entries, and operations that either take effect or do not.

    Entries are keyed by their full normalised path with ASCII case folded, because FileX compares
    names that way. A node carries the identity of the object an entry names, so that a rename can be
    told from a deletion and a creation. */
module FileXTree {
  type Key = string

  datatype Node = Node(id: nat, directory: bool)

  type Tree = map<Key, Node>

  /** Which volumes the start-up code mounted. */
  datatype Mounts = Mounts(flash: bool, sd: bool)

  datatype Volume = Flash | Sd

  // ----- Case folding and prefixes -----

  /** `fold_ascii_case`. */
  function FoldCharacter(c: char): char {
    if 'a' <= c <= 'z' then (c as int - 'a' as int + 'A' as int) as char else c
  }

  function Fold(s: string): (key: Key)
    ensures |key| == |s|
    ensures forall i | 0 <= i < |s| :: key[i] == FoldCharacter(s[i])
  {
    seq(|s|, i requires 0 <= i < |s| => FoldCharacter(s[i]))
  }

  /** `key` is `top`, or lies below it when `descend` holds. */
  predicate Covers(top: Key, key: Key, descend: bool) {
    |top| <= |key| && key[..|top|] == top && (|key| == |top| || (descend && key[|top|] == '/'))
  }

  /** Exactly the 26 small letters change, each into its capital. */
  lemma FoldsLetters(c: char)
    ensures forall k | 0 <= k < 26 ::
              FoldCharacter("abcdefghijklmnopqrstuvwxyz"[k]) == "ABCDEFGHIJKLMNOPQRSTUVWXYZ"[k]
    ensures c !in "abcdefghijklmnopqrstuvwxyz" ==> FoldCharacter(c) == c
  {
    var letters := "abcdefghijklmnopqrstuvwxyz";
    if 'a' <= c <= 'z' {
      assert letters[c as int - 'a' as int] == c;
    }
  }

  ghost predicate IsBelow(key: Key, top: Key) {
    exists rest :: key == top + "/" + rest
  }

  lemma CoversMeans(top: Key, key: Key, descend: bool)
    ensures Covers(top, key, descend) <==> key == top || (descend && IsBelow(key, top))
  {
    if |top| < |key| && key[..|top|] == top && key[|top|] == '/' {
      assert key == top + "/" + key[|top| + 1..];
    }
    if |top| == |key| && key[..|top|] == top {
      assert key == top;
    }
  }

  /** `path_has_prefix`: the loop over the prefix, then a look at the next character. */
  method PathHasPrefix(path: string, prefix: string, includeDescendants: bool) returns (found: bool)
    ensures found == Covers(Fold(prefix), Fold(path), includeDescendants)
  {
    var index := 0;
    while index < |prefix|
      invariant 0 <= index <= |prefix| && index <= |path|
      invariant forall i | 0 <= i < index :: FoldCharacter(path[i]) == FoldCharacter(prefix[i])
    {
      // A shorter path ends in a NUL, which equals no character of the prefix.
      if index == |path| || FoldCharacter(path[index]) != FoldCharacter(prefix[index]) {
        return false;
      }
      index := index + 1;
    }
    assert Fold(path)[..|prefix|] == Fold(prefix);
    return |path| == |prefix| || (includeDescendants && path[|prefix|] == '/');
  }

  lemma CoversIsTransitive(top: Key, middle: Key, key: Key)
    requires Covers(top, middle, true) && Covers(middle, key, true)
    ensures Covers(top, key, true)
  {
    assert key[..|middle|][..|top|] == key[..|top|];
    if |middle| > |top| { assert key[|top|] == key[..|middle|][|top|]; }
  }

  lemma CoversItself(top: Key, key: Key)
    ensures Covers(top, key, false) <==> top == key
  {
    if |top| == |key| { assert key[..|top|] == key; }
  }

  // ----- Volumes, directories and closed trees -----

  function MountKey(volume: Volume): Key {
    if volume.Flash? then "/FLASH" else "/SD"
  }

  predicate IsMounted(mounts: Mounts, volume: Volume) {
    if volume.Flash? then mounts.flash else mounts.sd
  }

  /** The key names an entry of a mounted volume, not the volume itself. */
  predicate IsInside(mounts: Mounts, volume: Volume, key: Key) {
    IsMounted(mounts, volume) && Covers(MountKey(volume), key, true) && key != MountKey(volume)
  }

  predicate IsEntryKey(mounts: Mounts, key: Key) {
    IsInside(mounts, Flash, key) || IsInside(mounts, Sd, key)
  }

  /** The virtual root and the mounted volumes are directories; so are the tree's own directories. */
  predicate IsDirectoryAt(mounts: Mounts, tree: Tree, key: Key) {
    || key == "/"
    || (key == MountKey(Flash) && mounts.flash)
    || (key == MountKey(Sd) && mounts.sd)
    || (key in tree && tree[key].directory)
  }

  predicate AncestorsExist(mounts: Mounts, tree: Tree, key: Key) {
    forall i | 0 < i < |key| && key[i] == '/' :: IsDirectoryAt(mounts, tree, key[..i])
  }

  ghost predicate IsClosed(mounts: Mounts, tree: Tree) {
    forall key | key in tree :: IsEntryKey(mounts, key) && AncestorsExist(mounts, tree, key)
  }

  ghost predicate IdentifiesObjects(tree: Tree) {
    forall a, b | a in tree && b in tree && tree[a].id == tree[b].id :: a == b
  }

  /** In a closed tree nothing lies below a key that names no directory. */
  lemma NothingBelow(mounts: Mounts, tree: Tree, top: Key, key: Key)
    requires IsClosed(mounts, tree) && IsEntryKey(mounts, top)
    requires key in tree && Covers(top, key, true) && key != top
    ensures top in tree && tree[top].directory
  {
    assert key[|top|] == '/' && AncestorsExist(mounts, tree, key);
    assert IsDirectoryAt(mounts, tree, key[..|top|]);
  }

  // ----- Moving entries -----

  function Migrate(key: Key, from: Key, to: Key, descend: bool): Key {
    if Covers(from, key, descend) then to + key[|from|..] else key
  }

  /** Nothing of the tree is in the way of a move to `to`. */
  ghost predicate IsRoomAt(tree: Tree, from: Key, to: Key, descend: bool) {
    from == to || forall key | key in tree :: !Covers(to, key, descend)
  }

  lemma Landed(key: Key, from: Key, to: Key, descend: bool)
    requires Covers(from, key, descend)
    ensures key == from + key[|from|..]
    ensures Covers(to, Migrate(key, from, to, descend), descend)
    ensures Migrate(key, from, to, descend)[|to|..] == key[|from|..]
  {
    assert Migrate(key, from, to, descend)[..|to|] == to;
  }

  lemma MigrateIsInjective(tree: Tree, from: Key, to: Key, descend: bool, a: Key, b: Key)
    requires IsRoomAt(tree, from, to, descend) && a in tree && b in tree
    requires Migrate(a, from, to, descend) == Migrate(b, from, to, descend)
    ensures a == b
  {
    if Covers(from, a, descend) { Landed(a, from, to, descend); }
    if Covers(from, b, descend) { Landed(b, from, to, descend); }
  }

  /** Where the entry now at `key` was before the move. */
  function Origin(key: Key, from: Key, to: Key, descend: bool): Key {
    if from != to && Covers(to, key, descend) then from + key[|to|..] else key
  }

  /** The entry `from`, with everything below it when `descend` holds, now found under `to`. */
  function Move(tree: Tree, from: Key, to: Key, descend: bool): Tree {
    var places := set key | key in tree :: Migrate(key, from, to, descend);
    map key | key in places && Origin(key, from, to, descend) in tree :: tree[Origin(key, from, to, descend)]
  }

  lemma MovedTo(tree: Tree, from: Key, to: Key, descend: bool, key: Key)
    requires IsRoomAt(tree, from, to, descend) && key in tree
    ensures Migrate(key, from, to, descend) in Move(tree, from, to, descend)
    ensures Move(tree, from, to, descend)[Migrate(key, from, to, descend)] == tree[key]
  {
    if Covers(from, key, descend) { Landed(key, from, to, descend); }
    assert Origin(Migrate(key, from, to, descend), from, to, descend) == key;
  }

  lemma MovedFrom(tree: Tree, from: Key, to: Key, descend: bool, key: Key) returns (source: Key)
    requires IsRoomAt(tree, from, to, descend) && key in Move(tree, from, to, descend)
    ensures source in tree && key == Migrate(source, from, to, descend)
    ensures tree[source] == Move(tree, from, to, descend)[key]
  {
    source :| source in tree && key == Migrate(source, from, to, descend);
    MovedTo(tree, from, to, descend, source);
  }

  lemma MoveKeepsUnrelated(tree: Tree, from: Key, to: Key, descend: bool, key: Key)
    requires IsRoomAt(tree, from, to, descend)
    requires !Covers(from, key, descend) && !Covers(to, key, descend)
    ensures key in Move(tree, from, to, descend) <==> key in tree
    ensures key in tree ==> Move(tree, from, to, descend)[key] == tree[key]
  {
    if key in Move(tree, from, to, descend) {
      var source := MovedFrom(tree, from, to, descend, key);
      if Covers(from, source, descend) { Landed(source, from, to, descend); }
    }
    if key in tree {
      MovedTo(tree, from, to, descend, key);
    }
  }

  /** An entry out of the way of a move can be added before or after it. */
  lemma MoveWithExtra(tree: Tree, key: Key, node: Node, from: Key, to: Key, descend: bool)
    requires IsRoomAt(tree, from, to, descend) && key !in tree
    requires !Covers(from, key, descend) && !Covers(to, key, descend)
    ensures Move(tree[key := node], from, to, descend) == Move(tree, from, to, descend)[key := node]
  {
    var first := Move(tree[key := node], from, to, descend);
    var second := Move(tree, from, to, descend)[key := node];
    assert IsRoomAt(tree[key := node], from, to, descend);
    forall other | other in second ensures other in first && first[other] == second[other] {
      if other == key {
        MovedTo(tree[key := node], from, to, descend, key);
      } else {
        var source := MovedFrom(tree, from, to, descend, other);
        MovedTo(tree[key := node], from, to, descend, source);
      }
    }
    forall other | other in first ensures other in second {
      var source := MovedFrom(tree[key := node], from, to, descend, other);
      if source != key { MovedTo(tree, from, to, descend, source); }
    }
    PartsAreEqual(second, first);
  }

  lemma MoveLeavesNothingBehind(tree: Tree, from: Key, to: Key, descend: bool, key: Key)
    requires IsRoomAt(tree, from, to, descend)
    requires Covers(from, key, descend) && !Covers(to, key, descend)
    ensures key !in Move(tree, from, to, descend)
  {
    if key in Move(tree, from, to, descend) {
      var source := MovedFrom(tree, from, to, descend, key);
      if Covers(from, source, descend) { Landed(source, from, to, descend); }
    }
  }

  ghost predicate IsPart(part: Tree, whole: Tree) {
    forall key | key in part :: key in whole && whole[key] == part[key]
  }

  ghost predicate IsWithin(part: Tree, whole: Tree) {
    forall key | key in part :: key in whole
  }

  lemma PartsAreEqual(first: Tree, second: Tree)
    requires IsPart(first, second) && IsWithin(second, first)
    ensures first == second
  {}

  lemma MoveIdentifiesObjects(tree: Tree, from: Key, to: Key, descend: bool)
    requires IsRoomAt(tree, from, to, descend) && IdentifiesObjects(tree)
    ensures IdentifiesObjects(Move(tree, from, to, descend))
  {
    var moved := Move(tree, from, to, descend);
    forall a, b | a in moved && b in moved && moved[a].id == moved[b].id ensures a == b {
      var x := MovedFrom(tree, from, to, descend, a);
      var y := MovedFrom(tree, from, to, descend, b);
    }
  }

  /** A move keeps the tree closed: the ancestors of what moved are found under the new name,
      and no ancestor of what stayed has moved. */
  lemma MoveKeepsClosed(mounts: Mounts, tree: Tree, from: Key, to: Key)
    requires IsClosed(mounts, tree) && from in tree
    requires IsEntryKey(mounts, to) && AncestorsExist(mounts, tree, to)
    requires from == to || !Covers(from, to, true)
    requires IsRoomAt(tree, from, to, tree[from].directory)
    ensures IsClosed(mounts, Move(tree, from, to, tree[from].directory))
  {
    var descend := tree[from].directory;
    var moved := Move(tree, from, to, descend);
    forall key | key in moved ensures IsEntryKey(mounts, key) && AncestorsExist(mounts, moved, key) {
      var source := MovedFrom(tree, from, to, descend, key);
      assert IsEntryKey(mounts, source) && AncestorsExist(mounts, tree, source);
      if Covers(from, source, descend) {
        EntryBelow(mounts, to, key);
      }
      forall i | 0 < i < |key| && key[i] == '/' ensures IsDirectoryAt(mounts, moved, key[..i]) {
        MovedAncestor(mounts, tree, from, to, source, i);
      }
    }
  }

  lemma EntryBelow(mounts: Mounts, top: Key, key: Key)
    requires IsEntryKey(mounts, top) && Covers(top, key, true)
    ensures IsEntryKey(mounts, key)
  {
    var volume := if IsInside(mounts, Flash, top) then Flash else Sd;
    CoversIsTransitive(MountKey(volume), top, key);
  }

  lemma MovedAncestor(mounts: Mounts, tree: Tree, from: Key, to: Key, source: Key, i: nat)
    requires IsClosed(mounts, tree) && from in tree && source in tree
    requires IsEntryKey(mounts, to) && AncestorsExist(mounts, tree, to)
    requires from == to || !Covers(from, to, true)
    requires IsRoomAt(tree, from, to, tree[from].directory)
    requires var key := Migrate(source, from, to, tree[from].directory); 0 < i < |key| && key[i] == '/'
    ensures var key := Migrate(source, from, to, tree[from].directory);
            IsDirectoryAt(mounts, Move(tree, from, to, tree[from].directory), key[..i])
  {
    var descend := tree[from].directory;
    var key := Migrate(source, from, to, descend);
    assert AncestorsExist(mounts, tree, source) && IsEntryKey(mounts, from);
    if !Covers(from, source, descend) {
      assert IsDirectoryAt(mounts, tree, key[..i]);
      if Covers(from, key[..i], descend) {
        CoversIsTransitive(from, key[..i], source);
      }
      UnmovedDirectory(mounts, tree, from, to, key[..i]);
    } else if i < |to| {
      assert to[..i] == key[..i] && to[i] == '/';
      if from != to && Covers(from, key[..i], true) {
        CoversIsTransitive(from, key[..i], to);
      }
      UnmovedDirectory(mounts, tree, from, to, key[..i]);
    } else {
      AncestorBelow(mounts, tree, from, to, source, i);
    }
  }

  /** An ancestor at or below the moved entry moved with it. */
  lemma AncestorBelow(mounts: Mounts, tree: Tree, from: Key, to: Key, source: Key, i: nat)
    requires IsClosed(mounts, tree) && from in tree && source in tree
    requires IsRoomAt(tree, from, to, tree[from].directory)
    requires Covers(from, source, tree[from].directory)
    requires var key := Migrate(source, from, to, tree[from].directory); |to| <= i < |key| && key[i] == '/'
    ensures var key := Migrate(source, from, to, tree[from].directory);
            IsDirectoryAt(mounts, Move(tree, from, to, tree[from].directory), key[..i])
  {
    var key := Migrate(source, from, to, true);
    var n := i - |to| + |from|;
    var before := source[..n];
    assert source[n] == source[|from|..][i - |to|] == key[i] == '/' && before[..|from|] == from;
    assert key[..i] == to + source[|from|..][..i - |to|] && before[|from|..] == source[|from|..][..i - |to|];
    assert IsEntryKey(mounts, from) && AncestorsExist(mounts, tree, source);
    assert IsDirectoryAt(mounts, tree, before);
    assert Covers(from, before, true) by { if n > |from| { assert before[|from|] == source[|from|]; } }
    EntryIsNoMount(mounts, from, before);
    assert Migrate(before, from, to, true) == key[..i];
    MovedTo(tree, from, to, true, before);
  }

  /** What lies at or below an entry is neither the virtual root nor a volume. */
  lemma EntryIsNoMount(mounts: Mounts, top: Key, key: Key)
    requires IsEntryKey(mounts, top) && Covers(top, key, true)
    ensures key != "/" && key != MountKey(Flash) && key != MountKey(Sd)
  {
    EntryBelow(mounts, top, key);
    if IsInside(mounts, Sd, key) { assert key[1] == key[..3][1] && key[3] == '/'; }
    if IsInside(mounts, Flash, key) { assert key[1] == key[..6][1] && key[6] == '/'; }
  }

  lemma UnmovedDirectory(mounts: Mounts, tree: Tree, from: Key, to: Key, key: Key)
    requires from in tree && IsRoomAt(tree, from, to, tree[from].directory)
    requires IsDirectoryAt(mounts, tree, key) && !Covers(from, key, tree[from].directory)
    ensures IsDirectoryAt(mounts, Move(tree, from, to, tree[from].directory), key)
  {
    if key in tree { MovedTo(tree, from, to, tree[from].directory, key); }
  }
}

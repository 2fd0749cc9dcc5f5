/** Path normalisation of the FileX adapter.

    The meaning of a path is a stack of component names; the adapter computes it with a cursor over a
    256-byte source buffer and an output buffer that it extends and cuts in place. */
module Paths {
  import opened Errors

  const MAXIMUM_PATH := 256

  /** A C string: the characters before the terminating NUL. */
  predicate IsNulFree(s: string) {
    forall i | 0 <= i < |s| :: s[i] != '\0'
  }

  type CString = s: string | IsNulFree(s) witness ""

  predicate IsSeparator(c: char) {
    c == '/' || c == '\\'
  }

  // ----- The meaning of a path: components walked on a stack -----

  /** How many characters precede the first separator. */
  function ComponentLength(s: string): (n: nat)
    ensures n <= |s|
    ensures forall i | 0 <= i < n :: !IsSeparator(s[i])
    ensures n < |s| ==> IsSeparator(s[n])
  {
    if s == "" || IsSeparator(s[0]) then 0 else 1 + ComponentLength(s[1..])
  }

  /** The maximal runs of non-separators, in order. */
  function Components(s: string): seq<string>
    decreases |s|
  {
    if s == "" then []
    else if IsSeparator(s[0]) then Components(s[1..])
    else var n := ComponentLength(s); [s[..n]] + Components(s[n..])
  }

  /** Walking components from a stack of names; `..` above the root has no meaning. */
  function Walk(stack: seq<string>, components: seq<string>): Option<seq<string>>
    decreases |components|
  {
    if components == [] then Some(stack)
    else if components[0] == "." then Walk(stack, components[1..])
    else if components[0] == ".." then
      if stack == [] then None else Walk(stack[..|stack| - 1], components[1..])
    else Walk(stack + [components[0]], components[1..])
  }

  predicate IsAbsolute(path: string) {
    path != "" && IsSeparator(path[0])
  }

  /** What `path` means when the working directory is `cwd`. */
  function Meaning(cwd: string, path: string): Option<seq<string>> {
    if IsAbsolute(path) then Walk([], Components(path))
    else match Walk([], Components(cwd))
      case None => None
      case Some(directory) => Walk(directory, Components(path))
  }

  // ----- Spelling a stack -----

  /** A non-empty run of characters that are neither separators nor NUL. */
  predicate IsRun(component: string) {
    component != "" && forall i | 0 <= i < |component| :: !IsSeparator(component[i]) && component[i] != '\0'
  }

  predicate AreRuns(components: seq<string>) {
    forall i | 0 <= i < |components| :: IsRun(components[i])
  }

  predicate IsName(component: string) {
    IsRun(component) && component != "." && component != ".."
  }

  predicate AreNames(stack: seq<string>) {
    forall i | 0 <= i < |stack| :: IsName(stack[i])
  }

  function Spell(stack: seq<string>): (s: string)
    ensures stack != [] ==> |s| > 0 && s[0] == '/'
  {
    if stack == [] then "" else
      assert stack[..|stack| - 1] == [] ==> |stack| == 1;
      Spell(stack[..|stack| - 1]) + "/" + stack[|stack| - 1]
  }

  function Render(stack: seq<string>): string {
    if stack == [] then "/" else Spell(stack)
  }

  ghost predicate IsCanonical(s: string) {
    exists stack :: AreNames(stack) && s == Render(stack)
  }

  // ----- What the adapter promises -----

  /** The text whose length the adapter limits: the path, behind the working directory when relative. */
  function Joined(cwd: string, path: string): string {
    if IsAbsolute(path) then path
    else if |cwd| > 1 && cwd[|cwd| - 1] != '/' then cwd + "/" + path
    else cwd + path
  }

  function Normalized(cwd: string, path: string): Result<string> {
    if path == "" then Failure(ENOENT)
    else if |Joined(cwd, path)| >= MAXIMUM_PATH then Failure(ENAMETOOLONG)
    else match Meaning(cwd, path)
      case None => Failure(EACCES)
      case Some(stack) => Success(Render(stack))
  }

  // ----- Lemmas about components and walks -----

  lemma {:induction false} ComponentsAppend(s: string, t: string)
    requires t == "" || IsSeparator(t[0])
    ensures Components(s + t) == Components(s) + Components(t)
    decreases |s|
  {
    if s == "" {
      assert s + t == t;
    } else if IsSeparator(s[0]) {
      assert (s + t)[1..] == s[1..] + t;
      ComponentsAppend(s[1..], t);
    } else {
      ComponentLengthAppend(s, t);
      var n := ComponentLength(s);
      assert (s + t)[..n] == s[..n];
      assert (s + t)[n..] == s[n..] + t;
      ComponentsAppend(s[n..], t);
    }
  }

  lemma {:induction false} ComponentLengthAppend(s: string, t: string)
    requires t == "" || IsSeparator(t[0])
    ensures ComponentLength(s + t) == ComponentLength(s)
  {
    if s == "" {
      assert s + t == t;
    } else {
      assert (s + t)[1..] == s[1..] + t;
      ComponentLengthAppend(s[1..], t);
    }
  }

  lemma {:induction false} WalkAppend(stack: seq<string>, first: seq<string>, second: seq<string>)
    ensures Walk(stack, first + second) ==
            match Walk(stack, first) case None => None case Some(middle) => Walk(middle, second)
    decreases |first|
  {
    if first == [] {
      assert first + second == second;
    } else {
      assert (first + second)[1..] == first[1..] + second;
      if first[0] == "." {
        WalkAppend(stack, first[1..], second);
      } else if first[0] == ".." {
        if stack != [] { WalkAppend(stack[..|stack| - 1], first[1..], second); }
      } else {
        WalkAppend(stack + [first[0]], first[1..], second);
      }
    }
  }

  /** Joining the strings and walking once means the same as walking the working directory, then the path. */
  lemma MeaningOfJoined(cwd: string, path: string)
    requires cwd != "" && cwd[0] == '/' && path != ""
    ensures Meaning(cwd, path) == Walk([], Components(Joined(cwd, path)))
  {
    if !IsAbsolute(path) {
      WalkAppend([], Components(cwd), Components(path));
      SlashBetween(cwd, path);
      if |cwd| == 1 || cwd[|cwd| - 1] == '/' {
        assert cwd[|cwd| - 1] == '/';
        var head := cwd[..|cwd| - 1];
        assert cwd == head + "/" && cwd + path == head + "/" + path;
        ComponentsAppend(head, "/");
        SlashBetween(head, path);
        assert Components("/") == Components("") == [];
        assert Components(cwd) == Components(head);
        assert Joined(cwd, path) == head + "/" + path;
      }
    }
  }

  lemma SlashBetween(s: string, t: string)
    ensures Components(s + "/" + t) == Components(s) + Components(t)
  {
    ComponentsAppend(s, "/" + t);
    assert ("/" + t)[1..] == t;
    assert s + "/" + t == s + ("/" + t);
  }

  lemma {:induction false} ComponentsAreRuns(s: CString)
    ensures AreRuns(Components(s))
    decreases |s|
  {
    if s == "" {
    } else if IsSeparator(s[0]) {
      ComponentsAreRuns(s[1..]);
    } else {
      ComponentsAreRuns(s[ComponentLength(s)..]);
    }
  }

  lemma {:induction false} WalkKeepsNames(stack: seq<string>, components: seq<string>)
    requires AreNames(stack) && AreRuns(components)
    ensures Walk(stack, components).Some? ==> AreNames(Walk(stack, components).value)
    decreases |components|
  {
    if components != [] {
      if components[0] == "." {
        WalkKeepsNames(stack, components[1..]);
      } else if components[0] == ".." {
        if stack != [] { WalkKeepsNames(stack[..|stack| - 1], components[1..]); }
      } else {
        WalkKeepsNames(stack + [components[0]], components[1..]);
      }
    }
  }

  lemma {:induction false} SpellIsReadBack(stack: seq<string>)
    requires AreNames(stack)
    ensures Components(Spell(stack)) == stack
  {
    if stack != [] {
      var init, last := stack[..|stack| - 1], stack[|stack| - 1];
      SpellIsReadBack(init);
      SlashBetween(Spell(init), last);
      RunIsComponent(last, |last|);
      assert last[..|last|] == last && Components(last[|last|..]) == [];
      assert init + [last] == stack;
    }
  }

  lemma {:induction false} WalkOfNames(stack: seq<string>, names: seq<string>)
    requires AreNames(names)
    ensures Walk(stack, names) == Some(stack + names)
    decreases |names|
  {
    if names == [] {
      assert stack + names == stack;
    } else {
      assert IsName(names[0]);
      WalkOfNames(stack + [names[0]], names[1..]);
      assert stack + [names[0]] + names[1..] == stack + names;
    }
  }

  lemma {:induction false} SpellIsNulFree(stack: seq<string>)
    requires AreRuns(stack)
    ensures IsNulFree(Spell(stack))
  {
    if stack != [] {
      SpellIsNulFree(stack[..|stack| - 1]);
      assert IsRun(stack[|stack| - 1]);
    }
  }

  lemma RunIsComponent(s: string, count: nat)
    requires count <= |s|
    requires forall i | 0 <= i < count :: !IsSeparator(s[i])
    requires count < |s| ==> IsSeparator(s[count])
    ensures ComponentLength(s) == count
  {}

  /** Absolute, one '/' before each name and none at the end, no '\', no "." and no "..". */
  ghost predicate IsPlain(s: string) {
    && s != "" && s[0] == '/'
    && (forall i | 0 <= i < |s| :: s[i] != '\\' && s[i] != '\0')
    && (s != "/" ==> s[|s| - 1] != '/')
    && (forall i | 0 <= i < |s| - 1 && s[i] == '/' :: s[i + 1] != '/')
    && (forall i, j | 0 <= i < j <= |s| && IsBetweenSlashes(s, i, j) :: s[i + 1..j] != "." && s[i + 1..j] != "..")
  }

  predicate IsBetweenSlashes(s: string, i: nat, j: nat)
    requires i < j <= |s|
  {
    s[i] == '/' && (j == |s| || s[j] == '/')
  }

  lemma {:induction false} SpellIsPlain(stack: seq<string>)
    requires AreNames(stack) && stack != []
    ensures IsPlain(Spell(stack)) && Spell(stack) != "/"
  {
    var init, last := stack[..|stack| - 1], stack[|stack| - 1];
    assert IsName(last);
    if init != [] {
      SpellIsPlain(init);
    }
    OneMoreNameIsPlain(Spell(init), last);
  }

  lemma OneMoreNameIsPlain(head: string, last: string)
    requires head == "" || (IsPlain(head) && head != "/")
    requires IsName(last)
    ensures IsPlain(head + "/" + last) && head + "/" + last != "/"
  {
    var s := head + "/" + last;
    assert forall i | 0 <= i < |last| :: s[|head| + 1 + i] == last[i];
    assert s[..|head|] == head && s[|head|] == '/' && s[|head| + 1..] == last;
    forall i, j | 0 <= i < j <= |s| && IsBetweenSlashes(s, i, j)
      ensures s[i + 1..j] != "." && s[i + 1..j] != ".."
    {
      NoDotsBetween(head, last, s, i, j);
    }
  }

  lemma NoDotsBetween(head: string, last: string, s: string, i: nat, j: nat)
    requires head == "" || IsPlain(head)
    requires IsName(last) && s == head + "/" + last && i < j <= |s| && IsBetweenSlashes(s, i, j)
    ensures s[i + 1..j] != "." && s[i + 1..j] != ".."
  {
    assert forall k | |head| < k < |s| :: s[k] == last[k - |head| - 1];
    if j <= |head| {
      assert IsBetweenSlashes(head, i, j) && s[i + 1..j] == head[i + 1..j];
    } else if i < |head| {
      assert s[i + 1..j][|head| - i - 1] == '/';
    } else {
      assert s[|head| + 1..] == last;
    }
  }

  // ----- Main results about the normal form -----

  /** A normalised path is canonical: names only, one '/' before each, no '.', '..' or '\'. */
  lemma NormalizedIsCanonical(cwd: CString, path: CString)
    requires cwd != "" && cwd[0] == '/'
    requires Normalized(cwd, path).Success?
    ensures IsCanonical(Normalized(cwd, path).value)
    ensures IsNulFree(Normalized(cwd, path).value)
    ensures IsPlain(Normalized(cwd, path).value)
  {
    var joined := Joined(cwd, path);
    MeaningOfJoined(cwd, path);
    ComponentsAreRuns(joined);
    WalkKeepsNames([], Components(joined));
    SpellIsNulFree(Meaning(cwd, path).value);
    if Meaning(cwd, path).value != [] {
      SpellIsPlain(Meaning(cwd, path).value);
    }
  }

  /** Normalising a canonical path gives it back, whatever the working directory is. */
  lemma CanonicalIsFixed(cwd: string, path: string)
    requires IsCanonical(path) && |path| < MAXIMUM_PATH
    ensures Normalized(cwd, path) == Success(path)
  {
    var stack :| AreNames(stack) && path == Render(stack);
    SpellIsReadBack(stack);
    WalkOfNames([], stack);
    assert [] + stack == stack;
    if stack == [] { assert Components("/") == Components(""); }
  }

  /** Each backslash replaced by a slash. */
  function Slashed(s: string): string {
    seq(|s|, i requires 0 <= i < |s| => if s[i] == '\\' then '/' else s[i])
  }

  lemma {:induction false} ComponentsOfSlashed(s: string)
    ensures Components(Slashed(s)) == Components(s)
    decreases |s|
  {
    if s == "" {
    } else if IsSeparator(s[0]) {
      ComponentsOfSlashed(s[1..]);
      assert Slashed(s)[1..] == Slashed(s[1..]);
    } else {
      var n := ComponentLength(s);
      RunIsComponent(Slashed(s), n);
      ComponentsOfSlashed(s[n..]);
      assert Slashed(s)[..n] == s[..n] && Slashed(s)[n..] == Slashed(s[n..]);
    }
  }

  /** A backslash means what a slash means. The one exception is a working directory that ends in one: the
      code puts a slash behind it, which can make the joined text one character too long. */
  lemma BackslashIsSlash(cwd: string, path: string)
    ensures Normalized(cwd, Slashed(path)) == Normalized(cwd, path)
    ensures Normalized(Slashed(cwd), path) == Normalized(cwd, path) <==>
            !(path != "" && path[0] != '/' && path[0] != '\\' && |cwd| > 1 && cwd[|cwd| - 1] == '\\'
              && |cwd| + 1 + |path| == 256)
  {
    ComponentsOfSlashed(cwd);
    ComponentsOfSlashed(path);
  }

  /** Under which conditions there is no normal form, apart from `..` above the root. */
  lemma NormalizedErrors(cwd: string, path: string)
    ensures Normalized(cwd, path) == Failure(ENOENT) <==> path == ""
    ensures Normalized(cwd, path) == Failure(ENAMETOOLONG) <==>
            path != "" &&
            |path| + (if path[0] == '/' || path[0] == '\\' then 0
                      else |cwd| + if |cwd| > 1 && cwd[|cwd| - 1] != '/' then 1 else 0) >= 256
    ensures Normalized(cwd, path).Failure? ==>
              Normalized(cwd, path).error in {ENOENT, ENAMETOOLONG, EACCES}
  {}

  /** A path that begins with a separator does not depend on the working directory; any other one is taken to
      lie below it. */
  lemma RelativeIsBelowDirectory(cwd: string, other: string, path: string)
    requires cwd != "" && cwd[0] == '/' && path != ""
    ensures path[0] == '/' || path[0] == '\\' ==> Normalized(cwd, path) == Normalized(other, path)
    ensures path[0] != '/' && path[0] != '\\' ==>
              Normalized(cwd, path) == Normalized(other, cwd + (if cwd[|cwd| - 1] == '/' then "" else "/") + path)
  {
    if path[0] != '/' && path[0] != '\\' {
      MeaningOfJoined(cwd, path);
      assert Joined(cwd, path) == cwd + (if cwd[|cwd| - 1] == '/' then "" else "/") + path;
    }
  }

  ghost predicate IsSlashFree(name: string) {
    forall i | 0 <= i < |name| :: name[i] != '/' && name[i] != '\\'
  }

  lemma PlainComponent(component: string)
    requires IsSlashFree(component)
    ensures Components(component) == if component == "" then [] else [component]
  {
    if component != "" {
      RunIsComponent(component, |component|);
      assert component[..|component|] == component && Components(component[|component|..]) == [];
    }
  }

  /** What one more component does to the normal form of an absolute path: nothing for "" and ".", the last
      name cut off for "..", which fails at the root, and the name added for every other one. As every absolute
      path is made of such steps from "/", this determines all normal forms. */
  lemma OneMoreComponent(cwd: string, path: string, component: string)
    requires path != "" && (path[0] == '/' || path[0] == '\\') && |path| + 1 + |component| < 256
    requires IsSlashFree(component)
    ensures Normalized(cwd, "/") == Success("/")
    ensures var before, after := Normalized(cwd, path), Normalized(cwd, path + "/" + component);
            match before
            case Failure(_) => before == after == Failure(EACCES)
            case Success(normal) =>
              if component == "" || component == "." then after == before
              else if component == ".." then
                if normal == "/" then after == Failure(EACCES)
                else after.Success? && IsParent(after.value, normal)
              else after == Success((if normal == "/" then "" else normal) + "/" + component)
  {
    assert Components("/") == Components("");
    MeaningOfOneMore(cwd, path, component);
    if Meaning(cwd, path).Some? {
      ComponentsHaveNoSlash(path);
      WalkKeepsSlashFree([], Components(path));
      hide Meaning, Walk, Components;
      RenderedOneMore(Meaning(cwd, path).value, component);
    }
  }

  lemma MeaningOfOneMore(cwd: string, path: string, component: string)
    requires path != "" && (path[0] == '/' || path[0] == '\\') && IsSlashFree(component)
    ensures Meaning(cwd, path + "/" + component) ==
            match Meaning(cwd, path)
            case None => None
            case Some(stack) => if component == "" then Some(stack) else Walk(stack, [component])
  {
    SlashBetween(path, component);
    PlainComponent(component);
    WalkAppend([], Components(path), Components(component));
  }

  lemma RenderedOneMore(stack: seq<string>, component: string)
    requires AreSlashFree(stack)
    ensures Render(stack) == "/" <==> stack == []
    ensures component == "." ==> Walk(stack, [component]) == Some(stack)
    ensures component == ".." ==>
              match Walk(stack, [component])
              case None => Render(stack) == "/"
              case Some(shorter) => Render(stack) != "/" && IsParent(Render(shorter), Render(stack))
    ensures component != "" && component != "." && component != ".." ==>
              match Walk(stack, [component])
              case None => false
              case Some(longer) => Render(longer) == (if stack == [] then "" else Render(stack)) + "/" + component
  {
    WalkOfFirst(stack, [component], component, []);
    var longer := stack + [component];
    assert longer[..|longer| - 1] == stack && longer[|longer| - 1] == component;
    assert Spell(longer) == Spell(stack) + "/" + component;
    if stack != [] {
      var shorter := stack[..|stack| - 1];
      assert AreSlashFree(shorter);
      SpellIsNotRoot(stack);
      if shorter != [] { SpellIsNotRoot(shorter); }
      LastNameIsBelow(Render(shorter), Render(stack), stack[|stack| - 1]);
    }
  }

  /** `path` is `parent`, one slash, and one name. */
  ghost predicate IsParent(parent: string, path: string) {
    exists name ::
      name != "" && IsSlashFree(name) && path == (if parent == "/" then "" else parent) + "/" + name
  }

  lemma LastNameIsBelow(parent: string, path: string, name: string)
    requires name != "" && IsSlashFree(name) && path == (if parent == "/" then "" else parent) + "/" + name
    ensures IsParent(parent, path)
  {}

  ghost predicate AreSlashFree(components: seq<string>) {
    forall i | 0 <= i < |components| :: components[i] != "" && IsSlashFree(components[i])
  }

  lemma {:induction false} ComponentsHaveNoSlash(s: string)
    ensures AreSlashFree(Components(s))
    decreases |s|
  {
    if s != "" {
      ComponentsHaveNoSlash(s[if IsSeparator(s[0]) then 1 else ComponentLength(s)..]);
    }
  }

  lemma {:induction false} WalkKeepsSlashFree(stack: seq<string>, components: seq<string>)
    requires AreSlashFree(stack) && AreSlashFree(components)
    ensures Walk(stack, components).Some? ==> AreSlashFree(Walk(stack, components).value)
    decreases |components|
  {
    if components != [] {
      if components[0] == "." {
        WalkKeepsSlashFree(stack, components[1..]);
      } else if components[0] == ".." {
        if stack != [] { WalkKeepsSlashFree(stack[..|stack| - 1], components[1..]); }
      } else {
        WalkKeepsSlashFree(stack + [components[0]], components[1..]);
      }
    }
  }

  lemma SpellIsNotRoot(stack: seq<string>)
    requires stack != [] && AreSlashFree(stack)
    ensures Spell(stack) != "/"
  {
    assert stack[|stack| - 1] != "";
  }

  /** Two stacks of names are spelt alike only when they are the same stack. */
  lemma SpellingIsInjective(first: seq<string>, second: seq<string>)
    requires AreNames(first) && AreNames(second) && Render(first) == Render(second)
    ensures first == second
  {
    SpellIsReadBack(first);
    SpellIsReadBack(second);
    assert Components("/") == Components("");
  }

  lemma {:induction false} WalkNeverGrows(stack: seq<string>, text: string)
    requires text == "" || IsSeparator(text[0])
    ensures Walk(stack, Components(text)).Some? ==>
              |Spell(Walk(stack, Components(text)).value)| <= |Spell(stack)| + |text|
    decreases |text|
  {
    if text != "" {
      var rest := text[1..];
      if rest == "" || IsSeparator(rest[0]) {
        WalkNeverGrows(stack, rest);
      } else {
        var n := ComponentLength(rest);
        var component, after := rest[..n], rest[n..];
        assert Components(text) == [component] + Components(after);
        assert ([component] + Components(after))[1..] == Components(after);
        if component == "." {
          WalkNeverGrows(stack, after);
        } else if component == ".." {
          if stack != [] { WalkNeverGrows(stack[..|stack| - 1], after); }
        } else {
          assert (stack + [component])[..|stack|] == stack;
          WalkNeverGrows(stack + [component], after);
        }
      }
    }
  }

  /** The normal form is never longer than the text it was computed from. */
  lemma NormalizedNeverGrows(cwd: string, path: string)
    requires cwd != "" && cwd[0] == '/'
    requires Normalized(cwd, path).Success?
    ensures |Normalized(cwd, path).value| <= |Joined(cwd, path)|
  {
    MeaningOfJoined(cwd, path);
    WalkNeverGrows([], Joined(cwd, path));
  }

  // ----- The in-place algorithm -----

  /** The buffer holds the C string `s`. */
  ghost predicate Holds(buffer: array<char>, s: string)
    reads buffer
  {
    |s| < buffer.Length && buffer[..|s|] == s && buffer[|s|] == '\0'
  }

  /** The length of a path that follows the working directory's own text, as the source buffer holds it. */
  method JoinSource(cwd: CString, path: CString, source: array<char>) returns (length: nat)
    requires cwd != "" && |cwd| < MAXIMUM_PATH && path != ""
    requires source.Length == MAXIMUM_PATH
    modifies source
    ensures length == |Joined(cwd, path)|
    ensures length < MAXIMUM_PATH ==> Holds(source, Joined(cwd, path))
  {
    var prefix: string := "";
    if path[0] != '/' && path[0] != '\\' {
      CopyInto(source, 0, cwd);
      assert source[..|cwd|] == cwd;
      prefix := cwd;
      if |prefix| > 1 && source[|prefix| - 1] != '/' {
        source[|prefix|] := '/';
        prefix := prefix + "/";
        assert source[..|prefix|] == prefix;
      }
    }
    assert Joined(cwd, path) == prefix + path;
    length := |prefix| + |path|;
    if |path| >= MAXIMUM_PATH - |prefix| {
      return;
    }
    CopyInto(source, |prefix|, path);
    source[length] := '\0';
  }

  /** `memcpy` of a C string's characters to position `at`. */
  method CopyInto(target: array<char>, at: nat, text: string)
    requires at + |text| <= target.Length
    modifies target
    ensures target[..at + |text|] == old(target[..at]) + text
    ensures forall i | at + |text| <= i < target.Length :: target[i] == old(target[i])
  {
    forall i | 0 <= i < |text| { target[at + i] := text[i]; }
    assert target[..at] == old(target[..at]) && target[at..at + |text|] == text;
    assert target[..at + |text|] == target[..at] + target[at..at + |text|];
  }

  /** One component of the scan: skip separators, then run to the next one. */
  method NextComponent(source: array<char>, ghost text: CString, start: nat) returns (component: nat, cursor: nat)
    requires Holds(source, text) && start < |text|
    ensures start <= component <= cursor <= |text|
    ensures IsSeparator(text[start]) ==> start < component
    ensures component == cursor ==> cursor == |text|
    ensures cursor < |text| ==> IsSeparator(text[cursor])
    ensures component < cursor ==> IsRun(text[component..cursor])
    ensures source[component..cursor] == text[component..cursor]
    ensures Components(text[start..]) ==
            (if component == cursor then [] else [text[component..cursor]]) + Components(text[cursor..])
  {
    component := start;
    while source[component] == '/' || source[component] == '\\'
      invariant start <= component <= |text|
      invariant component == start || IsSeparator(text[start])
      invariant forall i | start <= i < component :: IsSeparator(text[i])
      decreases |text| - component
    {
      assert source[component] == source[..|text| + 1][component];
      component := component + 1;
    }
    cursor := component;
    while source[cursor] != '\0' && source[cursor] != '/' && source[cursor] != '\\'
      invariant component <= cursor <= |text|
      invariant forall i | component <= i < cursor :: !IsSeparator(text[i])
      decreases |text| - cursor
    {
      cursor := cursor + 1;
    }
    SliceOfText(source, text, component, cursor);
    RunBetween(text, component, cursor);
    ComponentAt(text, start, component, cursor);
  }

  lemma SliceOfText(buffer: array<char>, text: string, from: nat, to: nat)
    requires Holds(buffer, text) && from <= to <= |text|
    ensures buffer[from..to] == text[from..to]
  {
    assert forall i | from <= i < to :: buffer[i] == buffer[..|text|][i];
  }

  lemma RunBetween(text: CString, from: nat, to: nat)
    requires from <= to <= |text|
    requires forall i | from <= i < to :: !IsSeparator(text[i])
    ensures from < to ==> IsRun(text[from..to])
  {
    var run := text[from..to];
    forall i | 0 <= i < |run| ensures !IsSeparator(run[i]) && run[i] != '\0' {
      assert run[i] == text[from + i];
    }
  }

  lemma {:induction false} ComponentAt(text: string, start: nat, component: nat, cursor: nat)
    requires start <= component <= cursor <= |text|
    requires forall i | start <= i < component :: IsSeparator(text[i])
    requires forall i | component <= i < cursor :: !IsSeparator(text[i])
    requires cursor < |text| ==> IsSeparator(text[cursor])
    requires component == cursor ==> cursor == |text|
    ensures Components(text[start..]) ==
            (if component == cursor then [] else [text[component..cursor]]) + Components(text[cursor..])
    decreases component - start
  {
    var tail := text[start..];
    if start < component {
      ComponentAt(text, start + 1, component, cursor);
      assert tail[0] == text[start] && tail[1..] == text[start + 1..];
    } else if component < cursor {
      var count := cursor - component;
      forall i | 0 <= i < count ensures !IsSeparator(tail[i]) { assert tail[i] == text[component + i]; }
      RunIsComponent(tail, count);
      assert tail[..count] == text[component..cursor] && tail[count..] == text[cursor..];
    } else {
      assert tail == text[cursor..];
    }
  }

  /** The output buffer spells `stack`, and `length` is where its text ends. */
  ghost predicate Spelled(output: array<char>, length: nat, stack: seq<string>)
    reads output
  {
    AreRuns(stack) && Holds(output, Render(stack)) && length == |Render(stack)|
  }

  /** Cutting the last name off the output, as `..` does. */
  method CutName(output: array<char>, length: nat, ghost stack: seq<string>) returns (shorter: nat)
    requires stack != [] && Spelled(output, length, stack)
    modifies output
    ensures Spelled(output, shorter, stack[..|stack| - 1]) && shorter <= length
  {
    ghost var text, last := Spell(stack[..|stack| - 1]), stack[|stack| - 1];
    ghost var spelt := text + "/" + last;
    assert IsRun(last) && Render(stack) == spelt;
    assert forall i | 0 <= i < |spelt| :: output[i] == output[..length][i] == spelt[i];
    assert forall i | 0 <= i < |last| :: spelt[|text| + 1 + i] == last[i];
    shorter := length - 1;
    while shorter > 1 && output[shorter - 1] != '/'
      invariant |text| + 1 <= shorter <= |text| + |last|
    {
      assert shorter > |text| + 1 ==> output[shorter - 1] == last[shorter - 1 - (|text| + 1)];
      shorter := shorter - 1;
    }
    if shorter > 1 {
      shorter := shorter - 1;
    }
    output[shorter] := '\0';
    assert output[..shorter] == Render(stack[..|stack| - 1]);
  }

  /** Adding one more name behind the output. Both ENAMETOOLONG exits of the code are dead here. */
  method AppendName(output: array<char>, length: nat, source: array<char>, component: nat, count: nat,
                    ghost stack: seq<string>, ghost name: string)
    returns (error: Errno, longer: nat)
    requires output != source && output.Length == source.Length == MAXIMUM_PATH
    requires Spelled(output, length, stack)
    requires component + count <= source.Length && source[component..component + count] == name && IsRun(name)
    requires (if stack == [] then 0 else length) + 1 + count < MAXIMUM_PATH
    modifies output
    ensures error == OK
    ensures Spelled(output, longer, stack + [name])
    ensures longer == (if stack == [] then 0 else length) + 1 + count
  {
    SpellIsLong(stack);
    assert (stack + [name])[..|stack|] == stack;
    ghost var text := Spell(stack);
    longer := length;
    if longer != 1 {
      if longer + 1 >= MAXIMUM_PATH {
        assert false;
        return ENAMETOOLONG, longer;
      }
      output[longer] := '/';
      longer := longer + 1;
    }
    if count >= MAXIMUM_PATH - longer {
      assert false;
      return ENAMETOOLONG, longer;
    }
    assert output[..longer] == text + "/";
    CopyInto(output, longer, source[component..component + count]);
    longer := longer + count;
    output[longer] := '\0';
    error := OK;
  }

  lemma WalkOfFirst(stack: seq<string>, components: seq<string>, first: string, rest: seq<string>)
    requires components == [first] + rest
    ensures first == "." ==> Walk(stack, components) == Walk(stack, rest)
    ensures first == ".." && stack == [] ==> Walk(stack, components) == None
    ensures first == ".." && stack != [] ==> Walk(stack, components) == Walk(stack[..|stack| - 1], rest)
    ensures first != "." && first != ".." ==> Walk(stack, components) == Walk(stack + [first], rest)
  {
    assert components[0] == first && components[1..] == rest;
  }

  ghost predicate Scanning(source: array<char>, output: array<char>, joined: string, cursor: nat,
                           stack: seq<string>, outputLength: nat)
    reads source, output
  {
    && Holds(source, joined) && cursor <= |joined| < MAXIMUM_PATH == output.Length == source.Length
    && (cursor < |joined| ==> IsSeparator(joined[cursor]))
    && Spelled(output, outputLength, stack)
    && (stack == [] || outputLength <= cursor)
  }

  /** One round of the scan: the next component is dropped, cuts a name, or adds one. */
  method ScanComponent(source: array<char>, output: array<char>, start: nat, length: nat,
                       ghost joined: CString, ghost stack: seq<string>)
    returns (error: Errno, cursor: nat, outputLength: nat, ghost after: seq<string>)
    requires source != output && Scanning(source, output, joined, start, stack, length) && start < |joined|
    modifies output
    ensures error == OK ==> start < cursor && Scanning(source, output, joined, cursor, after, outputLength)
    ensures error == OK ==>
              Walk(after, Components(joined[cursor..])) == Walk(stack, Components(joined[start..]))
    ensures error != OK ==> error == EACCES && Walk(stack, Components(joined[start..])) == None
  {
    error, outputLength, after := OK, length, stack;
    var component;
    component, cursor := NextComponent(source, joined, start);
    var count := cursor - component;
    ghost var name, rest := joined[component..cursor], Components(joined[cursor..]);
    if count == 0 {
      assert [] + rest == rest;
      return;
    }
    WalkOfFirst(stack, [name] + rest, name, rest);
    ghost var run := source[component..cursor];
    assert source[component] == run[0] && (count > 1 ==> source[component + 1] == run[1]);
    DotNames(name);
    if count == 1 && source[component] == '.' {
    } else if count == 2 && source[component] == '.' && source[component + 1] == '.' {
      SpellIsLong(stack);
      if length == 1 {
        return EACCES, cursor, length, stack;
      }
      outputLength := CutName(output, length, stack);
      after := stack[..|stack| - 1];
    } else {
      error, outputLength := AppendName(output, length, source, component, count, stack, name);
      after := stack + [name];
    }
  }

  /** `normalize_path_unlocked`: one pass over the joined source, writing the normal form in place.
      The null pointer that the code rejects together with the empty path is the empty path here. */
  method NormalizePath(cwd: CString, path: CString, output: array<char>) returns (error: Errno)
    requires cwd != "" && cwd[0] == '/' && |cwd| < MAXIMUM_PATH
    requires output.Length == MAXIMUM_PATH
    modifies output
    ensures error == match Normalized(cwd, path) case Success(_) => OK case Failure(e) => e
    ensures error == OK ==> Holds(output, Normalized(cwd, path).value)
  {
    if path == "" {
      return ENOENT;
    }
    var source := new char[MAXIMUM_PATH](_ => '\0');
    var sourceLength := JoinSource(cwd, path, source);
    ghost var joined: CString := Joined(cwd, path);
    if sourceLength >= MAXIMUM_PATH {
      return ENAMETOOLONG;
    }
    MeaningOfJoined(cwd, path);
    assert joined[0..] == joined;

    output[0] := '/';
    output[1] := '\0';
    var outputLength := 1;
    var cursor := 0;
    ghost var stack: seq<string> := [];
    ghost var meaning := Meaning(cwd, path);
    while source[cursor] != '\0'
      invariant Scanning(source, output, joined, cursor, stack, outputLength)
      invariant Walk(stack, Components(joined[cursor..])) == meaning
      decreases sourceLength - cursor
    {
      error, cursor, outputLength, stack := ScanComponent(source, output, cursor, outputLength, joined, stack);
      if error != OK {
        return;
      }
    }
    assert source[..cursor] == joined[..cursor] && cursor == sourceLength && joined[cursor..] == "";
    return OK;
  }

  lemma DotNames(name: string)
    ensures name == "." <==> |name| == 1 && name[0] == '.'
    ensures name == ".." <==> |name| == 2 && name[0] == '.' && name[1] == '.'
  {}

  lemma SpellIsLong(stack: seq<string>)
    requires AreRuns(stack)
    ensures stack != [] ==> |Spell(stack)| > 1
  {
    if stack != [] { assert IsRun(stack[|stack| - 1]); }
  }
}

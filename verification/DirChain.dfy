/**
 Creating every missing directory of a path, by cutting the caller's own buffer at the last
 separator, recursing, and restoring it. The same code is used for the EEPROM and for the
 blackbox directory.
 */
module DirChain {
  import opened Common

  datatype Kind = Directory | File

  type Tree = map<string, Kind>

  predicate IsSeparator(c: char) {
    c == '\\' || c == '/'
  }

  /** The file system's name for a path: trailing separators do not matter. */
  function Key(path: string): (k: string)
    ensures k <= path
    ensures k == "" || !IsSeparator(k[|k| - 1])
    ensures forall i | |k| <= i < |path| :: IsSeparator(path[i])
  {
    if path != "" && IsSeparator(path[|path| - 1]) then Key(path[..|path| - 1]) else path
  }

  /** Index of the last c, or -1 (strrchr). */
  function LastChar(path: string, c: char): (i: int)
    ensures -1 <= i < |path|
    ensures i >= 0 ==> path[i] == c
    ensures forall j | i < j < |path| :: path[j] != c
  {
    if path == "" then -1
    else if path[|path| - 1] == c then |path| - 1
    else LastChar(path[..|path| - 1], c)
  }

  function LastSeparator(path: string): (i: int)
    ensures -1 <= i < |path|
    ensures i >= 0 ==> IsSeparator(path[i])
    ensures forall j | i < j < |path| :: !IsSeparator(path[j])
  {
    var slash, fslash := LastChar(path, '\\'), LastChar(path, '/');
    if fslash > slash then fslash else slash
  }

  /** Nothing to create: the empty path or a drive. */
  predicate IsRoot(path: string) {
    path == "" || (|path| == 2 && path[1] == ':')
  }

  predicate IsDirectory(tree: Tree, path: string) {
    IsRoot(path) || (path in tree && tree[path] == Directory)
  }

  predicate ParentIsDirectory(tree: Tree, key: string) {
    var k := LastSeparator(key);
    k < 0 || IsDirectory(tree, Key(key[..k]))
  }

  datatype Outcome = Outcome(ok: bool, tree: Tree)

  /** CreateDirectoryA() with "already exists" taken as success; the system may refuse some paths. */
  function Create(tree: Tree, refused: set<string>, path: string): Outcome {
    var key := Key(path);
    if key in tree then Outcome(true, tree)
    else if key in refused || !ParentIsDirectory(tree, key) then Outcome(false, tree)
    else Outcome(true, tree[key := Directory])
  }

  /** Where the path is cut for the recursive call: not at its start and not at its end. */
  predicate HasParent(path: string) {
    var k := LastSeparator(path);
    k > 0 && k + 1 < |path|
  }

  function Chain(tree: Tree, refused: set<string>, path: string): Outcome
    decreases |path|
  {
    if IsRoot(path) then Outcome(true, tree)
    else if Key(path) in tree then Outcome(tree[Key(path)] == Directory, tree)
    else if HasParent(path) then
      var parent := Chain(tree, refused, path[..LastSeparator(path)]);
      if parent.ok then Create(parent.tree, refused, path) else parent
    else Create(tree, refused, path)
  }

  // ---- only prefixes of the path are added, as directories ----

  ghost predicate OnlyAdds(tree: Tree, after: Tree, path: string) {
    && (forall p | p in tree :: p in after && after[p] == tree[p])
    && (forall p | p in after && p !in tree :: p <= path && after[p] == Directory)
  }

  lemma {:induction false} ChainOnlyAdds(tree: Tree, refused: set<string>, path: string)
    ensures OnlyAdds(tree, Chain(tree, refused, path).tree, path)
    decreases |path|
  {
    if !IsRoot(path) && Key(path) !in tree && HasParent(path) {
      ChainOnlyAdds(tree, refused, path[..LastSeparator(path)]);
    }
  }

  // ---- ancestors ----

  ghost predicate ParentClosed(tree: Tree) {
    forall key | key in tree :: ParentIsDirectory(tree, key)
  }

  lemma MoreDirectories(tree: Tree, after: Tree, key: string)
    requires ParentIsDirectory(tree, key)
    requires forall p | p in tree :: p in after && after[p] == tree[p]
    ensures ParentIsDirectory(after, key)
  {
  }

  lemma CreateKeepsClosed(tree: Tree, refused: set<string>, path: string)
    requires ParentClosed(tree)
    ensures ParentClosed(Create(tree, refused, path).tree)
  {
    var after := Create(tree, refused, path).tree;
    forall key | key in after
      ensures ParentIsDirectory(after, key)
    {
      MoreDirectories(tree, after, key);
    }
  }

  /** A tree in which everything has its parent stays so, and success means the path is a directory. */
  lemma {:induction false} ChainMakesDirectory(tree: Tree, refused: set<string>, path: string)
    requires ParentClosed(tree)
    ensures var r := Chain(tree, refused, path);
            && ParentClosed(r.tree)
            && (r.ok ==> IsRoot(path) || (Key(path) in r.tree && r.tree[Key(path)] == Directory))
    decreases |path|
  {
    hide ParentClosed;
    if !IsRoot(path) && Key(path) !in tree {
      if HasParent(path) {
        var up := path[..LastSeparator(path)];
        ChainMakesDirectory(tree, refused, up);
        ChainOnlyAdds(tree, refused, up);
        CreateKeepsClosed(Chain(tree, refused, up).tree, refused, path);
      } else {
        CreateKeepsClosed(tree, refused, path);
      }
    }
  }

  /** Directories all the way up. */
  ghost predicate AncestorsAreDirectories(tree: Tree, key: string)
    decreases |key|
  {
    var k := LastSeparator(key);
    k < 0 || (IsDirectory(tree, Key(key[..k])) && AncestorsAreDirectories(tree, Key(key[..k])))
  }

  lemma {:induction false} ClosedHasAncestors(tree: Tree, key: string)
    requires ParentClosed(tree) && IsDirectory(tree, key)
    ensures AncestorsAreDirectories(tree, key)
    decreases |key|
  {
    if key in tree {
      assert ParentIsDirectory(tree, key);
      var k := LastSeparator(key);
      if k >= 0 {
        ClosedHasAncestors(tree, Key(key[..k]));
      }
    } else {
      RootHasNoParent(tree, key);
    }
  }

  lemma RootHasNoParent(tree: Tree, key: string)
    requires IsRoot(key)
    ensures AncestorsAreDirectories(tree, key)
  {
    var k := LastSeparator(key);
    if k == 0 {
      assert Key(key[..0]) == "";
    }
  }

  /** The paths with nothing to create are the empty one and a drive. */
  lemma RootIs(path: string)
    ensures IsRoot(path) <==> path == "" || exists drive :: path == [drive, ':']
  {
    if |path| == 2 && path[1] == ':' {
      assert path == [path[0], ':'];
    }
  }

  /** mkdir -p: on success the path and all its ancestors are directories, and only prefixes of it are new. */
  lemma SuccessMeansWholeChain(tree: Tree, refused: set<string>, path: string)
    requires ParentClosed(tree) && Chain(tree, refused, path).ok
    requires path != "" && (|path| == 2 ==> path[1] != ':')
    ensures var after := Chain(tree, refused, path).tree;
            && IsDirectory(after, Key(path))
            && AncestorsAreDirectories(after, Key(path))
            && OnlyAdds(tree, after, path)
  {
    ChainMakesDirectory(tree, refused, path);
    ChainOnlyAdds(tree, refused, path);
    ClosedHasAncestors(Chain(tree, refused, path).tree, Key(path));
  }

  // ---- exactly when it succeeds ----

  /** No separator at the end, and no two in a row. */
  ghost predicate Clean(path: string) {
    forall i | 0 <= i < |path| && IsSeparator(path[i]) :: i + 1 < |path| && !IsSeparator(path[i + 1])
  }

  /** The first i characters name the path or one of its ancestors. */
  predicate IsBoundary(path: string, i: nat) {
    0 < i <= |path| && (i < |path| ==> IsSeparator(path[i]))
  }

  /** This component stops the chain: it is a file, or it is missing and may not be created. */
  predicate Blocks(tree: Tree, refused: set<string>, p: string) {
    !IsRoot(p) && if p in tree then tree[p] == File else p in refused
  }

  ghost predicate NothingBlocks(tree: Tree, refused: set<string>, path: string) {
    forall i: nat | IsBoundary(path, i) :: !Blocks(tree, refused, path[..i])
  }

  lemma CleanIsItsKey(path: string)
    requires Clean(path)
    ensures Key(path) == path
  {
  }

  lemma CleanPrefix(path: string, i: nat)
    requires Clean(path) && IsBoundary(path, i)
    ensures Clean(path[..i])
  {
    var p := path[..i];
    forall j | 0 <= j < |p| && IsSeparator(p[j])
      ensures j + 1 < |p| && !IsSeparator(p[j + 1])
    {
      assert path[j] == p[j];
    }
  }

  lemma CutAt(path: string)
    requires Clean(path) && path != "" && LastSeparator(path) > 0
    ensures HasParent(path) && IsBoundary(path, LastSeparator(path))
  {
  }

  /** The boundaries of a clean path are its own end and those of its parent. */
  lemma Boundaries(path: string, i: nat)
    requires Clean(path) && path != ""
    ensures IsBoundary(path, i) <==>
            i == |path| || (LastSeparator(path) > 0 && IsBoundary(path[..LastSeparator(path)], i))
  {
    var k := LastSeparator(path);
    if k > 0 && i < |path| && i < k {
      assert path[..k][i] == path[i];
    }
  }

  /** An existing directory has only directories above it, so nothing blocks. */
  lemma {:induction false} ExistingIsOpen(tree: Tree, refused: set<string>, path: string, i: nat)
    requires ParentClosed(tree) && Clean(path) && IsDirectory(tree, path) && IsBoundary(path, i)
    ensures !Blocks(tree, refused, path[..i])
    decreases |path|
  {
    assert path[..|path|] == path;
    var k := LastSeparator(path);
    Boundaries(path, i);
    if IsRoot(path) {
      RootHasNoCut(path);
    } else if i < |path| {
      CutAt(path);
      CleanPrefix(path, k);
      CleanIsItsKey(path[..k]);
      assert ParentIsDirectory(tree, path);
      assert path[..k][..i] == path[..i];
      ExistingIsOpen(tree, refused, path[..k], i);
    }
  }

  lemma RootHasNoCut(path: string)
    requires IsRoot(path)
    ensures LastSeparator(path) <= 0
  {
  }

  lemma ParentOpen(tree: Tree, refused: set<string>, path: string)
    requires Clean(path) && path != "" && LastSeparator(path) > 0
    ensures NothingBlocks(tree, refused, path) <==>
            NothingBlocks(tree, refused, path[..LastSeparator(path)]) && !Blocks(tree, refused, path)
  {
    var k := LastSeparator(path);
    var up := path[..k];
    assert path[..|path|] == path;
    if NothingBlocks(tree, refused, path) {
      assert IsBoundary(path, |path|);
      forall i: nat | IsBoundary(up, i)
        ensures !Blocks(tree, refused, up[..i])
      {
        Boundaries(path, i);
        assert up[..i] == path[..i];
      }
    } else {
      var i: nat :| IsBoundary(path, i) && Blocks(tree, refused, path[..i]);
      Boundaries(path, i);
      if i < |path| {
        assert up[..i] == path[..i];
      }
    }
  }

  lemma NoParentOpen(tree: Tree, refused: set<string>, path: string)
    requires Clean(path) && path != "" && LastSeparator(path) <= 0
    ensures NothingBlocks(tree, refused, path) <==> !Blocks(tree, refused, path)
  {
    assert path[..|path|] == path;
    assert IsBoundary(path, |path|);
    forall i: nat | IsBoundary(path, i)
      ensures i == |path|
    {
      Boundaries(path, i);
    }
  }

  /**
   For a path without stray separators the chain succeeds if and only if no component on the
   way is a file or a missing directory that may not be created.
   */
  lemma {:induction false} SucceedsIffNothingBlocks(tree: Tree, refused: set<string>, path: string)
    requires ParentClosed(tree) && Clean(path)
    ensures Chain(tree, refused, path).ok <==> NothingBlocks(tree, refused, path)
    decreases |path|
  {
    hide ParentClosed, Clean, NothingBlocks;
    CleanIsItsKey(path);
    if IsDirectory(tree, path) {
      ExistingOpens(tree, refused, path);
    } else if path in tree {
      FileBlocks(tree, refused, path);
    } else if LastSeparator(path) > 0 {
      var up := path[..LastSeparator(path)];
      CutAt(path);
      CleanPrefix(path, LastSeparator(path));
      CleanIsItsKey(up);
      SucceedsIffNothingBlocks(tree, refused, up);
      ParentOpen(tree, refused, path);
      ChainMakesDirectory(tree, refused, up);
      ChainOnlyAdds(tree, refused, up);
      NotAPrefix(path, up);
    } else {
      NoParentOpen(tree, refused, path);
      assert Key(path[..0]) == "";
    }
  }

  lemma NotAPrefix(path: string, up: string)
    requires |up| < |path|
    ensures !(path <= up)
  {
  }

  lemma ExistingOpens(tree: Tree, refused: set<string>, path: string)
    requires ParentClosed(tree) && Clean(path) && IsDirectory(tree, path)
    ensures NothingBlocks(tree, refused, path)
  {
    forall i: nat | IsBoundary(path, i)
      ensures !Blocks(tree, refused, path[..i])
    {
      ExistingIsOpen(tree, refused, path, i);
    }
  }

  lemma FileBlocks(tree: Tree, refused: set<string>, path: string)
    requires path in tree && tree[path] == File && !IsRoot(path)
    ensures !NothingBlocks(tree, refused, path)
  {
    assert path[..|path|] == path;
    assert IsBoundary(path, |path|);
  }

  /** A trailing separator stops the recursion: then only the last component is ever created. */
  lemma TrailingSeparatorMakesNoParents(tree: Tree, refused: set<string>, path: string)
    requires path != "" && IsSeparator(path[|path| - 1]) && !IsRoot(path) && Key(path) !in tree
    ensures Chain(tree, refused, path).ok <==>
            ParentIsDirectory(tree, Key(path)) && Key(path) !in refused
    ensures Chain(tree, refused, path).tree.Keys <= tree.Keys + {Key(path)}
  {
    assert LastSeparator(path) == |path| - 1;
  }

  // ---- on the caller's buffer ----

  /** The buffer holds the path, ended by NUL. */
  ghost predicate Holds(buf: seq<char>, path: string) {
    && |path| < |buf| && buf[..|path|] == path && buf[|path|] == '\0'
    && forall i | 0 <= i < |path| :: path[i] != '\0'
  }

  lemma ReadsAs(buf: seq<char>, path: string)
    requires Holds(buf, path)
    ensures |path| < |buf| && (buf[0] == '\0' <==> path == "")
    ensures path != "" ==> |buf| >= 2 && (buf[1] == ':' ==> |buf| >= 3)
    ensures IsRoot(path) <==> buf[0] == '\0' || (buf[1] == ':' && buf[2] == '\0')
    ensures forall k | 1 <= k <= |path| :: buf[k] != '\0' <==> k < |path|
  {
    assert forall k | 0 <= k < |path| :: buf[..|path|][k] == buf[k];
  }

  /** Writing NUL over a character leaves the path cut there. */
  lemma CutHolds(buf: seq<char>, path: string, k: nat)
    requires Holds(buf, path) && k < |path|
    ensures Holds(buf[k := '\0'], path[..k])
  {
    assert forall i | 0 <= i < |path| :: buf[..|path|][i] == buf[i];
    assert buf[k := '\0'][..k] == path[..k];
  }

  /** strrchr() on the NUL-terminated buffer. */
  method FindLast(buf: array<char>, c: char, ghost path: string) returns (at: int)
    requires Holds(buf[..], path) && c != '\0'
    ensures at == LastChar(path, c)
  {
    at := -1;
    var i := 0;
    while buf[i] != '\0'
      invariant 0 <= i <= |path|
      invariant at == LastChar(path[..i], c)
      decreases |path| - i
    {
      if buf[i] == c {
        at := i;
      }
      i := i + 1;
      assert path[..i][..i - 1] == path[..i - 1];
    }
    assert path[..i] == path;
  }

  class FileSystem {
    var tree: Tree
    const refused: set<string>

    constructor (tree: Tree, refused: set<string>)
      ensures this.tree == tree && this.refused == refused
    {
      this.tree, this.refused := tree, refused;
    }

    method CreateDirectory(path: string) returns (ok: bool)
      modifies this
      ensures Outcome(ok, tree) == Create(old(tree), refused, path)
    {
      var key := Key(path);
      if key in tree {
        return true;
      }
      if key in refused || !ParentIsDirectory(tree, key) {
        return false;
      }
      tree := tree[key := Directory];
      ok := true;
    }

    /** The chain; whatever the outcome, the buffer is as it was. */
    method CreateDirectoryChain(buf: array<char>, ghost path: string) returns (ok: bool)
      requires Holds(buf[..], path)
      modifies this, buf
      ensures buf[..] == old(buf[..])
      ensures Outcome(ok, tree) == Chain(old(tree), refused, path)
      decreases |path|
    {
      hide Key, ParentIsDirectory, LastChar, Holds, IsRoot, Create;
      ghost var was := buf[..];
      ReadsAs(was, path);
      if buf[0] == '\0' || (buf[1] == ':' && buf[2] == '\0') {
        return true;
      }
      var name := Text(buf, path);
      var key := Key(name);
      if key in tree {
        return tree[key] == Directory;
      }
      var slash := FindLast(buf, '\\', path);
      var fslash := FindLast(buf, '/', path);
      if fslash > slash {
        slash := fslash;
      }
      if slash > 0 && buf[slash + 1] != '\0' {
        var saved := buf[slash];
        buf[slash] := '\0';
        CutHolds(was, path, slash);
        assert buf[..] == was[slash := '\0'];
        var parentOk := CreateDirectoryChain(buf, path[..slash]);
        buf[slash] := saved;
        assert buf[..] == was[slash := '\0'][slash := saved] == was;
        if !parentOk {
          return false;
        }
      }
      ok := CreateDirectory(name);
    }
  }

  /** The string a system call reads from the buffer. */
  method Text(buf: array<char>, ghost path: string) returns (s: string)
    requires Holds(buf[..], path)
    ensures s == path
  {
    s := "";
    while buf[|s|] != '\0'
      invariant |s| <= |path| && s == path[..|s|]
      decreases |path| - |s|
    {
      s := s + [buf[|s|]];
    }
  }
}

/**
  Archives (thyn_security_toolchain/fetch.py): the single binary `_extract_single_member` takes
  out of a release tarball, and the tree `_safe_extract_strip1` makes of a rules tarball. An
  archive is its list of members, in archive order; a member's name is its path components.
 */
module Archive {
  import opened Wrappers
  import opened Download

  datatype Kind = Regular | Directory | Special

  datatype Member = Member(parts: seq<string>, absolute: bool, kind: Kind, content: Bytes)

  // ------------------------------------------------------------------- one member

  predicate IsCandidate(m: Member, basename: string) {
    && m.kind == Regular
    && m.parts != [] && m.parts[|m.parts| - 1] == basename
    && ".." !in m.parts
  }

  /** The content of the first candidate, if there is one. */
  function SingleMember(members: seq<Member>, basename: string): (r: Option<Bytes>)
    ensures r.None? <==> forall m <- members :: !IsCandidate(m, basename)
    ensures r.Some? ==> exists i :: 0 <= i < |members| && IsCandidate(members[i], basename)
                                 && r.value == members[i].content
                                 && forall j :: 0 <= j < i ==> !IsCandidate(members[j], basename)
  {
    if members == [] then None
    else if IsCandidate(members[0], basename) then
      Some(members[0].content)
    else
      var r := SingleMember(members[1..], basename);
      assert forall m <- members :: m == members[0] || m in members[1..];
      assert r.Some? ==> exists i :: 0 <= i < |members| && IsCandidate(members[i], basename)
                                  && r.value == members[i].content
                                  && forall j :: 0 <= j < i ==> !IsCandidate(members[j], basename) by {
        if r.Some? {
          var k :| 0 <= k < |members[1..]| && IsCandidate(members[1..][k], basename)
                && r.value == members[1..][k].content
                && forall j :: 0 <= j < k ==> !IsCandidate(members[1..][j], basename);
          assert forall j :: 0 < j < k + 1 ==> members[j] == members[1..][j - 1];
          assert members[k + 1] == members[1..][k];
        }
      }
      r
  }

  // ------------------------------------------------------------------- a whole tree

  type RelPath = seq<string>

  datatype Node = Folder | File(content: Bytes)

  /** What lies below a directory; the directory itself is not listed. */
  type Tree = map<RelPath, Node>

  predicate IsAccepted(m: Member) {
    |m.parts| >= 2 && ".." !in m.parts && !m.absolute && m.kind != Special
  }

  /** The member's path without the archive's top-level directory. */
  function Stripped(m: Member): RelPath
    requires IsAccepted(m)
  {
    m.parts[1..]
  }

  /** `mkdir(parents=True, exist_ok=True)`: refuses when something on the way is a file. */
  function MakeFolders(tree: Tree, path: RelPath): Option<Tree> {
    if path == [] then Some(tree)
    else
      match MakeFolders(tree, path[..|path| - 1])
      case None => None
      case Some(t) =>
        if path !in t then Some(t[path := Folder])
        else if t[path] == Folder then Some(t)
        else None
  }

  function ExtractMember(tree: Tree, m: Member): Option<Tree> {
    if !IsAccepted(m) then Some(tree)
    else if m.kind == Directory then MakeFolders(tree, Stripped(m))
    else
      var out := Stripped(m);
      match MakeFolders(tree, out[..|out| - 1])
      case None => None
      case Some(t) => if out in t && t[out] == Folder then None else Some(t[out := File(m.content)])
  }

  function Extract(members: seq<Member>): Option<Tree> {
    if members == [] then Some(map[])
    else
      match Extract(members[..|members| - 1])
      case None => None
      case Some(tree) => ExtractMember(tree, members[|members| - 1])
  }

  // ------------------------------------------------------------------- what extraction yields

  predicate WritesFile(m: Member, p: RelPath) {
    IsAccepted(m) && m.kind == Regular && Stripped(m) == p
  }

  /** `p` is `path` or a directory on the way to it. */
  predicate OnTheWay(p: RelPath, path: RelPath) {
    p != [] && p <= path
  }

  /** `p` has to be a directory for `m` to be extracted. */
  predicate NeedsFolder(m: Member, p: RelPath) {
    IsAccepted(m) && OnTheWay(p, Stripped(m)) && (p == Stripped(m) ==> m.kind == Directory)
  }

  /** The last accepted regular member at a path. */
  function LastWriter(members: seq<Member>, p: RelPath): Option<Bytes> {
    if members == [] then None
    else if WritesFile(members[|members| - 1], p) then Some(members[|members| - 1].content)
    else LastWriter(members[..|members| - 1], p)
  }

  ghost predicate FolderNeeded(members: seq<Member>, p: RelPath) {
    exists m <- members :: NeedsFolder(m, p)
  }

  /** No path is wanted both as a file and as a directory. */
  ghost predicate Consistent(members: seq<Member>) {
    forall p :: !(LastWriter(members, p).Some? && FolderNeeded(members, p))
  }

  /** The tree every path of which is as the members ask for it. */
  ghost predicate Matches(tree: Tree, members: seq<Member>) {
    && (forall p :: (p in tree && tree[p].File?) <==> LastWriter(members, p).Some?)
    && (forall p :: p in tree && tree[p].File? ==> tree[p].content == LastWriter(members, p).value)
    && (forall p :: (p in tree && tree[p].Folder?) <==> FolderNeeded(members, p))
  }

  lemma {:induction false} MakeFoldersExactly(tree: Tree, path: RelPath)
    ensures MakeFolders(tree, path).Some? <==> forall p | OnTheWay(p, path) :: !(p in tree && tree[p].File?)
    ensures MakeFolders(tree, path).Some? ==>
              forall p :: (p in MakeFolders(tree, path).value <==> p in tree || OnTheWay(p, path))
                       && (p in tree ==> MakeFolders(tree, path).value[p] == tree[p])
                       && (p !in tree && OnTheWay(p, path) ==> MakeFolders(tree, path).value[p] == Folder)
  {
    if path != [] {
      var init := path[..|path| - 1];
      MakeFoldersExactly(tree, init);
      forall p: RelPath
        ensures OnTheWay(p, path) <==> p == path || OnTheWay(p, init)
      {
        if p <= path && p != path {
          assert p == path[..|p|] == init[..|p|];
        }
        if p <= init {
          assert p == init[..|p|] == path[..|p|];
        }
      }
    }
  }

  /** The directories a member is extracted into. */
  function FolderPath(m: Member): RelPath
    requires IsAccepted(m)
  {
    if m.kind == Directory then Stripped(m) else Stripped(m)[..|Stripped(m)| - 1]
  }

  lemma FolderPathExactly(m: Member, p: RelPath)
    requires IsAccepted(m)
    ensures NeedsFolder(m, p) <==> OnTheWay(p, FolderPath(m))
  {
    var out, folders := Stripped(m), FolderPath(m);
    if m.kind != Directory {
      if p <= out && p != out {
        assert p == out[..|p|] == folders[..|p|];
      }
      if p <= folders {
        assert p == folders[..|p|] == out[..|p|];
      }
    }
  }

  lemma FolderNeededStep(members: seq<Member>, m: Member, p: RelPath)
    ensures FolderNeeded(members + [m], p) <==> FolderNeeded(members, p) || NeedsFolder(m, p)
  {
    assert forall x :: x in members + [m] <==> x in members || x == m;
  }

  lemma LastStepMatches(tree: Tree, members: seq<Member>, m: Member)
    requires Matches(tree, members)
    ensures ExtractMember(tree, m).Some? ==> Matches(ExtractMember(tree, m).value, members + [m])
    ensures ExtractMember(tree, m).Some? <==> forall p ::
              && !(NeedsFolder(m, p) && LastWriter(members, p).Some?)
              && !(WritesFile(m, p) && FolderNeeded(members, p))
  {
    var all := members + [m];
    assert all[..|members|] == members;
    forall p
      ensures FolderNeeded(all, p) <==> FolderNeeded(members, p) || NeedsFolder(m, p)
    {
      FolderNeededStep(members, m, p);
    }
    if IsAccepted(m) {
      var out := Stripped(m);
      var folders := FolderPath(m);
      MakeFoldersExactly(tree, folders);
      forall p: RelPath
        ensures NeedsFolder(m, p) <==> OnTheWay(p, folders)
      {
        FolderPathExactly(m, p);
      }
      if m.kind == Regular {
        assert forall p :: WritesFile(m, p) <==> p == out;
        assert !(out <= folders);
      }
    }
  }

  /**
    Extraction succeeds exactly when no path is wanted both as a file and as a directory; then
    every file holds what the last accepted member at its path wrote, and the directories are the
    ones the accepted members name or lie in. Nothing else is created.
   */
  lemma {:induction false} ExtractExactly(members: seq<Member>)
    ensures Extract(members).Some? <==> Consistent(members)
    ensures Extract(members).Some? ==> Matches(Extract(members).value, members)
  {
    if members == [] {
      assert forall p :: !FolderNeeded(members, p);
    } else {
      var init, m := members[..|members| - 1], members[|members| - 1];
      assert members == init + [m];
      ExtractExactly(init);
      forall p
        ensures FolderNeeded(members, p) <==> FolderNeeded(init, p) || NeedsFolder(m, p)
      {
        FolderNeededStep(init, m, p);
      }
      if Extract(init).Some? {
        LastStepMatches(Extract(init).value, init, m);
      } else {
        var p :| LastWriter(init, p).Some? && FolderNeeded(init, p);
        assert LastWriter(members, p).Some? && FolderNeeded(members, p);
      }
    }
  }

  /** A member that lies at `p` below the archive's top-level directory, by a path that stays inside. */
  ghost predicate LiesAt(m: Member, p: RelPath) {
    !m.absolute && p != [] && (exists top :: m.parts == [top] + p) && forall part <- m.parts :: part != ".."
  }

  lemma LiesAtExactly(m: Member, p: RelPath)
    ensures LiesAt(m, p) && m.kind != Special <==> IsAccepted(m) && Stripped(m) == p
  {
    if IsAccepted(m) && Stripped(m) == p {
      assert m.parts == [m.parts[0]] + p;
    }
  }

  /** The member at `i` is the last regular one that lies at `p`. */
  ghost predicate IsLastAt(members: seq<Member>, p: RelPath, i: nat) {
    && i < |members| && members[i].kind == Regular && LiesAt(members[i], p)
    && forall j :: i < j < |members| ==> !(members[j].kind == Regular && LiesAt(members[j], p))
  }

  lemma LastAtEarlier(init: seq<Member>, last: Member, p: RelPath, i: nat)
    requires !(last.kind == Regular && LiesAt(last, p))
    ensures IsLastAt(init + [last], p, i) <==> IsLastAt(init, p, i)
  {
    assert forall j :: 0 <= j < |init| ==> (init + [last])[j] == init[j];
    if IsLastAt(init, p, i) {
      assert (init + [last])[|init|] == last;
    }
  }

  lemma {:induction false} LastWriterIs(members: seq<Member>, p: RelPath, content: Bytes)
    ensures LastWriter(members, p) == Some(content)
       <==> exists i: nat :: IsLastAt(members, p, i) && members[i].content == content
  {
    if members != [] {
      var init, last := members[..|members| - 1], members[|members| - 1];
      assert members == init + [last];
      LastWriterIs(init, p, content);
      LiesAtExactly(last, p);
      if last.kind == Regular && LiesAt(last, p) {
        assert IsLastAt(members, p, |init|);
        assert forall i: nat :: IsLastAt(members, p, i) ==> i == |init|;
      } else {
        forall i: nat
          ensures IsLastAt(members, p, i) <==> IsLastAt(init, p, i)
        {
          LastAtEarlier(init, last, p, i);
        }
        assert members == init + [last];
        forall i: nat | i < |init|
          ensures members[i].content == init[i].content
        {}
      }
    }
  }

  /**
    An extracted file lies where the last regular member of that path lies below the top-level
    directory, and holds what that member does; nothing that is absolute, goes through `..` or is
    neither file nor directory is extracted.
   */
  lemma ExtractedFileExactly(members: seq<Member>, p: RelPath, content: Bytes)
    requires Extract(members).Some?
    ensures p in Extract(members).value && Extract(members).value[p] == File(content)
       <==> exists i: nat :: IsLastAt(members, p, i) && members[i].content == content
  {
    ExtractExactly(members);
    LastWriterIs(members, p, content);
  }

  /** `p` is the member's path, if it is a directory, or one on the way to it. */
  ghost predicate HasFolder(m: Member, q: RelPath, p: RelPath) {
    m.kind != Special && LiesAt(m, q) && p != [] && p <= q && (p == q ==> m.kind == Directory)
  }

  /** A directory of the extraction is one that a member is, or that one lies in. */
  lemma ExtractedFolderExactly(members: seq<Member>, p: RelPath)
    requires Extract(members).Some?
    ensures p in Extract(members).value && Extract(members).value[p] == Folder
       <==> exists m, q :: m in members && HasFolder(m, q, p)
  {
    ExtractExactly(members);
    if FolderNeeded(members, p) {
      var m :| m in members && NeedsFolder(m, p);
      LiesAtExactly(m, Stripped(m));
      assert HasFolder(m, Stripped(m), p);
    }
    if m, q :| m in members && HasFolder(m, q, p) {
      LiesAtExactly(m, q);
      assert NeedsFolder(m, p);
    }
  }

  // ------------------------------------------------------------------- the extraction loop

  /** `_safe_extract_strip1`: the archive is extracted member by member into an empty directory. */
  method SafeExtract(members: seq<Member>) returns (tree: Option<Tree>)
    ensures tree == Extract(members)
    ensures tree.Some? <==> Consistent(members)
    ensures tree.Some? ==> Matches(tree.value, members)
  {
    ExtractExactly(members);
    var dest: Tree := map[];
    var i := 0;
    while i < |members|
      invariant 0 <= i <= |members|
      invariant Extract(members[..i]) == Some(dest)
    {
      assert members[..i + 1][..i] == members[..i];
      var next := ExtractMember(dest, members[i]);
      if next.None? {
        ExtractFailsEarly(members, i + 1);
        return None;
      }
      dest := next.value;
      i := i + 1;
    }
    assert members[..i] == members;
    return Some(dest);
  }

  lemma {:induction false} ExtractFailsEarly(members: seq<Member>, n: nat)
    requires n <= |members| && Extract(members[..n]).None?
    ensures Extract(members).None?
    decreases |members| - n
  {
    if n == |members| {
      assert members[..n] == members;
    } else {
      assert members[..n + 1][..n] == members[..n];
      ExtractFailsEarly(members, n + 1);
    }
  }
}

/**
 * The client calls on top of the tree: List (list.go, client/list.go),
 * Upload of one file (upload.go:19-44, client/upload.go:18-34) and the
 * per-entry decision of UploadFolder (upload.go:50-132,
 * client/upload.go:41-113). The top-level package resolves paths with the
 * folding lookup and creates folders with MkdirAll; the client package
 * uses the exact lookup and CreatePath.
 */
module Client {
  import opened Errors
  import opened Nodes
  import opened Trees
  import Paths
  import Mutations
  import Mkdir

  /** The two packages that offer these calls. */
  datatype Package = Acd | AcdClient

  function FinderOf(p: Package): Mkdir.Finder {
    if p.Acd? then Mkdir.Folding else Mkdir.Exact
  }

  // ---------------------------------------------------------------------
  // List

  /**
   * List: a lookup error is returned as it is, a node that is not a folder
   * gives PathIsNotFolder, and a folder gives its children, in stored order.
   */
  function List(t: Tree, path: string, p: Package): (r: Result<seq<ID>>)
    requires Wf(t)
    ensures var found := Mkdir.Find(t, path, FinderOf(p));
      && (found.Err? ==> r == Err(found.error))
      && (r.Ok? <==> found.Ok? && IsDir(t.nodes[found.value]))
      && (r.Ok? ==> r.value == t.nodes[found.value].children)
      && (found.Ok? && !IsDir(t.nodes[found.value]) ==> r == Err(PathIsNotFolder))
  {
    match Mkdir.Find(t, path, FinderOf(p))
    case Err(e) => Err(e)
    case Ok(n) => if IsDir(t.nodes[n]) then Ok(t.nodes[n].children) else Err(PathIsNotFolder)
  }

  /**
   * Listing a folder and resolving a listed child's name under the folder's
   * path gives back that child, as long as no earlier child of the list
   * carries a matching name: the listing and the lookup agree.
   */
  lemma ListThenFind(t: Tree, parts: seq<string>, p: Package, j: nat)
    requires Wf(t) && Mkdir.Plain(parts)
    requires var r := List(t, [Paths.Slash] + Paths.Join(parts, Paths.Slash), p);
      r.Ok? && j < |r.value| && r.value[j] in t.nodes
    requires var kids := List(t, [Paths.Slash] + Paths.Join(parts, Paths.Slash), p).value;
      var name := t.nodes[kids[j]].name;
      && name != "" && Paths.Slash !in name
      && forall i :: 0 <= i < j && kids[i] in t.nodes ==> !Matches(t.nodes[kids[i]].name, name, p.Acd?)
    ensures var kids := List(t, [Paths.Slash] + Paths.Join(parts, Paths.Slash), p).value;
      Mkdir.Find(t, [Paths.Slash] + Paths.Join(parts + [t.nodes[kids[j]].name], Paths.Slash), FinderOf(p)) == Ok(kids[j])
  {
    var f := FinderOf(p);
    var fold := p.Acd?;
    var folder := Mkdir.Find(t, [Paths.Slash] + Paths.Join(parts, Paths.Slash), f).value;
    var kids := t.nodes[folder].children;
    var name := t.nodes[kids[j]].name;
    Mkdir.FindRooted(t, parts, f);
    assert Mkdir.Plain(parts + [name]) by { PlainSnoc(parts, name); }
    Mkdir.FindRooted(t, parts + [name], f);
    WalkAppend(t, t.root, parts, [name], fold);
    assert FirstMatch(t, kids, name, fold) == Some(kids[j]) by {
      assert Matches(name, name, fold);
      FirstMatchAt(t, kids, j, name, fold);
    }
    assert [name][1..] == [];
  }

  lemma PlainSnoc(parts: seq<string>, name: string)
    requires Mkdir.Plain(parts) && name != "" && Paths.Slash !in name
    ensures Mkdir.Plain(parts + [name])
  {
    var s := parts + [name];
    forall i | 0 <= i < |s|
      ensures s[i] != "" && Paths.Slash !in s[i]
    {
      if i < |parts| {
        assert s[i] == parts[i];
      }
    }
  }

  // ---------------------------------------------------------------------
  // Upload of one file

  /** The outcome of a call as an error-only result. */
  function Done<T>(e: Mutations.Effect<T>): (r: Mutations.Effect<()>)
    ensures r.tree == e.tree && r.next == e.next
    ensures r.result.Ok? <==> e.result.Ok?
    ensures r.result.Err? ==> r.result.error == e.result.error
  {
    Mutations.Effect(if e.result.Ok? then Ok(()) else Err(e.result.error), e.tree, e.next)
  }

  /**
   * Upload (upload.go:19-44): a name that already resolves is refused
   * with FileExists before any call; otherwise the folder path.Dir(name)
   * is created with its ancestors, and the file is uploaded under it as
   * path.Base(name). With the exact lookup this is also the evidently
   * intended Upload of client/upload.go:18-34.
   */
  function Upload(t: Tree, filename: string, p: Package, server: Mutations.Server, k: nat): (r: Mutations.Effect<()>)
    requires Wf(t)
    ensures Wf(r.tree) && t.nodes.Keys <= r.tree.nodes.Keys
    ensures r.tree.indexed == t.indexed && r.tree.root == t.root
    ensures Mkdir.Find(t, filename, FinderOf(p)).Ok? ==> r == Mutations.Effect(Err(FileExists), t, k)
    ensures Mkdir.Find(t, filename, FinderOf(p)).Err? ==>
      var m := Mkdir.MkdirAll(t, Paths.Dir(filename), FinderOf(p), server, k);
      && (m.result.Err? ==> r == Mutations.Effect(Err(m.result.error), m.tree, m.next))
      && (m.result.Ok? ==> r == Done(Mutations.Upload(m.tree, m.result.value, Paths.Base(filename), server, m.next)))
  {
    if Mkdir.Find(t, filename, FinderOf(p)).Ok? then Mutations.Effect(Err(FileExists), t, k)
    else
      var m := Mkdir.MkdirAll(t, Paths.Dir(filename), FinderOf(p), server, k);
      if m.result.Err? then Mutations.Effect(Err(m.result.error), m.tree, m.next)
      else Done(Mutations.Upload(m.tree, m.result.value, Paths.Base(filename), server, m.next))
  }

  /**
   * Upload as client/upload.go:18-21 writes it: when the name already
   * resolves, the error just found to be nil is returned, so the call
   * succeeds without uploading anything.
   */
  function ClientUploadAsWritten(t: Tree, filename: string, server: Mutations.Server, k: nat): (r: Mutations.Effect<()>)
    requires Wf(t)
    ensures Mkdir.Find(t, filename, Mkdir.Exact).Ok? ==> r.result.Ok? && r.tree == t && r.next == k
    ensures Mkdir.Find(t, filename, Mkdir.Exact).Err? ==> r == Upload(t, filename, AcdClient, server, k)
  {
    if Mkdir.Find(t, filename, Mkdir.Exact).Ok? then Mutations.Effect(Ok(()), t, k)
    else Upload(t, filename, AcdClient, server, k)
  }

  /** An existing name: as written the client package reports success, as intended it refuses like the top-level package. */
  lemma ExistingNameSucceedsSilentlyAsWritten(t: Tree, filename: string, server: Mutations.Server, k: nat)
    requires Wf(t) && Mkdir.Find(t, filename, Mkdir.Exact).Ok?
    ensures ClientUploadAsWritten(t, filename, server, k) == Mutations.Effect(Ok(()), t, k)
    ensures Upload(t, filename, AcdClient, server, k) == Mutations.Effect(Err(FileExists), t, k)
  {
  }

  /** The folder of an absolute path of plain segments resolves like the walk over all but the last segment. */
  lemma FindDir(t: Tree, parts: seq<string>, f: Mkdir.Finder)
    requires Wf(t) && |parts| >= 1
    requires forall i :: 0 <= i < |parts| ==> Paths.PlainElement(parts[i])
    ensures Mkdir.Find(t, Paths.Dir([Paths.Slash] + Paths.Join(parts, Paths.Slash)), f)
      == Walk(t, t.root, parts[..|parts| - 1], f.Folding?)
  {
    Paths.DirBaseOfPlainPath(parts);
    if |parts| == 1 {
      FindSlash(t, f);
      assert parts[..0] == [];
    } else {
      FindInit(t, parts, f);
    }
  }

  lemma FindInit(t: Tree, parts: seq<string>, f: Mkdir.Finder)
    requires Wf(t) && |parts| >= 2
    requires forall i :: 0 <= i < |parts| ==> Paths.PlainElement(parts[i])
    ensures Mkdir.Find(t, [Paths.Slash] + Paths.Join(parts[..|parts| - 1], Paths.Slash), f)
      == Walk(t, t.root, parts[..|parts| - 1], f.Folding?)
  {
    var init := parts[..|parts| - 1];
    assert Mkdir.Plain(init) by {
      forall i | 0 <= i < |init| ensures init[i] != "" && Paths.Slash !in init[i] {
        assert Paths.PlainElement(parts[i]);
      }
    }
    Mkdir.FindRooted(t, init, f);
  }

  lemma FindSlash(t: Tree, f: Mkdir.Finder)
    requires Wf(t)
    ensures Mkdir.Find(t, [Paths.Slash], f) == Ok(t.root)
  {
    if f.Folding? {
      FindNodeRoot(t, [Paths.Slash]);
    } else {
      assert Paths.TrimSlash([Paths.Slash]) == "";
    }
  }

  /** A file uploaded under the folder the walk to its path stopped at is reached by that walk afterwards. */
  lemma UploadedWalk(t: Tree, parts: seq<string>, folder: ID, fold: bool, server: Mutations.Server, k: nat)
    requires Wf(t) && folder in t.nodes && |parts| >= 1
    requires Walk(t, t.root, parts[..|parts| - 1], fold) == Ok(folder)
    requires Walk(t, t.root, parts, fold).Err?
    requires var ex := server(k, Mutations.FileRequest(t.nodes[folder].id, parts[|parts| - 1]));
      Mutations.UploadReply(ex).Ok? ==>
        var n := Mutations.UploadReply(ex).value;
        n.name == parts[|parts| - 1] && n.children == [] && Mkdir.Unused(t, n.id)
    ensures var u := Mutations.Upload(t, folder, parts[|parts| - 1], server, k);
      u.result.Ok? ==> Walk(u.tree, t.root, parts, fold) == Ok(u.result.value)
  {
    var n := |parts|;
    var u := Mutations.Upload(t, folder, parts[n - 1], server, k);
    if u.result.Ok? {
      var node := Mutations.UploadReply(server(k, Mutations.FileRequest(t.nodes[folder].id, parts[n - 1]))).value;
      assert u.tree == Mutations.Attach(t, folder, node);
      assert parts[..n] == parts;
      Mkdir.WalkCreated(t, folder, node, parts, n - 1, fold);
    }
  }

  /**
   * A file uploaded into a folder that already exists resolves at once
   * to the new node, provided the service names it as asked, gives it no
   * children and an ID the tree does not use.
   */
  lemma UploadResolves(t: Tree, parts: seq<string>, p: Package, server: Mutations.Server, k: nat)
    requires Wf(t) && |parts| >= 1
    requires forall i :: 0 <= i < |parts| ==> Paths.PlainElement(parts[i])
    requires var filename := [Paths.Slash] + Paths.Join(parts, Paths.Slash);
      && Mkdir.Find(t, filename, FinderOf(p)).Err?
      && Mkdir.Find(t, Paths.Dir(filename), FinderOf(p)).Ok?
      && IsDir(t.nodes[Mkdir.Find(t, Paths.Dir(filename), FinderOf(p)).value])
    requires var filename := [Paths.Slash] + Paths.Join(parts, Paths.Slash);
      var folder := Mkdir.Find(t, Paths.Dir(filename), FinderOf(p)).value;
      var ex := server(k, Mutations.FileRequest(t.nodes[folder].id, parts[|parts| - 1]));
      Mutations.UploadReply(ex).Ok? ==>
        var n := Mutations.UploadReply(ex).value;
        n.name == parts[|parts| - 1] && n.children == [] && Mkdir.Unused(t, n.id)
    ensures var filename := [Paths.Slash] + Paths.Join(parts, Paths.Slash);
      var r := Upload(t, filename, p, server, k);
      r.result.Ok? ==> Mkdir.Find(r.tree, filename, FinderOf(p)).Ok?
  {
    UploadResolvesCall(t, parts, p, server, k);
    UploadResolvesWalk(t, parts, p, server, k);
  }

  lemma UploadResolvesCall(t: Tree, parts: seq<string>, p: Package, server: Mutations.Server, k: nat)
    requires Wf(t) && |parts| >= 1
    requires forall i :: 0 <= i < |parts| ==> Paths.PlainElement(parts[i])
    requires var filename := [Paths.Slash] + Paths.Join(parts, Paths.Slash);
      && Mkdir.Find(t, filename, FinderOf(p)).Err?
      && Mkdir.Find(t, Paths.Dir(filename), FinderOf(p)).Ok?
      && IsDir(t.nodes[Mkdir.Find(t, Paths.Dir(filename), FinderOf(p)).value])
    ensures var filename := [Paths.Slash] + Paths.Join(parts, Paths.Slash);
      var folder := Mkdir.Find(t, Paths.Dir(filename), FinderOf(p)).value;
      Upload(t, filename, p, server, k) == Done(Mutations.Upload(t, folder, parts[|parts| - 1], server, k))
  {
    UploadIntoFolder(t, [Paths.Slash] + Paths.Join(parts, Paths.Slash), p, server, k);
    Paths.DirBaseOfPlainPath(parts);
  }

  lemma UploadResolvesWalk(t: Tree, parts: seq<string>, p: Package, server: Mutations.Server, k: nat)
    requires Wf(t) && |parts| >= 1
    requires forall i :: 0 <= i < |parts| ==> Paths.PlainElement(parts[i])
    requires var filename := [Paths.Slash] + Paths.Join(parts, Paths.Slash);
      && Mkdir.Find(t, filename, FinderOf(p)).Err?
      && Mkdir.Find(t, Paths.Dir(filename), FinderOf(p)).Ok?
    requires var filename := [Paths.Slash] + Paths.Join(parts, Paths.Slash);
      var folder := Mkdir.Find(t, Paths.Dir(filename), FinderOf(p)).value;
      var ex := server(k, Mutations.FileRequest(t.nodes[folder].id, parts[|parts| - 1]));
      Mutations.UploadReply(ex).Ok? ==>
        var n := Mutations.UploadReply(ex).value;
        n.name == parts[|parts| - 1] && n.children == [] && Mkdir.Unused(t, n.id)
    ensures var filename := [Paths.Slash] + Paths.Join(parts, Paths.Slash);
      var folder := Mkdir.Find(t, Paths.Dir(filename), FinderOf(p)).value;
      var u := Mutations.Upload(t, folder, parts[|parts| - 1], server, k);
      u.result.Ok? ==> Mkdir.Find(u.tree, filename, FinderOf(p)).Ok?
  {
    var f := FinderOf(p);
    var filename := [Paths.Slash] + Paths.Join(parts, Paths.Slash);
    var folder := Mkdir.Find(t, Paths.Dir(filename), f).value;
    var u := Mutations.Upload(t, folder, parts[|parts| - 1], server, k);
    FindDir(t, parts, f);
    assert Mkdir.Plain(parts);
    Mkdir.FindRooted(t, parts, f);
    UploadedWalk(t, parts, folder, f.Folding?, server, k);
    if u.result.Ok? {
      Mkdir.FindRooted(u.tree, parts, f);
    }
  }

  /** A missing name whose folder exists is uploaded straight into that folder. */
  lemma UploadIntoFolder(t: Tree, filename: string, p: Package, server: Mutations.Server, k: nat)
    requires Wf(t) && Mkdir.Find(t, filename, FinderOf(p)).Err?
    requires Mkdir.Find(t, Paths.Dir(filename), FinderOf(p)).Ok?
    requires IsDir(t.nodes[Mkdir.Find(t, Paths.Dir(filename), FinderOf(p)).value])
    ensures Upload(t, filename, p, server, k) ==
      Done(Mutations.Upload(t, Mkdir.Find(t, Paths.Dir(filename), FinderOf(p)).value, Paths.Base(filename), server, k))
  {
  }

  // ---------------------------------------------------------------------
  // UploadFolder

  /** What opening the local file gave: an error, or the hex MD5 of its contents. */
  datatype Opened = OpenFailed(notExist: bool) | Contents(md5: string)

  /** One entry the walk of the local folder visits. */
  datatype Entry = Entry(fpath: string, isDir: bool, file: Opened)

  /** strings.TrimPrefix. */
  function TrimPrefix(s: string, prefix: string): (r: string)
    ensures prefix <= s ==> prefix + r == s
    ensures !(prefix <= s) ==> r == s
  {
    if prefix <= s then s[|prefix|..] else s
  }

  /**
   * The remote name of a local file as evidently intended: the remote
   * base followed by the path of the file relative to the local folder.
   */
  function RemoteName(localPath: string, remoteBase: string, fpath: string): (r: string)
    ensures localPath <= fpath ==> r == remoteBase + fpath[|localPath|..]
  {
    remoteBase + TrimPrefix(fpath, localPath)
  }

  /**
   * The remote name as upload.go:68-69 and client/upload.go:53-54 write
   * it: the local path is cut after every occurrence of the local folder
   * and the pieces after the first are joined with separators. None stands
   * for the panic on parts[1:] when no piece comes back.
   */
  function RemoteNameAsWritten(localPath: string, remoteBase: string, fpath: string): (r: Option<string>)
    ensures r.None? <==> |Paths.SplitAfter(fpath, localPath)| == 0
  {
    var parts := Paths.SplitAfter(fpath, localPath);
    if |parts| == 0 then None else Some(remoteBase + Paths.JoinWith(parts[1..], "/"))
  }

  /** When the local folder occurs only at the start of the file's path, the two remote names agree. */
  lemma RemoteNameAgreesOnce(localPath: string, remoteBase: string, rest: string)
    requires |localPath| > 0 && Paths.IndexOf(rest, localPath) < 0
    ensures RemoteNameAsWritten(localPath, remoteBase, localPath + rest) == Some(RemoteName(localPath, remoteBase, localPath + rest))
  {
    var s := localPath + rest;
    assert s[..|localPath|] == localPath;
    assert Paths.IndexOf(s, localPath) == 0;
    assert s[|localPath|..] == rest;
    assert Paths.SplitAfter(s, localPath) == [localPath] + Paths.SplitAfter(rest, localPath);
    assert Paths.SplitAfter(rest, localPath) == [rest];
  }

  /**
   * A local folder "d" whose file "d/d/a" repeats the folder's name: the
   * name as written gets an empty segment, which the exact lookup of the
   * client package can only match against a child named "", so the
   * existing remote file is never found at that name.
   */
  lemma RepeatedFolderNameDoublesSeparator()
    ensures RemoteNameAsWritten("d", "/r", "d/d/a") == Some("/r/d//a")
    ensures RemoteName("d", "/r", "d/d/a") == "/r/d/a"
    ensures Paths.Split("/r/d//a", Paths.Slash) == ["", "r", "d", "", "a"]
  {
    AsWrittenRepeated();
    IntendedRepeated();
    DoubledSeparatorSegments();
  }

  lemma AsWrittenRepeated()
    ensures RemoteNameAsWritten("d", "/r", "d/d/a") == Some("/r/d//a")
  {
    var parts := Paths.SplitAfter("d/d/a", "d");
    assert parts[1..] == ["/d", "/a"] by {
      SplitAfterRepeated();
      Tail3("d", "/d", "/a");
    }
    JoinWithTwo("/d", "/a", "/");
    RepeatedLiterals();
  }

  lemma JoinWithTwo(a: string, b: string, sep: string)
    ensures Paths.JoinWith([a, b], sep) == a + sep + b
  {
    assert [a, b][1..] == [b];
  }

  lemma RepeatedLiterals()
    ensures "/r" + ("/d" + "/" + "/a") == "/r/d//a"
  {
  }

  lemma IntendedRepeated()
    ensures RemoteName("d", "/r", "d/d/a") == "/r/d/a"
  {
    var s := "d/d/a";
    assert s[..1] == "d";
    assert s[1..] == "/d/a";
  }

  lemma SplitAfterRepeated()
    ensures Paths.SplitAfter("d/d/a", "d") == ["d", "/d", "/a"]
  {
    var s := "d/d/a";
    var s1 := s[1..];
    var s2 := s1[2..];
    assert s1 == "/d/a" && s2 == "/a";
    assert Paths.SplitAfter(s2, "d") == ["/a"] by {
      assert Paths.IndexOf(s2, "d") == -1 by {
        assert s2[..1][0] == '/';
        assert s2[1..] == "a";
        assert s2[1..][..1][0] == 'a';
        assert s2[1..][1..] == "";
      }
    }
    assert Paths.SplitAfter(s1, "d") == ["/d"] + ["/a"] by {
      assert Paths.IndexOf(s1, "d") == 1 by {
        assert s1[..1][0] == '/';
        assert s1[1..][..1] == "d";
      }
      assert s1[..2] == "/d";
      Paths.SplitAfterStep(s1, "d");
    }
    assert Paths.SplitAfter(s, "d") == ["d"] + (["/d"] + ["/a"]) by {
      assert Paths.IndexOf(s, "d") == 0 by { assert s[..1] == "d"; }
      assert s[..1] == "d";
      Paths.SplitAfterStep(s, "d");
    }
    Three("d", "/d", "/a");
  }

  lemma Three<T>(a: T, b: T, c: T)
    ensures [a] + ([b] + [c]) == [a, b, c]
  {
  }

  lemma Tail3<T>(a: T, b: T, c: T)
    ensures [a, b, c][1..] == [b, c]
  {
  }

  lemma Tail2<T>(a: T, b: T)
    ensures [a, b][1..] == [b]
  {
  }

  lemma DoubledSeparatorSegments()
    ensures Paths.Split("/r/d//a", Paths.Slash) == ["", "r", "d", "", "a"]
  {
    assert "/r/d//a" == "" + [Paths.Slash] + "r/d//a";
    assert "r/d//a" == "r" + [Paths.Slash] + "d//a";
    assert "d//a" == "d" + [Paths.Slash] + "/a";
    assert "/a" == "" + [Paths.Slash] + "a";
    Paths.SplitConcat("", "r/d//a", Paths.Slash);
    Paths.SplitConcat("r", "d//a", Paths.Slash);
    Paths.SplitConcat("d", "/a", Paths.Slash);
    Paths.SplitConcat("", "a", Paths.Slash);
    Paths.SplitNoSeparator("", Paths.Slash);
    Paths.SplitNoSeparator("r", Paths.Slash);
    Paths.SplitNoSeparator("d", Paths.Slash);
    Paths.SplitNoSeparator("a", Paths.Slash);
  }

  /** What the walk does with a local file that may already exist remotely. */
  datatype Action = Skip | Refuse(error: Error) | Replace | Create

  /**
   * The decision table of upload.go:96-128 and client/upload.go:82-109: no
   * node at the remote name means an upload; a folder there is refused; a
   * file with the same MD5 is skipped; a different one is overwritten only
   * when overwrite is set and refused otherwise.
   */
  function Decide(present: bool, isDir: bool, sameContent: bool, overwrite: bool): (r: Action)
    ensures r == Create <==> !present
    ensures r == Skip <==> present && !isDir && sameContent
    ensures r == Replace <==> present && !isDir && !sameContent && overwrite
    ensures r == Refuse(FileExistsAndIsFolder) <==> present && isDir
    ensures r == Refuse(FileExistsWithDifferentContents) <==> present && !isDir && !sameContent && !overwrite
  {
    if !present then Create
    else if isDir then Refuse(FileExistsAndIsFolder)
    else if sameContent then Skip
    else if !overwrite then Refuse(FileExistsWithDifferentContents)
    else Replace
  }

  /** The overwrite flag matters exactly for an existing file with different contents. */
  lemma OverwriteOnlyForDifferentFile(present: bool, isDir: bool, sameContent: bool)
    ensures Decide(present, isDir, sameContent, true) != Decide(present, isDir, sameContent, false) <==>
      present && !isDir && !sameContent
  {
  }

  /**
   * One entry of the walk (the function uploadFolderFunc returns):
   * folders are skipped, and so are files below a subfolder when the walk
   * is not recursive; otherwise the remote folder is created, the local
   * file opened, and the decision table applied. A failure to open is
   * OpenFile in the top-level package and the operating system's error in
   * the client package.
   */
  function UploadEntry(t: Tree, p: Package, localPath: string, remoteBase: string, recursive: bool, overwrite: bool,
                       e: Entry, server: Mutations.Server, k: nat): (r: Mutations.Effect<()>)
    requires Wf(t)
    ensures Wf(r.tree) && t.nodes.Keys <= r.tree.nodes.Keys
    ensures r.tree.indexed == t.indexed && r.tree.root == t.root
    ensures e.isDir ==> r == Mutations.Effect(Ok(()), t, k)
    ensures !recursive && localPath != Paths.Dir(e.fpath) ==> r == Mutations.Effect(Ok(()), t, k)
  {
    if e.isDir then Mutations.Effect(Ok(()), t, k)
    else if !recursive && localPath != Paths.Dir(e.fpath) then Mutations.Effect(Ok(()), t, k)
    else UploadFile(t, p, RemoteName(localPath, remoteBase, e.fpath), Paths.Base(e.fpath), e.file, overwrite, server, k)
  }

  /** The part of uploadFolderFunc for a file the walk keeps, under its remote name. */
  function UploadFile(t: Tree, p: Package, name: string, base: string, file: Opened, overwrite: bool,
                      server: Mutations.Server, k: nat): (r: Mutations.Effect<()>)
    requires Wf(t)
    ensures Wf(r.tree) && t.nodes.Keys <= r.tree.nodes.Keys
    ensures r.tree.indexed == t.indexed && r.tree.root == t.root
  {
    var m := Mkdir.MkdirAll(t, Paths.Dir(name), FinderOf(p), server, k);
    if m.result.Err? then Mutations.Effect(Err(m.result.error), m.tree, m.next)
    else match file
      case OpenFailed(notExist) =>
        Mutations.Effect(Err(if p.Acd? then OpenFile else OsError(notExist)), m.tree, m.next)
      case Contents(md5) => PlaceFile(m.tree, p, name, m.result.value, base, md5, overwrite, server, m.next)
  }

  /** The decision table applied in the remote folder, which exists. */
  function PlaceFile(t: Tree, p: Package, name: string, folder: ID, base: string, md5: string, overwrite: bool,
                     server: Mutations.Server, k: nat): (r: Mutations.Effect<()>)
    requires Wf(t) && folder in t.nodes
    ensures Wf(r.tree) && t.nodes.Keys <= r.tree.nodes.Keys
    ensures r.tree.indexed == t.indexed && r.tree.root == t.root
  {
    var found := Mkdir.Find(t, name, FinderOf(p));
    var existing := if found.Ok? then t.nodes[found.value] else EmptyNode;
    match Decide(found.Ok?, IsDir(existing), md5 == existing.content.md5, overwrite)
    case Skip => Mutations.Effect(Ok(()), t, k)
    case Refuse(err) => Mutations.Effect(Err(err), t, k)
    case Replace => Done(Mutations.Overwrite(t, found.value, server, k))
    case Create => Done(Mutations.Upload(t, folder, base, server, k))
  }

  /**
   * A file whose remote folder exists and whose remote name already holds
   * a file with the same MD5 is skipped without any call and without any
   * change.
   */
  lemma SameContentNoCall(t: Tree, p: Package, localPath: string, remoteBase: string, recursive: bool, overwrite: bool,
                          e: Entry, server: Mutations.Server, k: nat)
    requires Wf(t) && !e.isDir && (recursive || localPath == Paths.Dir(e.fpath)) && e.file.Contents?
    requires var name := RemoteName(localPath, remoteBase, e.fpath);
      var dir := Mkdir.Find(t, Paths.Dir(name), FinderOf(p));
      var found := Mkdir.Find(t, name, FinderOf(p));
      && dir.Ok? && IsDir(t.nodes[dir.value])
      && found.Ok? && !IsDir(t.nodes[found.value]) && t.nodes[found.value].content.md5 == e.file.md5
    ensures UploadEntry(t, p, localPath, remoteBase, recursive, overwrite, e, server, k) == Mutations.Effect(Ok(()), t, k)
  {
  }

  /**
   * An existing file with other contents: with overwrite off it is
   * refused with no call beyond the folder lookup; with overwrite on its
   * node is overwritten in place and the tree gains no node.
   */
  lemma DifferentContent(t: Tree, p: Package, localPath: string, remoteBase: string, recursive: bool,
                         e: Entry, server: Mutations.Server, k: nat)
    requires Wf(t) && !e.isDir && (recursive || localPath == Paths.Dir(e.fpath)) && e.file.Contents?
    requires var name := RemoteName(localPath, remoteBase, e.fpath);
      var dir := Mkdir.Find(t, Paths.Dir(name), FinderOf(p));
      var found := Mkdir.Find(t, name, FinderOf(p));
      && dir.Ok? && IsDir(t.nodes[dir.value])
      && found.Ok? && !IsDir(t.nodes[found.value]) && t.nodes[found.value].content.md5 != e.file.md5
    ensures UploadEntry(t, p, localPath, remoteBase, recursive, false, e, server, k) ==
      Mutations.Effect(Err(FileExistsWithDifferentContents), t, k)
    ensures var r := UploadEntry(t, p, localPath, remoteBase, recursive, true, e, server, k);
      && r.tree.nodes.Keys == t.nodes.Keys && r.next == k + 1
      && r == Done(Mutations.Overwrite(t, Mkdir.Find(t, RemoteName(localPath, remoteBase, e.fpath), FinderOf(p)).value, server, k))
  {
    var name := RemoteName(localPath, remoteBase, e.fpath);
    var found := Mkdir.Find(t, name, FinderOf(p));
    assert Mkdir.MkdirAll(t, Paths.Dir(name), FinderOf(p), server, k).tree == t;
    assert Decide(true, false, false, false) == Refuse(FileExistsWithDifferentContents);
    assert Decide(true, false, false, true) == Replace;
    assert e.file.md5 != t.nodes[found.value].content.md5;
  }

  /**
   * UploadFolder (upload.go:50-57, client/upload.go:41-49): the entries
   * of the walk in turn, the first error ending the walk.
   */
  function UploadFolder(t: Tree, p: Package, localPath: string, remoteBase: string, recursive: bool, overwrite: bool,
                        entries: seq<Entry>, server: Mutations.Server, k: nat): (r: Mutations.Effect<()>)
    requires Wf(t)
    ensures Wf(r.tree) && t.nodes.Keys <= r.tree.nodes.Keys
    ensures r.tree.indexed == t.indexed && r.tree.root == t.root
    ensures (forall i :: 0 <= i < |entries| ==> entries[i].isDir) ==> r == Mutations.Effect(Ok(()), t, k)
    decreases |entries|
  {
    if |entries| == 0 then Mutations.Effect(Ok(()), t, k)
    else
      var s := UploadEntry(t, p, localPath, remoteBase, recursive, overwrite, entries[0], server, k);
      if s.result.Err? then s
      else UploadFolder(s.tree, p, localPath, remoteBase, recursive, overwrite, entries[1..], server, s.next)
  }

  /** An entry that fails ends the walk: what comes after it is never visited. */
  lemma {:induction false} UploadFolderStops(t: Tree, p: Package, localPath: string, remoteBase: string, recursive: bool,
                                             overwrite: bool, a: seq<Entry>, b: seq<Entry>, server: Mutations.Server, k: nat)
    requires Wf(t) && UploadFolder(t, p, localPath, remoteBase, recursive, overwrite, a, server, k).result.Err?
    ensures UploadFolder(t, p, localPath, remoteBase, recursive, overwrite, a + b, server, k) ==
      UploadFolder(t, p, localPath, remoteBase, recursive, overwrite, a, server, k)
    decreases |a|
  {
    assert |a| > 0;
    ConsAppend(a, b);
    var s := UploadEntry(t, p, localPath, remoteBase, recursive, overwrite, a[0], server, k);
    if s.result.Ok? {
      UploadFolderStops(s.tree, p, localPath, remoteBase, recursive, overwrite, a[1..], b, server, s.next);
    }
  }

  lemma ConsAppend<T>(a: seq<T>, b: seq<T>)
    requires |a| > 0
    ensures (a + b)[0] == a[0] && (a + b)[1..] == a[1..] + b
  {
  }
}

/**
 * The fixture tree Mocked of client/nodetree/mock.go: a root folder "/"
 * holding the file README.md and the folder pictures, which holds
 * logo.png. IDs are the nodes' full paths. The creation, modification and
 * content dates (time.Now in the fixture) are the zero time here.
 */
module Mock {
  import opened Errors
  import opened Nodes
  import opened Trees
  import Paths
  import Client
  import Mkdir

  const RootID: ID := "/"
  const ReadmeID: ID := "/README.md"
  const PicturesID: ID := "/pictures"
  const LogoID: ID := "/pictures/logo.png"

  const Author := "CloudDriveFiles"

  const RootNode := Node(RootID, "", KindFolder, [], StatusAvailable, [], Author, 0, 0, 1, "",
    EmptyContent, [ReadmeID, PicturesID], true)

  const ReadmeNode := Node(ReadmeID, "README.md", KindFile, [RootID], StatusAvailable, [], Author, 0, 0, 1, "",
    ContentProperties(1, "md", 740, "11c8fac0d43831697251fd0b869e77d7", "text/plain", 0), [], false)

  const PicturesNode := Node(PicturesID, "pictures", KindFolder, [RootID], StatusAvailable, [], Author, 0, 0, 1, "",
    EmptyContent, [LogoID], false)

  const LogoNode := Node(LogoID, "logo.png", KindFile, [PicturesID], StatusAvailable, [], Author, 0, 0, 1, "",
    ContentProperties(1, "png", 18750, "c2c88b2bc3574122210c9f0cb45b0593", "image/png", 0), [], false)

  /** The tree with its index holding all four nodes. */
  const Mocked := Tree(
    map[RootID := RootNode, ReadmeID := ReadmeNode, PicturesID := PicturesNode, LogoID := LogoNode],
    {RootID, ReadmeID, PicturesID, LogoID},
    RootID,
    "")

  /** The root: ID "/", no name, a folder with no parents, marked as the root. */
  lemma MockedRoot()
    ensures Wf(Mocked)
    ensures var r := Mocked.nodes[Mocked.root];
      r.id == "/" && r.name == "" && IsDir(r) && r.parents == [] && r.root
    ensures forall id :: id in Mocked.nodes && id != Mocked.root ==> !Mocked.nodes[id].root
  {
  }

  /** Each node is stored under its own ID, and every child lists exactly the node holding it as its parent. */
  lemma MockedParents()
    ensures forall id :: id in Mocked.nodes ==> Mocked.nodes[id].id == id
    ensures forall p, c :: p in Mocked.nodes && c in Mocked.nodes[p].children ==>
      c in Mocked.nodes && Mocked.nodes[c].parents == [p]
  {
    forall p, c | p in Mocked.nodes && c in Mocked.nodes[p].children
      ensures c in Mocked.nodes && Mocked.nodes[c].parents == [p]
    {
      assert p == RootID || p == ReadmeID || p == PicturesID || p == LogoID;
    }
  }

  /** The hand-written index is the one buildNodeMap computes: the nodes reachable from the root. */
  lemma MockedIndexReachable()
    ensures BuildNodeMap(Mocked).indexed == Mocked.indexed
  {
    IndexedHaveRecords();
    FourReachable();
  }

  lemma IndexedHaveRecords()
    ensures BuildNodeMap(Mocked).indexed <= Mocked.indexed
  {
    forall id | id in BuildNodeMap(Mocked).indexed
      ensures id in Mocked.indexed
    {
      ReachableHasRecord(Mocked, id);
    }
  }

  lemma ReachableHasRecord(t: Tree, id: ID)
    requires Reachable(t, id)
    ensures id in t.nodes
  {
    var path :| IsPath(t, path) && path[|path| - 1] == id;
  }

  lemma FourReachable()
    ensures Reachable(Mocked, RootID) && Reachable(Mocked, ReadmeID)
    ensures Reachable(Mocked, PicturesID) && Reachable(Mocked, LogoID)
  {
    assert IsPath(Mocked, [RootID]);
    assert IsPath(Mocked, [RootID, ReadmeID]);
    assert IsPath(Mocked, [RootID, PicturesID]);
    assert IsPath(Mocked, [RootID, PicturesID, LogoID]);
  }

  /** FindByID resolves each of the four IDs to the node carrying it. */
  lemma MockedFindByID(id: ID)
    requires id in {RootID, ReadmeID, PicturesID, LogoID}
    ensures Wf(Mocked) && FindByID(Mocked, id).Ok? && FindByID(Mocked, id).value.id == id
  {
  }

  lemma SplitReadme()
    ensures Paths.Split("README.md", Paths.Slash) == ["README.md"]
  {
    Paths.SplitNoSeparator("README.md", Paths.Slash);
  }

  lemma SplitPictures()
    ensures Paths.Split("pictures", Paths.Slash) == ["pictures"]
  {
    Paths.SplitNoSeparator("pictures", Paths.Slash);
  }

  lemma SplitTwo(a: string, b: string)
    requires Paths.Slash !in a && Paths.Slash !in b
    ensures Paths.Split(a + [Paths.Slash] + b, Paths.Slash) == [a, b]
  {
    Paths.SplitConcat(a, b, Paths.Slash);
    Paths.SplitNoSeparator(a, Paths.Slash);
    Paths.SplitNoSeparator(b, Paths.Slash);
  }

  lemma SplitLogo()
    ensures Paths.Split("pictures/logo.png", Paths.Slash) == ["pictures", "logo.png"]
  {
    var s := "pictures/logo.png";
    assert s == "pictures" + [Paths.Slash] + "logo.png";
    SplitTwo("pictures", "logo.png");
  }

  /** The exact lookup of the client package resolves each ID, read as a path, to that node. */
  lemma MockedFindExact()
    ensures Wf(Mocked)
    ensures FindNodeExact(Mocked, "/") == Ok(RootID)
    ensures FindNodeExact(Mocked, "/README.md") == Ok(ReadmeID)
    ensures FindNodeExact(Mocked, "/pictures") == Ok(PicturesID)
    ensures FindNodeExact(Mocked, "/pictures/logo.png") == Ok(LogoID)
  {
    assert Paths.TrimSlash("/") == "";
    ExactReadme();
    ExactPictures();
    ExactLogo();
  }

  /** The root's children, and the first of them each name matches. */
  lemma RootMatches(fold: bool)
    ensures RootID in Mocked.nodes && Mocked.nodes[RootID].children == [ReadmeID, PicturesID]
    ensures FirstMatch(Mocked, [ReadmeID, PicturesID], "README.md", fold) == Some(ReadmeID)
    ensures FirstMatch(Mocked, [ReadmeID, PicturesID], "pictures", fold) == Some(PicturesID)
  {
    assert Matches("README.md", "README.md", fold);
    assert Matches("pictures", "pictures", fold);
    assert !Matches("README.md", "pictures", fold) by {
      assert "README.md"[0] != "pictures"[0];
      assert Paths.Lower("README.md")[0] == 'r';
    }
    assert [ReadmeID, PicturesID][1..] == [PicturesID];
  }

  lemma PicturesMatches(fold: bool)
    ensures PicturesID in Mocked.nodes && Mocked.nodes[PicturesID].children == [LogoID]
    ensures FirstMatch(Mocked, [LogoID], "logo.png", fold) == Some(LogoID)
  {
    assert Matches("logo.png", "logo.png", fold);
  }

  lemma WalkReadme(fold: bool)
    ensures Walk(Mocked, RootID, ["README.md"], fold) == Ok(ReadmeID)
  {
    RootMatches(fold);
    assert ["README.md"][1..] == [];
  }

  lemma WalkPictures(fold: bool)
    ensures Walk(Mocked, RootID, ["pictures"], fold) == Ok(PicturesID)
  {
    RootMatches(fold);
    assert ["pictures"][1..] == [];
  }

  lemma WalkLogo(fold: bool)
    ensures Walk(Mocked, RootID, ["pictures", "logo.png"], fold) == Ok(LogoID)
  {
    WalkPictures(fold);
    PicturesMatches(fold);
    WalkAppend(Mocked, RootID, ["pictures"], ["logo.png"], fold);
    assert ["pictures"] + ["logo.png"] == ["pictures", "logo.png"];
    assert ["logo.png"][1..] == [];
  }

  lemma ExactReadme()
    ensures FindNodeExact(Mocked, "/README.md") == Ok(ReadmeID)
  {
    assert Paths.TrimSlash("/README.md") == "README.md";
    SplitReadme();
    WalkReadme(false);
  }

  lemma ExactPictures()
    ensures FindNodeExact(Mocked, "/pictures") == Ok(PicturesID)
  {
    assert Paths.TrimSlash("/pictures") == "pictures";
    SplitPictures();
    WalkPictures(false);
  }

  lemma ExactLogo()
    ensures FindNodeExact(Mocked, "/pictures/logo.png") == Ok(LogoID)
  {
    assert Paths.TrimSlash("/pictures/logo.png") == "pictures/logo.png";
    SplitLogo();
    WalkLogo(false);
  }

  /** Listing the root gives README.md then pictures; listing pictures gives logo.png. */
  lemma MockedList(p: Client.Package)
    ensures Wf(Mocked)
    ensures var r := Client.List(Mocked, "/", p);
      r.Ok? && |r.value| == 2 && (forall c :: c in r.value ==> c in Mocked.nodes)
      && Mocked.nodes[r.value[0]].name == "README.md" && Mocked.nodes[r.value[1]].name == "pictures"
    ensures var r := Client.List(Mocked, "/pictures", p);
      r.Ok? && |r.value| == 1 && r.value[0] in Mocked.nodes && Mocked.nodes[r.value[0]].name == "logo.png"
  {
    ListRoot(p);
    ListPictures(p);
    Names();
  }

  lemma Names()
    ensures ReadmeID in Mocked.nodes && Mocked.nodes[ReadmeID].name == "README.md"
    ensures PicturesID in Mocked.nodes && Mocked.nodes[PicturesID].name == "pictures"
    ensures LogoID in Mocked.nodes && Mocked.nodes[LogoID].name == "logo.png"
  {
  }

  lemma ListRoot(p: Client.Package)
    ensures Wf(Mocked) && Client.List(Mocked, "/", p) == Ok([ReadmeID, PicturesID])
  {
    FindsRoot(Client.FinderOf(p));
  }

  lemma ListPictures(p: Client.Package)
    ensures Wf(Mocked) && Client.List(Mocked, "/pictures", p) == Ok([LogoID])
  {
    FindsPictures(Client.FinderOf(p));
  }

  lemma FindsRoot(f: Mkdir.Finder)
    ensures Wf(Mocked) && Mkdir.Find(Mocked, "/", f) == Ok(RootID)
  {
    if f.Folding? {
      FoldedRoot();
    } else {
      MockedFindExact();
    }
  }

  lemma FindsPictures(f: Mkdir.Finder)
    ensures Wf(Mocked) && Mkdir.Find(Mocked, "/pictures", f) == Ok(PicturesID)
  {
    if f.Folding? {
      FoldedPictures();
    } else {
      ExactPictures();
    }
  }

  /** A path without doubled separators is left as it is by the rewrite the folding lookup starts with. */
  lemma TrimmedPlain(path: string)
    requires Paths.NoDoubleSlash(path)
    ensures Paths.TrimSlash(Paths.Collapse(path)) == Paths.TrimSlash(path)
  {
    Paths.CollapseIdentity(path);
  }

  lemma FoldedRoot()
    ensures FindNode(Mocked, "/") == Ok(RootID)
  {
    FindNodeRoot(Mocked, "/");
  }

  lemma FoldedReadme()
    ensures FindNode(Mocked, "/README.md") == Ok(ReadmeID)
  {
    assert Paths.TrimSlash(Paths.Collapse("/README.md")) == "README.md" by {
      TrimmedPlain("/README.md");
      assert Paths.TrimSlash("/README.md") == "README.md";
    }
    assert Paths.Split("README.md", Paths.Slash) == ["README.md"] by { SplitReadme(); }
    assert Walk(Mocked, RootID, ["README.md"], true) == Ok(ReadmeID) by { WalkReadme(true); }
  }

  lemma FoldedPictures()
    ensures FindNode(Mocked, "/pictures") == Ok(PicturesID)
  {
    assert Paths.TrimSlash(Paths.Collapse("/pictures")) == "pictures" by {
      TrimmedPlain("/pictures");
      assert Paths.TrimSlash("/pictures") == "pictures";
    }
    assert Paths.Split("pictures", Paths.Slash) == ["pictures"] by { SplitPictures(); }
    assert Walk(Mocked, RootID, ["pictures"], true) == Ok(PicturesID) by { WalkPictures(true); }
  }

  lemma FoldedLogo()
    ensures FindNode(Mocked, "/pictures/logo.png") == Ok(LogoID)
  {
    assert Paths.TrimSlash(Paths.Collapse("/pictures/logo.png")) == "pictures/logo.png" by {
      TrimmedPlain("/pictures/logo.png");
      assert Paths.TrimSlash("/pictures/logo.png") == "pictures/logo.png";
    }
    assert Paths.Split("pictures/logo.png", Paths.Slash) == ["pictures", "logo.png"] by { SplitLogo(); }
    assert Walk(Mocked, RootID, ["pictures", "logo.png"], true) == Ok(LogoID) by { WalkLogo(true); }
  }

  lemma LowerReadme()
    ensures Paths.Lower("/rEaDme.MD") == Paths.Lower("/README.md")
    ensures Paths.Lower("/REadmE.Md") == Paths.Lower("/README.md")
  {
    var a, a', b := "/rEaDme.MD", "/REadmE.Md", "/README.md";
    forall i | 0 <= i < 10
      ensures Paths.LowerChar(a[i]) == Paths.LowerChar(b[i]) && Paths.LowerChar(a'[i]) == Paths.LowerChar(b[i])
    {
      if i == 0 {} else if i == 1 {} else if i == 2 {} else if i == 3 {} else if i == 4 {}
      else if i == 5 {} else if i == 6 {} else if i == 7 {} else if i == 8 {} else {}
    }
  }

  lemma LowerLogo()
    ensures Paths.Lower("/pictures/loGO.png") == Paths.Lower("/pictures/logo.png")
  {
    var a, b := "/pictures/loGO.png", "/pictures/logo.png";
    assert a[..12] == b[..12] && a[14..] == b[14..];
    forall i | 0 <= i < 18 ensures Paths.LowerChar(a[i]) == Paths.LowerChar(b[i]) {
      if i < 12 { assert a[i] == a[..12][i]; }
      else if i == 12 {} else if i == 13 {}
      else { assert a[i] == a[14..][i - 14]; }
    }
  }

  /** Two paths equal up to ASCII case resolve alike under the folding lookup. */
  lemma SameFolded(a: string, b: string)
    requires Paths.Lower(a) == Paths.Lower(b)
    ensures Wf(Mocked) && FindNode(Mocked, a) == FindNode(Mocked, b)
  {
    FindNodeIgnoresCase(Mocked, a);
    FindNodeIgnoresCase(Mocked, b);
  }

  /**
   * The folding lookup of the top-level package ignores case and runs of
   * separators: each query of node/find_test.go resolves to its node.
   */
  lemma MockedFindFolding()
    ensures Wf(Mocked)
    ensures FindNode(Mocked, "/") == Ok(RootID)
    ensures FindNode(Mocked, "/README.md") == Ok(ReadmeID)
    ensures FindNode(Mocked, "/rEaDme.MD") == Ok(ReadmeID)
    ensures FindNode(Mocked, "//rEaDme.MD") == Ok(ReadmeID)
    ensures FindNode(Mocked, "///REadmE.Md") == Ok(ReadmeID)
    ensures FindNode(Mocked, "/pictuREs") == Ok(PicturesID)
    ensures FindNode(Mocked, "/pictures/loGO.png") == Ok(LogoID)
    ensures FindNode(Mocked, "/pictures//loGO.png") == Ok(LogoID)
  {
    FoldedRoot();
    FoldedReadme();
    FoldedCaseReadme();
    FoldedSlashesReadme();
    FoldedCasePictures();
    FoldedCaseLogo();
    FoldedSlashesLogo();
  }

  lemma FoldedCaseReadme()
    ensures FindNode(Mocked, "/rEaDme.MD") == Ok(ReadmeID)
  {
    FoldedReadme();
    LowerReadme();
    SameFolded("/rEaDme.MD", "/README.md");
  }

  lemma FoldedSlashesReadme()
    ensures FindNode(Mocked, "//rEaDme.MD") == Ok(ReadmeID)
    ensures FindNode(Mocked, "///REadmE.Md") == Ok(ReadmeID)
  {
    FoldedDoubleReadme();
    FoldedTripleReadme();
  }

  lemma FoldedDoubleReadme()
    ensures FindNode(Mocked, "//rEaDme.MD") == Ok(ReadmeID)
  {
    FoldedCaseReadme();
    FindNodeDoubleSlash(Mocked, "", "rEaDme.MD");
    ReadmeSlashes();
  }

  lemma FoldedOtherCaseReadme()
    ensures FindNode(Mocked, "/REadmE.Md") == Ok(ReadmeID)
  {
    FoldedReadme();
    LowerReadme();
    SameFolded("/REadmE.Md", "/README.md");
  }

  lemma FoldedTripleReadme()
    ensures FindNode(Mocked, "///REadmE.Md") == Ok(ReadmeID)
  {
    FoldedOtherCaseReadme();
    FindNodeDoubleSlash(Mocked, "", "/REadmE.Md");
    FindNodeDoubleSlash(Mocked, "", "REadmE.Md");
    ReadmeSlashes();
  }

  lemma ReadmeSlashes()
    ensures "" + "//" + "rEaDme.MD" == "//rEaDme.MD"
    ensures "" + "/" + "rEaDme.MD" == "/rEaDme.MD"
    ensures "" + "//" + "/REadmE.Md" == "///REadmE.Md"
    ensures "" + "/" + "/REadmE.Md" == "//REadmE.Md"
    ensures "" + "//" + "REadmE.Md" == "//REadmE.Md"
    ensures "" + "/" + "REadmE.Md" == "/REadmE.Md"
  {
  }

  lemma FoldedCasePictures()
    ensures FindNode(Mocked, "/pictuREs") == Ok(PicturesID)
  {
    FoldedPictures();
    LowerPictures();
    SameFolded("/pictuREs", "/pictures");
  }

  lemma LowerPictures()
    ensures Paths.Lower("/pictuREs") == Paths.Lower("/pictures")
  {
    var a, b := "/pictuREs", "/pictures";
    assert a[..6] == b[..6] && a[8..] == b[8..];
    forall i | 0 <= i < 9 ensures Paths.LowerChar(a[i]) == Paths.LowerChar(b[i]) {
      if i < 6 { assert a[i] == a[..6][i]; }
      else if i == 6 {} else if i == 7 {}
      else { assert a[i] == a[8..][i - 8]; }
    }
  }

  lemma FoldedCaseLogo()
    ensures FindNode(Mocked, "/pictures/loGO.png") == Ok(LogoID)
  {
    FoldedLogo();
    LowerLogo();
    SameFolded("/pictures/loGO.png", "/pictures/logo.png");
  }

  lemma FoldedSlashesLogo()
    ensures FindNode(Mocked, "/pictures//loGO.png") == Ok(LogoID)
  {
    FoldedCaseLogo();
    FindNodeDoubleSlash(Mocked, "/pictures", "loGO.png");
    LogoSlashes();
  }

  lemma LogoSlashes()
    ensures "/pictures" + "//" + "loGO.png" == "/pictures//loGO.png"
    ensures "/pictures" + "/" + "loGO.png" == "/pictures/loGO.png"
  {
  }
}

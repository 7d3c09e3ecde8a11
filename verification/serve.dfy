/** `get_video`: resolve the requested name inside the download folder to an
    absolute path, refuse it unless it lies under the folder's absolute path,
    and serve it if it exists.  The working directory and the set of existing
    paths are parameters. */
module Serve {
  import opened Replies
  import Paths

  /** `os.path.abspath(DOWNLOAD_FOLDER)`. */
  function FolderPath(cwd: string): string {
    Paths.Abspath(cwd, Folder)
  }

  /** `os.path.abspath(os.path.join(DOWNLOAD_FOLDER, file_name))`. */
  function ServedPath(cwd: string, fileName: string): string {
    Paths.Abspath(cwd, Paths.Join(Folder, fileName))
  }

  /** The route as written: containment is a string-prefix test, decided before
      existence; a file that passes both is sent under the requested name. */
  function GetVideo(cwd: string, fileName: string, existing: set<string>): (r: Reply)
    ensures r == Error(403, InvalidPath) <==> !Paths.StartsWith(ServedPath(cwd, fileName), FolderPath(cwd))
    ensures r == Error(404, FileNotFound) <==>
      Paths.StartsWith(ServedPath(cwd, fileName), FolderPath(cwd)) && ServedPath(cwd, fileName) !in existing
    ensures Paths.StartsWith(ServedPath(cwd, fileName), FolderPath(cwd)) && ServedPath(cwd, fileName) in existing ==>
      r == SendFile(ServedPath(cwd, fileName), fileName)
    ensures r.SendFile? ==> r.path == ServedPath(cwd, fileName) && Paths.StartsWith(r.path, FolderPath(cwd))
    ensures r.SendFile? ==> r.path in existing && r.downloadName == fileName
  {
    var path := ServedPath(cwd, fileName);
    if !Paths.StartsWith(path, FolderPath(cwd)) then Error(403, InvalidPath)
    else if path !in existing then Error(404, FileNotFound)
    else SendFile(path, fileName)
  }

  // ---------------------------------------------------------------------------
  // Names as the route receives them: no separator

  lemma FolderIsNormal()
    ensures Paths.IsNormalPiece(Folder)
  {
  }

  /** The absolute path of a folder `dir` below the working directory: the
      working directory's pieces, then `dir`. */
  lemma ChildPieces(cwd: string, dir: string)
    requires Paths.IsAbs(cwd) && Paths.IsNormalPiece(dir)
    ensures Paths.Abspath(cwd, dir) ==
      Paths.Slashes(Paths.InitialSlashes(cwd)) + Paths.JoinSep(Paths.NormalPieces(cwd) + [dir])
  {
    Paths.JoinRelativePieces(cwd, dir);
    Paths.SplitNoSep(dir);
    Paths.AbsolutePiecesNormal(cwd);
  }

  /** The absolute path of a separator-free name inside `dir`: one more step of
      `normpath`'s loop after `dir`. */
  lemma GrandchildPieces(cwd: string, dir: string, name: string)
    requires Paths.IsAbs(cwd) && Paths.IsNormalPiece(dir) && Paths.NoSep(name)
    ensures Paths.Abspath(cwd, Paths.Join(dir, name)) == Paths.Slashes(Paths.InitialSlashes(cwd)) +
      Paths.JoinSep(Paths.NormStep(Paths.NormalPieces(cwd) + [dir], name, true))
  {
    var rel := dir + "/" + name;
    assert Paths.Join(dir, name) == rel;
    Paths.SplitTwo(dir, name);
    Paths.AbspathRelative(cwd, rel);
    Paths.NormCompsTwo(Paths.NormalPieces(cwd), dir, name, true);
  }

  lemma JoinSepLonger(pieces: seq<string>, last: string)
    requires last != []
    ensures |Paths.JoinSep(pieces)| < |Paths.JoinSep(pieces + [last])|
  {
    if pieces != [] {
      Paths.JoinSepSnoc(pieces, last);
    }
  }

  /** `..` resolves to the working directory, shorter than the folder. */
  lemma ParentRefused(cwd: string, dir: string)
    requires Paths.IsAbs(cwd) && Paths.IsNormalPiece(dir)
    ensures |Paths.Abspath(cwd, Paths.Join(dir, ".."))| < |Paths.Abspath(cwd, dir)|
  {
    ChildPieces(cwd, dir);
    GrandchildPieces(cwd, dir, "..");
    var pieces := Paths.NormalPieces(cwd);
    assert Paths.NormStep(pieces + [dir], "..", true) == pieces;
    JoinSepLonger(pieces, dir);
  }

  /** `""` and `.` resolve to the folder itself. */
  lemma SelfAccepted(cwd: string, dir: string, name: string)
    requires Paths.IsAbs(cwd) && Paths.IsNormalPiece(dir)
    requires name == "" || name == "."
    ensures Paths.Abspath(cwd, Paths.Join(dir, name)) == Paths.Abspath(cwd, dir)
  {
    ChildPieces(cwd, dir);
    GrandchildPieces(cwd, dir, name);
  }

  /** Any other separator-free name resolves to the folder, a separator and the name. */
  lemma ChildAccepted(cwd: string, dir: string, name: string)
    requires Paths.IsAbs(cwd) && Paths.IsNormalPiece(dir) && Paths.IsNormalPiece(name)
    ensures Paths.Abspath(cwd, Paths.Join(dir, name)) == Paths.Abspath(cwd, dir) + "/" + name
  {
    ChildPieces(cwd, dir);
    GrandchildPieces(cwd, dir, name);
    var inFolder := Paths.NormalPieces(cwd) + [dir];
    assert Paths.NormStep(inFolder, name, true) == inFolder + [name];
    ChildShape(Paths.Abspath(cwd, Paths.Join(dir, name)), Paths.Abspath(cwd, dir),
      Paths.Slashes(Paths.InitialSlashes(cwd)), inFolder, name);
  }

  /** A path whose pieces are another's plus one more is that path, a separator and the piece. */
  lemma ChildShape(child: string, parent: string, lead: string, pieces: seq<string>, name: string)
    requires pieces != []
    requires parent == lead + Paths.JoinSep(pieces)
    requires child == lead + Paths.JoinSep(pieces + [name])
    ensures child == parent + "/" + name
  {
    Paths.JoinSepSnoc(pieces, name);
    assert lead + (Paths.JoinSep(pieces) + "/" + name) == lead + Paths.JoinSep(pieces) + "/" + name;
  }

  lemma StartsWithExtension(s: string, t: string)
    ensures Paths.StartsWith(s + t, s)
  {
    assert (s + t)[..|s|] == s;
  }

  /** Where a separator-free name resolves, against an absolute working
      directory: `..` to something shorter than the folder, `""` and `.` to the
      folder itself, any other name to the folder, a separator and the name. */
  lemma PlainNameResolves(cwd: string, name: string)
    requires Paths.IsAbs(cwd) && Paths.NoSep(name)
    ensures name == ".." ==> |ServedPath(cwd, name)| < |FolderPath(cwd)|
    ensures name == "" || name == "." ==> ServedPath(cwd, name) == FolderPath(cwd)
    ensures name != "" && name != "." && name != ".." ==>
      ServedPath(cwd, name) == FolderPath(cwd) + "/" + name
  {
    FolderIsNormal();
    if name == ".." {
      ParentRefused(cwd, Folder);
    } else if name == "" || name == "." {
      SelfAccepted(cwd, Folder, name);
    } else {
      ChildAccepted(cwd, Folder, name);
    }
  }

  /** How the prefix test comes out once the resolved path is known in terms of
      the folder's: shorter fails, the folder itself or the folder, a separator
      and more passes. */
  lemma PrefixByShape(path: string, folder: string, name: string)
    requires name == ".." ==> |path| < |folder|
    requires name == "" || name == "." ==> path == folder
    requires name != "" && name != "." && name != ".." ==> path == folder + "/" + name
    ensures Paths.StartsWith(path, folder) <==> name != ".."
  {
    if name != ".." {
      assert path[..|folder|] == folder;
    }
  }

  /** For a separator-free name and a working directory that is absolute, as
      `os.getcwd()` is: the route refuses exactly `..`.  Every other name is
      served from the folder itself (`""` and `.` name the folder), or from
      the folder's path followed by a separator and the name. */
  lemma GetVideoRefusesOnlyParent(cwd: string, name: string, existing: set<string>)
    requires Paths.IsAbs(cwd) && Paths.NoSep(name)
    ensures GetVideo(cwd, name, existing) == Error(403, InvalidPath) <==> name == ".."
    ensures name == "" || name == "." ==> ServedPath(cwd, name) == FolderPath(cwd)
    ensures name != "" && name != "." && name != ".." ==>
      ServedPath(cwd, name) == FolderPath(cwd) + "/" + name
  {
    PlainNameResolves(cwd, name);
    PrefixByShape(ServedPath(cwd, name), FolderPath(cwd), name);
  }

  // ---------------------------------------------------------------------------
  // Finding: a string prefix is not a directory prefix

  /** Climbing out of `dir` into a sibling named `dir + suffix`: the resolved
      pieces are the working directory's, then the sibling. */
  lemma SiblingPieces(cwd: string, dir: string, sibling: string)
    requires Paths.IsAbs(cwd) && Paths.IsNormalPiece(dir) && Paths.IsNormalPiece(sibling)
    ensures Paths.Abspath(cwd, Paths.Join(dir, ".." + "/" + sibling)) ==
      Paths.Slashes(Paths.InitialSlashes(cwd)) + Paths.JoinSep(Paths.NormalPieces(cwd) + [sibling])
  {
    var rel := dir + "/" + (".." + "/" + sibling);
    assert Paths.Join(dir, ".." + "/" + sibling) == rel;
    SiblingSplit(dir, sibling);
    Paths.AbspathRelative(cwd, rel);
    SiblingFold(Paths.NormalPieces(cwd), dir, sibling);
  }

  lemma SiblingSplit(dir: string, sibling: string)
    requires Paths.NoSep(dir) && Paths.NoSep(sibling)
    ensures Paths.SplitSep(dir + "/" + (".." + "/" + sibling)) == [dir, "..", sibling]
  {
    var up := "..";
    Paths.SplitSepConcat(dir, up + "/" + sibling);
    Paths.SplitNoSep(dir);
    Paths.SplitTwo(up, sibling);
  }

  lemma SiblingFold(pieces: seq<string>, dir: string, sibling: string)
    requires Paths.IsNormalPiece(dir) && Paths.IsNormalPiece(sibling)
    ensures Paths.NormComps(pieces, [dir, "..", sibling], true) == pieces + [sibling]
  {
    var up := "..";
    assert [dir, up, sibling] == [dir] + [up, sibling];
    Paths.NormCompsCons(pieces, dir, [up, sibling], true);
    Paths.NormCompsTwo(pieces + [dir], up, sibling, true);
    assert Paths.NormStep(pieces, dir, true) == pieces + [dir];
    assert Paths.NormStep(pieces + [dir], up, true) == pieces;
  }

  /** The folder's absolute path followed by a suffix, as pieces: the last piece extended. */
  lemma FolderPathExtended(cwd: string, dir: string, suffix: string)
    requires Paths.IsAbs(cwd) && Paths.IsNormalPiece(dir)
    ensures Paths.Abspath(cwd, dir) + suffix ==
      Paths.Slashes(Paths.InitialSlashes(cwd)) + Paths.JoinSep(Paths.NormalPieces(cwd) + [dir + suffix])
  {
    var slashes := Paths.Slashes(Paths.InitialSlashes(cwd));
    var pieces := Paths.NormalPieces(cwd);
    var joined := Paths.JoinSep(pieces + [dir]);
    ChildPieces(cwd, dir);
    JoinSepExtendLast(pieces, dir, suffix);
    AppendToTail(Paths.Abspath(cwd, dir), slashes, joined, suffix);
  }

  lemma AppendToTail(whole: string, head: string, tail: string, suffix: string)
    requires whole == head + tail
    ensures whole + suffix == head + (tail + suffix)
  {
  }

  /** Extending the last piece extends the joined string. */
  lemma JoinSepExtendLast(pieces: seq<string>, last: string, suffix: string)
    ensures Paths.JoinSep(pieces + [last + suffix]) == Paths.JoinSep(pieces + [last]) + suffix
  {
    if pieces != [] {
      Paths.JoinSepSnoc(pieces, last + suffix);
      Paths.JoinSepSnoc(pieces, last);
    } else {
      assert pieces + [last + suffix] == [last + suffix];
      assert pieces + [last] == [last];
    }
  }

  /** As written, a name that climbs out of the folder into a sibling whose name
      starts with the folder's passes the prefix test: `../downloads2` resolves
      next to the folder, to the folder's path followed by `2`, and is not refused. */
  lemma SiblingFolderPasses(cwd: string, existing: set<string>)
    requires Paths.IsAbs(cwd)
    ensures ServedPath(cwd, "../downloads2") == FolderPath(cwd) + "2"
    ensures GetVideo(cwd, "../downloads2", existing) != Error(403, InvalidPath)
  {
    FolderIsNormal();
    assert Paths.IsNormalPiece(Folder + "2");
    assert ".." + "/" + (Folder + "2") == "../downloads2";
    SiblingPieces(cwd, Folder, Folder + "2");
    FolderPathExtended(cwd, Folder, "2");
    StartsWithExtension(FolderPath(cwd), "2");
  }

  /** `path` is the folder itself or lies under it after a separator. */
  predicate InsideFolder(path: string, folder: string) {
    path == folder || Paths.StartsWith(path, folder + "/")
  }

  /** The route with the containment test the comment in the source asks for:
      the served path must be the folder or continue it after a separator. */
  function GetVideoCorrected(cwd: string, fileName: string, existing: set<string>): (r: Reply)
    ensures r == Error(403, InvalidPath) <==> !InsideFolder(ServedPath(cwd, fileName), FolderPath(cwd))
    ensures r == Error(404, FileNotFound) <==>
      InsideFolder(ServedPath(cwd, fileName), FolderPath(cwd)) && ServedPath(cwd, fileName) !in existing
    ensures InsideFolder(ServedPath(cwd, fileName), FolderPath(cwd)) && ServedPath(cwd, fileName) in existing ==>
      r == SendFile(ServedPath(cwd, fileName), fileName)
    ensures r.SendFile? ==> r.path == ServedPath(cwd, fileName) && InsideFolder(r.path, FolderPath(cwd))
    ensures r.SendFile? ==> r.path in existing && r.downloadName == fileName
  {
    var path := ServedPath(cwd, fileName);
    if !InsideFolder(path, FolderPath(cwd)) then Error(403, InvalidPath)
    else if path !in existing then Error(404, FileNotFound)
    else SendFile(path, fileName)
  }

  /** For the names the route can receive, those without a separator, the
      corrected test decides exactly as the test as written. */
  lemma CorrectedAgreesOnPlainNames(cwd: string, name: string, existing: set<string>)
    requires Paths.IsAbs(cwd) && Paths.NoSep(name)
    ensures GetVideoCorrected(cwd, name, existing) == GetVideo(cwd, name, existing)
  {
    GetVideoRefusesOnlyParent(cwd, name, existing);
    FolderIsNormal();
    if name == ".." {
      ParentRefused(cwd, Folder);
    }
  }

  /** The corrected test refuses the sibling folder. */
  lemma CorrectedRefusesSibling(cwd: string, existing: set<string>)
    requires Paths.IsAbs(cwd)
    ensures GetVideoCorrected(cwd, "../downloads2", existing) == Error(403, InvalidPath)
  {
    SiblingFolderPasses(cwd, existing);
    ExtensionNotInside(FolderPath(cwd), "2");
  }

  /** A path that continues the folder's without a separator is not inside it. */
  lemma ExtensionNotInside(folder: string, suffix: string)
    requires suffix != [] && suffix[0] != '/'
    ensures !InsideFolder(folder + suffix, folder)
  {
    assert (folder + suffix)[|folder|] == suffix[0];
  }

  /** The path the route resolves before normalising: the folder joined with
      the name, made absolute against the working directory. */
  function ResolvedSource(cwd: string, fileName: string): string {
    var joined := Paths.Join(Folder, fileName);
    if Paths.IsAbs(joined) then joined else Paths.Join(cwd, joined)
  }

  /** With the corrected test, whatever name arrives, a request that is not
      refused resolves to the folder's pieces followed by zero or more pieces:
      a path inside the folder. */
  lemma CorrectedStaysInside(cwd: string, name: string, existing: set<string>)
    requires Paths.IsAbs(cwd)
    ensures GetVideoCorrected(cwd, name, existing) != Error(403, InvalidPath) ==>
      var inFolder := Paths.NormalPieces(cwd) + [Folder];
      var resolved := Paths.NormalPieces(ResolvedSource(cwd, name));
      |inFolder| <= |resolved| && resolved[..|inFolder|] == inFolder
  {
    var joined := Paths.Join(Folder, name);
    var source := ResolvedSource(cwd, name);
    var folderSource := Paths.Join(cwd, Folder);
    FolderIsNormal();
    Paths.JoinRelativePieces(cwd, Folder);
    Paths.SplitNoSep(Folder);
    Paths.AbsolutePiecesNormal(cwd);
    assert Paths.NormalPieces(folderSource) == Paths.NormalPieces(cwd) + [Folder];
    if !Paths.IsAbs(joined) {
      assert joined != [] && joined[0] == 'd';
      Paths.JoinRelativePieces(cwd, joined);
    }
    assert Paths.IsAbs(source);
    assert ServedPath(cwd, name) == Paths.Normpath(source);
    assert FolderPath(cwd) == Paths.Normpath(folderSource);
    if GetVideoCorrected(cwd, name, existing) != Error(403, InvalidPath) {
      Paths.PiecePrefix(source, folderSource);
    }
  }
}

/** `download_video`: validate the request, let yt-dlp download, then move the
    downloaded file to a sanitized, unused name in the download folder.
    yt-dlp's download is a parameter: the path `prepare_filename` reported, or
    the text of the exception it raised.  `files` is the set of existing paths
    once the download has finished.  `os.rename` fails with `FileNotFoundError`
    when the reported path does not exist; any other failure of it (permissions,
    another device) is a parameter too. */
module Download {
  import opened Wrappers
  import opened Replies
  import UrlPattern
  import Sanitize
  import Paths
  import UniqueName
  import Decimal

  /** The checks before any download, in the route's order: a falsy URL, a URL
      that is not a string (`re.match` raises `TypeError`, reported as a 500), a
      URL the pattern rejects, and only then a falsy resolution.  `None` lets the
      request through. */
  function ValidateDownload(url: JsonValue, resolution: JsonValue): (r: Option<Reply>)
    ensures r == Some(Error(400, InvalidUrl)) <==>
      !Truthy(url) || (url.Str? && !UrlPattern.IsVideoUrl(url.text))
    ensures r == Some(Error(500, DownloadFailed + NotAStringText(url))) <==> Truthy(url) && !url.Str?
    ensures r == Some(Error(400, NoResolution)) <==>
      url.Str? && UrlPattern.IsVideoUrl(url.text) && !Truthy(resolution)
    ensures r.None? <==> url.Str? && UrlPattern.IsVideoUrl(url.text) && Truthy(resolution)
  {
    if !Truthy(url) then Some(Error(400, InvalidUrl))
    else if !url.Str? then Some(Error(500, DownloadFailed + NotAStringText(url)))
    else if !UrlPattern.IsVideoUrl(url.text) then Some(Error(400, InvalidUrl))
    else if !Truthy(resolution) then Some(Error(400, NoResolution))
    else None
  }

  /** The validation stated against the language of the URL pattern itself. */
  lemma ValidationByPattern(url: JsonValue, resolution: JsonValue)
    ensures ValidateDownload(url, resolution) == Some(Error(400, InvalidUrl)) <==>
      || url in {Null, Int(0), Bool(false), Float(true), Array(0), Object(0)}
      || (url.Str? && !UrlPattern.MatchesPattern(url.text))
    ensures ValidateDownload(url, resolution).None? <==>
      url.Str? && UrlPattern.MatchesPattern(url.text) && Truthy(resolution)
  {
    if url.Str? {
      UrlPattern.IsVideoUrlCorrect(url.text);
      if url.text == "" {
        assert !UrlPattern.MatchesPattern(url.text);
      }
    }
  }

  /** The outcome of a download request: the reply and the paths that exist afterwards. */
  datatype Outcome = Outcome(reply: Reply, files: set<string>)

  /** Where the route wants the file: the sanitized basename inside the folder. */
  function TargetPath(filePath: string): (r: string)
    ensures Paths.Basename(r) == Sanitize.SanitizeFilename(Paths.Basename(filePath))
    ensures r == Folder + "/" + Paths.Basename(r)
  {
    var name := Sanitize.SanitizeFilename(Paths.Basename(filePath));
    CleanHasNoSep(name);
    BasenameOfChild(Folder, name);
    Paths.Join(Folder, name)
  }

  /** Sanitize, pick an unused name by checking against `seen`, and rename.  The
      two branches of the route's `if` rename to the same path, so they are one
      step here.  A missing source fails first; otherwise the rename fails as
      `renameFailure` says, or moves the file. */
  function FinishDownload(filePath: string, files: set<string>, seen: set<string>,
                          renameFailure: Option<string>): (o: Outcome)
    ensures o.reply.Downloaded? <==> filePath in files && renameFailure.None?
    ensures !o.reply.Downloaded? ==> o.reply.Error? && o.reply.status == 500 && o.files == files
    ensures o.reply.Downloaded? ==>
      var moved := UniqueName.UniqueFilename(TargetPath(filePath), seen);
      && moved !in seen
      && o.reply.fileName == Paths.Basename(moved)
      && o.files == files - {filePath} + {moved}
  {
    var unique := UniqueName.UniqueFilename(TargetPath(filePath), seen);
    if filePath !in files then Outcome(Error(500, DownloadFailed + RenameMissingText(filePath, unique)), files)
    else if renameFailure.Some? then Outcome(Error(500, DownloadFailed + renameFailure.value), files)
    else Outcome(Downloaded(Paths.Basename(unique)), files - {filePath} + {unique})
  }

  /** The route as written: the unused name is chosen against every existing
      path, the downloaded file included.  After validation and a download, the
      reply names the unused path found for the sanitized basename, and the file
      has moved there; a missing source or a failed rename is a 500 that leaves
      the files alone.  A successful reply names a clean file in the folder that
      was not in use before, so no file is overwritten. */
  function DownloadVideo(url: JsonValue, resolution: JsonValue, fetched: Result<string, string>,
                         files: set<string>, renameFailure: Option<string>): (o: Outcome)
    ensures ValidateDownload(url, resolution).Some? ==>
      o == Outcome(ValidateDownload(url, resolution).value, files)
    ensures ValidateDownload(url, resolution).None? && fetched.Failure? ==>
      o == Outcome(Error(500, DownloadFailed + fetched.error), files)
    ensures ValidateDownload(url, resolution).None? && fetched.Success? ==>
      var unique := UniqueName.UniqueFilename(TargetPath(fetched.value), files);
      && (fetched.value !in files ==>
            o == Outcome(Error(500, DownloadFailed + RenameMissingText(fetched.value, unique)), files))
      && (fetched.value in files && renameFailure.Some? ==>
            o == Outcome(Error(500, DownloadFailed + renameFailure.value), files))
      && (fetched.value in files && renameFailure.None? ==>
            o == Outcome(Downloaded(Paths.Basename(unique)), files - {fetched.value} + {unique}))
    ensures o.reply.Downloaded? ==>
      var moved := Paths.Join(Folder, o.reply.fileName);
      && fetched.Success? && fetched.value in files
      && Sanitize.IsClean(o.reply.fileName)
      && moved !in files
      && o.files == files - {fetched.value} + {moved}
  {
    match ValidateDownload(url, resolution)
    case Some(rejected) => Outcome(rejected, files)
    case None =>
      match fetched
      case Failure(e) => Outcome(Error(500, DownloadFailed + e), files)
      case Success(filePath) =>
        var o := FinishDownload(filePath, files, files, renameFailure);
        UniqueStaysInFolder(Sanitize.SanitizeFilename(Paths.Basename(filePath)), files);
        o
  }

  /** The route with the downloaded file left out of the uniqueness check: the
      same guarantees, except that the new path may be the downloaded file's own. */
  function DownloadVideoCorrected(url: JsonValue, resolution: JsonValue, fetched: Result<string, string>,
                                  files: set<string>, renameFailure: Option<string>): (o: Outcome)
    ensures ValidateDownload(url, resolution).Some? ==>
      o == Outcome(ValidateDownload(url, resolution).value, files)
    ensures ValidateDownload(url, resolution).None? && fetched.Failure? ==>
      o == Outcome(Error(500, DownloadFailed + fetched.error), files)
    ensures ValidateDownload(url, resolution).None? && fetched.Success? ==>
      var unique := UniqueName.UniqueFilename(TargetPath(fetched.value), files - {fetched.value});
      && (fetched.value !in files ==>
            o == Outcome(Error(500, DownloadFailed + RenameMissingText(fetched.value, unique)), files))
      && (fetched.value in files && renameFailure.Some? ==>
            o == Outcome(Error(500, DownloadFailed + renameFailure.value), files))
      && (fetched.value in files && renameFailure.None? ==>
            o == Outcome(Downloaded(Paths.Basename(unique)), files - {fetched.value} + {unique}))
    ensures o.reply.Downloaded? ==>
      var moved := Paths.Join(Folder, o.reply.fileName);
      && fetched.Success? && fetched.value in files
      && Sanitize.IsClean(o.reply.fileName)
      && moved !in files - {fetched.value}
      && o.files == files - {fetched.value} + {moved}
  {
    match ValidateDownload(url, resolution)
    case Some(rejected) => Outcome(rejected, files)
    case None =>
      match fetched
      case Failure(e) => Outcome(Error(500, DownloadFailed + e), files)
      case Success(filePath) =>
        var o := FinishDownload(filePath, files, files - {filePath}, renameFailure);
        UniqueStaysInFolder(Sanitize.SanitizeFilename(Paths.Basename(filePath)), files - {filePath});
        o
  }

  // ---------------------------------------------------------------------------
  // The unused name stays a clean name inside the folder

  lemma CleanConcat(a: string, b: string)
    requires Sanitize.IsClean(a) && Sanitize.IsClean(b)
    ensures Sanitize.IsClean(a + b)
  {
    assert forall i :: 0 <= i < |a + b| ==> (a + b)[i] == if i < |a| then a[i] else b[i - |a|];
  }

  lemma CleanHasNoSep(s: string)
    requires Sanitize.IsClean(s)
    ensures Paths.NoSep(s)
  {
    assert forall i :: 0 <= i < |s| ==> !Sanitize.IsUnsafe(s[i]);
  }

  /** A separator-free name appended to a directory is that path's basename. */
  lemma BasenameOfChild(dir: string, name: string)
    requires Paths.NoSep(name)
    ensures Paths.Basename(dir + "/" + name) == name
  {
    var p := dir + "/" + name;
    assert p[|dir|] == '/';
    assert forall j :: |dir| < j < |p| ==> p[j] == name[j - |dir| - 1];
    Paths.BasenameAfter(p, |dir|);
    assert p[|dir| + 1..] == name;
  }

  /** A separator-free suffix of `dir + "/" + name` lies within `name`. */
  lemma SuffixWithinName(dir: string, name: string, suffix: string)
    requires Paths.NoSep(suffix)
    requires |suffix| <= |dir + "/" + name|
    requires suffix == (dir + "/" + name)[|dir + "/" + name| - |suffix|..]
    ensures |suffix| <= |name|
  {
    var p := dir + "/" + name;
    var start := |p| - |suffix|;
    forall j | start <= j < |p|
      ensures p[j] != '/'
    {
      assert p[j] == suffix[j - start];
    }
    assert p[|dir|] == '/';
  }

  /** In `dir + "/" + name` the extension lies within `name`. */
  lemma ExtWithinName(dir: string, name: string)
    requires Paths.NoSep(name)
    ensures var (base, ext) := Paths.SplitExt(dir + "/" + name);
      && |ext| <= |name|
      && ext == name[|name| - |ext|..]
      && base == dir + "/" + name[..|name| - |ext|]
  {
    var p := dir + "/" + name;
    var parts := Paths.SplitExt(p);
    var base, ext := parts.0, parts.1;
    assert base + ext == p;
    assert ext == p[|base|..];
    SuffixWithinName(dir, name, ext);
    var j := |name| - |ext|;
    assert p[..|base|] == base;
    assert (dir + "/") + name == p;
    assert p[|dir| + 1 + j..] == name[j..];
    assert p[..|dir| + 1 + j] == dir + "/" + name[..j];
  }

  lemma DigitsClean(digits: string)
    requires Decimal.AllDigits(digits)
    ensures Sanitize.IsClean(digits)
  {
    forall i | 0 <= i < |digits| ensures !Sanitize.IsUnsafe(digits[i]) && digits[i] != ' ' {
      assert Decimal.IsDigit(digits[i]);
    }
  }

  /** The n-th candidate for a clean name in `dir` is a clean name in `dir`. */
  lemma CandidateInFolder(dir: string, name: string, n: nat) returns (m: string)
    requires Sanitize.IsClean(name)
    ensures var (base, ext) := Paths.SplitExt(dir + "/" + name);
      UniqueName.Candidate(base, ext, n) == dir + "/" + m
    ensures Sanitize.IsClean(m)
  {
    CleanHasNoSep(name);
    ExtWithinName(dir, name);
    var (base, ext) := Paths.SplitExt(dir + "/" + name);
    var j := |name| - |ext|;
    var digits := Decimal.NatToString(n);
    m := name[..j] + "_" + digits + name[j..];
    DigitsClean(digits);
    CleanConcat(name[..j], "_");
    CleanConcat(name[..j] + "_", digits);
    CleanConcat(name[..j] + "_" + digits, name[j..]);
  }

  /** Whatever the uniqueness search settles on for a clean name in the folder is
      again a clean name in the folder. */
  lemma UniqueStaysInFolder(name: string, seen: set<string>)
    requires Sanitize.IsClean(name)
    ensures var u := UniqueName.UniqueFilename(Paths.Join(Folder, name), seen);
      && Paths.Join(Folder, Paths.Basename(u)) == u
      && Sanitize.IsClean(Paths.Basename(u))
  {
    CleanHasNoSep(name);
    var p := Folder + "/" + name;
    assert Paths.Join(Folder, name) == p;
    var u := UniqueName.UniqueFilename(p, seen);
    if p !in seen {
      BasenameOfChild(Folder, name);
    } else {
      var (base, ext) := Paths.SplitExt(p);
      var n :| n >= 1 && u == UniqueName.Candidate(base, ext, n);
      var m := CandidateInFolder(Folder, name, n);
      CleanHasNoSep(m);
      BasenameOfChild(Folder, m);
    }
  }

  // ---------------------------------------------------------------------------
  // Finding: the downloaded file collides with itself

  /** A clean name in the folder is its own target path. */
  lemma CleanTarget(name: string)
    requires Sanitize.IsClean(name)
    ensures TargetPath(Paths.Join(Folder, name)) == Paths.Join(Folder, name)
  {
    CleanHasNoSep(name);
    BasenameOfChild(Folder, name);
    assert Paths.Join(Folder, name) == Folder + "/" + name;
    Sanitize.SanitizeFixedPoint(name);
  }

  /** As written, a download whose name sanitizing leaves unchanged is always
      renamed: the downloaded file is itself the existing path the search avoids,
      so the reply never names the file yt-dlp wrote, even in an empty folder. */
  lemma CleanDownloadIsRenamed(url: JsonValue, resolution: JsonValue, name: string, files: set<string>)
    requires ValidateDownload(url, resolution).None?
    requires Sanitize.IsClean(name)
    requires Paths.Join(Folder, name) in files
    ensures var o := DownloadVideo(url, resolution, Success(Paths.Join(Folder, name)), files, None);
      o.reply.Downloaded? && o.reply.fileName != name
  {
    var p := Paths.Join(Folder, name);
    CleanTarget(name);
    var o := DownloadVideo(url, resolution, Success(p), files, None);
    assert o.reply.Downloaded? && Paths.Join(Folder, o.reply.fileName) !in files;
  }

  /** Corrected, the same download keeps its name and the folder is unchanged. */
  lemma CleanDownloadKeepsName(url: JsonValue, resolution: JsonValue, name: string, files: set<string>)
    requires ValidateDownload(url, resolution).None?
    requires Sanitize.IsClean(name)
    requires Paths.Join(Folder, name) in files
    ensures DownloadVideoCorrected(url, resolution, Success(Paths.Join(Folder, name)), files, None)
      == Outcome(Downloaded(name), files)
  {
    CleanTarget(name);
    CleanBasename(name);
    CorrectedKeepsTarget(url, resolution, Paths.Join(Folder, name), files);
  }

  lemma CleanBasename(name: string)
    requires Sanitize.IsClean(name)
    ensures Paths.Basename(Paths.Join(Folder, name)) == name
  {
    CleanHasNoSep(name);
    BasenameOfChild(Folder, name);
    assert Paths.Join(Folder, name) == Folder + "/" + name;
  }

  /** Corrected, a download already at its target path stays where it is. */
  lemma CorrectedKeepsTarget(url: JsonValue, resolution: JsonValue, p: string, files: set<string>)
    requires ValidateDownload(url, resolution).None?
    requires p in files && TargetPath(p) == p
    ensures DownloadVideoCorrected(url, resolution, Success(p), files, None)
      == Outcome(Downloaded(Paths.Basename(p)), files)
  {
    FinishInPlace(p, files);
    assert DownloadVideoCorrected(url, resolution, Success(p), files, None)
      == FinishDownload(p, files, files - {p}, None);
  }

  lemma FinishInPlace(p: string, files: set<string>)
    requires p in files && TargetPath(p) == p
    ensures FinishDownload(p, files, files - {p}, None) == Outcome(Downloaded(Paths.Basename(p)), files)
  {
    assert UniqueName.UniqueFilename(p, files - {p}) == p;
    RemoveAddSame(files, p);
  }

  lemma RemoveAddSame<T>(s: set<T>, x: T)
    requires x in s
    ensures s - {x} + {x} == s
  {
  }
}

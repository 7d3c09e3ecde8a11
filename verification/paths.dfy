/** The parts of Python's `posixpath` the service relies on: `join`, `basename`,
    `splitext`, `normpath` and `abspath`, on paths written as strings with `/`
    as the separator.  The working directory `abspath` consults is a parameter. */
module Paths {

  predicate NoSep(s: string) {
    forall i :: 0 <= i < |s| ==> s[i] != '/'
  }

  predicate IsAbs(p: string) {
    |p| > 0 && p[0] == '/'
  }

  predicate StartsWith(s: string, prefix: string) {
    |prefix| <= |s| && s[..|prefix|] == prefix
  }

  predicate EndsWith(s: string, suffix: string) {
    |suffix| <= |s| && s[|s| - |suffix|..] == suffix
  }

  /** `os.path.join(a, b)`: an absolute `b` replaces `a`; otherwise one separator
      goes between them unless `a` is empty or already ends with one. */
  function Join(a: string, b: string): (r: string)
    ensures IsAbs(b) ==> r == b
    ensures !IsAbs(b) ==> StartsWith(r, a) && |b| <= |r| && r[|r| - |b|..] == b
  {
    if IsAbs(b) then b
    else if a == [] || a[|a| - 1] == '/' then a + b
    else a + "/" + b
  }

  /** A relative second part follows the first after exactly one separator,
      which is left out when the first part is empty or already ends with one. */
  lemma JoinSeparator(a: string, b: string)
    requires !IsAbs(b)
    ensures Join(a, b) == a + b || Join(a, b) == a + "/" + b
    ensures Join(a, b) == a + b <==> a == [] || a[|a| - 1] == '/'
  {
  }

  /** `str.rfind(c)`: the last position holding `c`, or -1. */
  function LastIndexOf(p: string, c: char): (i: int)
    ensures -1 <= i < |p|
    ensures i >= 0 ==> p[i] == c
    ensures forall j :: i < j < |p| ==> p[j] != c
  {
    if p == [] then -1
    else if p[|p| - 1] == c then |p| - 1
    else LastIndexOf(p[..|p| - 1], c)
  }

  /** The three facts above pin `rfind` down: any position holding `c` with no
      `c` after it is the one `rfind` reports. */
  lemma {:induction false} LastIndexOfUnique(p: string, c: char, k: int)
    requires -1 <= k < |p|
    requires k >= 0 ==> p[k] == c
    requires forall j :: k < j < |p| ==> p[j] != c
    ensures LastIndexOf(p, c) == k
  {
    if p != [] && k < |p| - 1 {
      var init := p[..|p| - 1];
      assert forall j :: k < j < |init| ==> init[j] == p[j];
      LastIndexOfUnique(init, c, k);
    }
  }

  /** `os.path.basename`: everything after the last separator, so the longest
      separator-free suffix. */
  function Basename(p: string): (r: string)
    ensures NoSep(r)
    ensures |r| <= |p| && p[|p| - |r|..] == r
    ensures |r| < |p| ==> p[|p| - |r| - 1] == '/'
  {
    p[LastIndexOf(p, '/') + 1..]
  }

  /** Some character of `s` is not a dot. */
  predicate HasNonDot(s: string) {
    s != [] && (s[0] != '.' || HasNonDot(s[1..]))
  }

  /** `os.path.splitext`: the extension starts at the last dot of the last path
      component, provided something other than dots precedes that dot within the
      component (so `.bashrc` and `..` have no extension).  The two parts always
      concatenate back to the path. */
  function SplitExt(p: string): (parts: (string, string))
    ensures parts.0 + parts.1 == p
    ensures parts.1 != [] ==> parts.1[0] == '.' && NoSep(parts.1)
    ensures forall i :: 1 <= i < |parts.1| ==> parts.1[i] != '.'
  {
    var dotIndex := ExtensionStart(p);
    SplitAt(p, dotIndex);
    ExtensionChars(p, dotIndex);
    (p[..dotIndex], p[dotIndex..])
  }

  /** Where `splitext` cuts `p`: at the last dot of the last component when
      something other than dots precedes it there, and otherwise at the end. */
  function ExtensionStart(p: string): (i: nat)
    ensures i <= |p|
    ensures i < |p| ==> p[i] == '.' && forall j :: i < j < |p| ==> p[j] != '/' && p[j] != '.'
  {
    var sepIndex := LastIndexOf(p, '/');
    var dotIndex := LastIndexOf(p, '.');
    if dotIndex > sepIndex && HasNonDot(p[sepIndex + 1..dotIndex]) then dotIndex else |p|
  }

  /** `splitext` only cuts an extension off a last component that has
      something other than dots before the dot. */
  lemma SplitExtStem(p: string)
    ensures SplitExt(p).1 != [] ==> HasNonDot(Basename(SplitExt(p).0))
  {
    var sepIndex := LastIndexOf(p, '/');
    var dotIndex := LastIndexOf(p, '.');
    if dotIndex > sepIndex && HasNonDot(p[sepIndex + 1..dotIndex]) {
      StemHasNonDot(p, sepIndex, dotIndex);
    }
  }

  /** A prefix of a string made of dots only is made of dots only. */
  lemma {:induction false} DotsPrefix(a: string, n: nat)
    requires n <= |a| && !HasNonDot(a)
    ensures !HasNonDot(a[..n])
    decreases n
  {
    if n > 0 {
      DotsPrefix(a[1..], n - 1);
      assert a[..n][1..] == a[1..][..n - 1];
    }
  }

  /** Every dot of the last component of `p` has nothing but dots before it
      within the component. */
  predicate OnlyLeadingDots(p: string) {
    var sepIndex := LastIndexOf(p, '/');
    forall i :: sepIndex < i < |p| && p[i] == '.' ==> !HasNonDot(p[sepIndex + 1..i])
  }

  /** Conversely, `splitext` leaves the extension empty only when every dot of
      the last component has nothing but dots before it within the component:
      a file name such as `video.mp4` always has its extension cut. */
  lemma SplitExtCuts(p: string)
    ensures SplitExt(p).1 == [] ==> OnlyLeadingDots(p)
  {
    if SplitExt(p).1 == [] {
      EmptyExtensionAtEnd(p);
      UncutCondition(p);
      var sepIndex := LastIndexOf(p, '/');
      DotsOnlyBeforeDots(p, sepIndex, LastIndexOf(p, '.'));
      LeadingDotsAfter(p, sepIndex);
    }
  }

  lemma LeadingDotsAfter(p: string, sepIndex: int)
    requires sepIndex == LastIndexOf(p, '/')
    requires forall i :: sepIndex < i < |p| && p[i] == '.' ==> !HasNonDot(p[sepIndex + 1..i])
    ensures OnlyLeadingDots(p)
  {
  }

  lemma EmptyExtensionAtEnd(p: string)
    requires SplitExt(p).1 == []
    ensures ExtensionStart(p) == |p|
  {
  }

  /** `splitext` cuts nothing when the last dot is not in the last component,
      or has only dots before it there. */
  lemma UncutCondition(p: string)
    requires ExtensionStart(p) == |p|
    ensures var sepIndex, dotIndex := LastIndexOf(p, '/'), LastIndexOf(p, '.');
      !(dotIndex > sepIndex && HasNonDot(p[sepIndex + 1..dotIndex]))
  {
  }

  /** When the last dot at `dotIndex` follows only dots in its component (or is
      not in it), so does every dot of the component. */
  lemma DotsOnlyBeforeDots(p: string, sepIndex: int, dotIndex: int)
    requires -1 <= sepIndex < |p| && -1 <= dotIndex < |p|
    requires forall j :: dotIndex < j < |p| ==> p[j] != '.'
    requires !(dotIndex > sepIndex && HasNonDot(p[sepIndex + 1..dotIndex]))
    ensures forall i :: sepIndex < i < |p| && p[i] == '.' ==> !HasNonDot(p[sepIndex + 1..i])
  {
    forall i | sepIndex < i < |p| && p[i] == '.'
      ensures !HasNonDot(p[sepIndex + 1..i])
    {
      assert p[sepIndex + 1..i] == p[sepIndex + 1..dotIndex][..i - sepIndex - 1];
      DotsPrefix(p[sepIndex + 1..dotIndex], i - sepIndex - 1);
    }
  }

  /** An example: the extension of a downloaded file is cut off at its dot. */
  lemma SplitExtExample()
    ensures SplitExt("downloads/video.mp4") == ("downloads/video", ".mp4")
  {
    var p := "downloads/video.mp4";
    LastIndexOfUnique(p, '/', 9);
    LastIndexOfUnique(p, '.', 15);
    assert HasNonDot(p[10..15]) by { assert p[10..15][0] == 'v'; }
    assert ExtensionStart(p) == 15;
    assert p[..15] == "downloads/video" && p[15..] == ".mp4";
  }

  /** The extension `splitext` cuts off at `dotIndex` (the whole-path end when
      there is none): a dot, then neither a dot nor a separator. */
  lemma ExtensionChars(p: string, dotIndex: int)
    requires 0 <= dotIndex <= |p|
    requires dotIndex < |p| ==> p[dotIndex] == '.'
    requires forall j :: dotIndex < j < |p| ==> p[j] != '/' && p[j] != '.'
    ensures dotIndex < |p| ==> p[dotIndex..][0] == '.' && NoSep(p[dotIndex..])
    ensures forall i :: 1 <= i < |p[dotIndex..]| ==> p[dotIndex..][i] != '.'
  {
  }

  /** The stem `splitext` keeps ends with a last component that is not all dots. */
  lemma StemHasNonDot(p: string, sepIndex: int, dotIndex: int)
    requires -1 <= sepIndex < dotIndex <= |p|
    requires sepIndex >= 0 ==> p[sepIndex] == '/'
    requires forall j :: sepIndex < j < dotIndex ==> p[j] != '/'
    requires HasNonDot(p[sepIndex + 1..dotIndex])
    ensures HasNonDot(Basename(p[..dotIndex]))
  {
    StemBasename(p, sepIndex, dotIndex);
  }

  /** The last component of the stem is what lies between the separator and the dot. */
  lemma StemBasename(p: string, sepIndex: int, dotIndex: int)
    requires -1 <= sepIndex < dotIndex <= |p|
    requires sepIndex >= 0 ==> p[sepIndex] == '/'
    requires forall j :: sepIndex < j < dotIndex ==> p[j] != '/'
    ensures Basename(p[..dotIndex]) == p[sepIndex + 1..dotIndex]
  {
    var stem := p[..dotIndex];
    assert forall j :: sepIndex < j < |stem| ==> stem[j] == p[j];
    BasenameAfter(stem, sepIndex);
    SliceOfPrefix(p, sepIndex + 1, dotIndex);
  }

  lemma SplitAt(p: string, i: int)
    requires 0 <= i <= |p|
    ensures p[..i] + p[i..] == p
  {
  }

  lemma SliceOfPrefix(p: string, i: int, j: int)
    requires 0 <= i <= j <= |p|
    ensures p[..j][i..] == p[i..j]
  {
  }

  /** The basename of `p` is everything after its last separator at `sepIndex`. */
  lemma BasenameAfter(p: string, sepIndex: int)
    requires -1 <= sepIndex < |p|
    requires sepIndex >= 0 ==> p[sepIndex] == '/'
    requires forall j :: sepIndex < j < |p| ==> p[j] != '/'
    ensures Basename(p) == p[sepIndex + 1..]
  {
    LastIndexOfUnique(p, '/', sepIndex);
  }

  // ---------------------------------------------------------------------------
  // `str.split('/')` and `'/'.join(...)`

  /** `s.split('/')`: the pieces between separators, empty ones included. */
  function SplitSep(s: string): (parts: seq<string>)
    ensures |parts| >= 1
    ensures forall k :: 0 <= k < |parts| ==> NoSep(parts[k])
  {
    if s == [] then [[]]
    else if s[0] == '/' then [[]] + SplitSep(s[1..])
    else
      var rest := SplitSep(s[1..]);
      [[s[0]] + rest[0]] + rest[1..]
  }

  /** `'/'.join(parts)`. */
  function JoinSep(parts: seq<string>): string {
    if parts == [] then []
    else if |parts| == 1 then parts[0]
    else parts[0] + "/" + JoinSep(parts[1..])
  }

  /** Splitting and joining again gives back the string. */
  lemma {:induction false} JoinSplit(s: string)
    ensures JoinSep(SplitSep(s)) == s
  {
    if s != [] {
      JoinSplit(s[1..]);
      var rest := SplitSep(s[1..]);
      if s[0] != '/' && |rest| > 1 {
        assert JoinSep(rest) == rest[0] + "/" + JoinSep(rest[1..]);
        assert ([[s[0]] + rest[0]] + rest[1..])[1..] == rest[1..];
      }
    }
  }

  /** Joining separator-free pieces and splitting again gives back the pieces. */
  lemma {:induction false} SplitJoin(parts: seq<string>)
    requires |parts| >= 1
    requires forall k :: 0 <= k < |parts| ==> NoSep(parts[k])
    ensures SplitSep(JoinSep(parts)) == parts
  {
    if |parts| == 1 {
      SplitNoSep(parts[0]);
    } else {
      SplitJoin(parts[1..]);
      SplitSepConcat(parts[0], JoinSep(parts[1..]));
      SplitNoSep(parts[0]);
      assert parts == [parts[0]] + parts[1..];
    }
  }

  lemma {:induction false} SplitNoSep(s: string)
    requires NoSep(s)
    ensures SplitSep(s) == [s]
  {
    if s != [] {
      SplitNoSep(s[1..]);
      assert [s[0]] + s[1..] == s;
    }
  }

  /** A separator between two strings splits them apart. */
  lemma {:induction false} SplitSepConcat(a: string, b: string)
    ensures SplitSep(a + "/" + b) == SplitSep(a) + SplitSep(b)
  {
    var s := a + "/" + b;
    if a == [] {
      assert s == "/" + b;
      assert s[1..] == b;
    } else {
      assert s[0] == a[0];
      assert s[1..] == a[1..] + "/" + b;
      SplitSepConcat(a[1..], b);
      if a[0] != '/' {
        PiecesCons([a[0]], SplitSep(a[1..]), SplitSep(b));
      }
    }
  }

  /** Gluing a first piece onto split pieces commutes with appending more pieces. */
  lemma PiecesCons(head: string, ra: seq<string>, rb: seq<string>)
    requires |ra| >= 1
    ensures [head + (ra + rb)[0]] + (ra + rb)[1..] == [head + ra[0]] + ra[1..] + rb
  {
    assert (ra + rb)[1..] == ra[1..] + rb;
  }

  lemma {:induction false} JoinSepSnoc(parts: seq<string>, last: string)
    requires |parts| >= 1
    ensures JoinSep(parts + [last]) == JoinSep(parts) + "/" + last
  {
    if |parts| > 1 {
      assert (parts + [last])[1..] == parts[1..] + [last];
      JoinSepSnoc(parts[1..], last);
    }
  }

  // ---------------------------------------------------------------------------
  // `os.path.normpath`

  /** One step of `normpath`'s loop over the pieces: empty pieces and `.` vanish;
      `..` removes the previous piece, except that it is kept when nothing can be
      removed in a relative path, and dropped at the root of an absolute one. */
  function NormStep(acc: seq<string>, comp: string, rooted: bool): seq<string> {
    if comp == "" || comp == "." then acc
    else if comp != ".." || (!rooted && acc == []) || (acc != [] && acc[|acc| - 1] == "..") then acc + [comp]
    else if acc != [] then acc[..|acc| - 1]
    else acc
  }

  function NormComps(acc: seq<string>, comps: seq<string>, rooted: bool): seq<string>
    decreases |comps|
  {
    if comps == [] then acc else NormComps(NormStep(acc, comps[0], rooted), comps[1..], rooted)
  }

  /** POSIX lets a path start with exactly two separators and keep them; one, or
      three or more, collapse to a single separator. */
  function InitialSlashes(p: string): (n: nat)
    ensures n <= 2
    ensures n > 0 <==> IsAbs(p)
  {
    if !IsAbs(p) then 0
    else if |p| >= 2 && p[1] == '/' && !(|p| >= 3 && p[2] == '/') then 2
    else 1
  }

  function Slashes(n: nat): (s: string)
    requires n <= 2
    ensures |s| == n && forall i :: 0 <= i < n ==> s[i] == '/'
  {
    if n == 0 then "" else if n == 1 then "/" else "//"
  }

  /** The pieces `normpath` keeps for `p`. */
  function NormalPieces(p: string): seq<string> {
    NormComps([], SplitSep(p), IsAbs(p))
  }

  /** `os.path.normpath`. */
  function Normpath(p: string): (r: string)
    ensures r != []
  {
    if p == [] then "."
    else
      var r := Slashes(InitialSlashes(p)) + JoinSep(NormalPieces(p));
      if r == [] then "." else r
  }

  /** `os.path.abspath` with `cwd` standing for `os.getcwd()`. */
  function Abspath(cwd: string, p: string): string {
    Normpath(if IsAbs(p) then p else Join(cwd, p))
  }

  // ---------------------------------------------------------------------------
  // Facts about normalisation

  /** A piece `normpath` keeps in an absolute path: non-empty, no separator,
      neither `.` nor `..`. */
  predicate IsNormalPiece(c: string) {
    c != "" && c != "." && c != ".." && NoSep(c)
  }

  predicate AllNormal(comps: seq<string>) {
    forall k :: 0 <= k < |comps| ==> IsNormalPiece(comps[k])
  }

  lemma {:induction false} NormCompsRootedNormal(acc: seq<string>, comps: seq<string>)
    requires AllNormal(acc)
    requires forall k :: 0 <= k < |comps| ==> NoSep(comps[k])
    ensures AllNormal(NormComps(acc, comps, true))
    decreases |comps|
  {
    if comps != [] {
      NormCompsRootedNormal(NormStep(acc, comps[0], true), comps[1..]);
    }
  }

  /** In an absolute path every kept piece is a normal one. */
  lemma AbsolutePiecesNormal(p: string)
    requires IsAbs(p)
    ensures AllNormal(NormalPieces(p))
  {
    NormCompsRootedNormal([], SplitSep(p));
  }

  lemma {:induction false} NormCompsAppend(acc: seq<string>, xs: seq<string>, ys: seq<string>, rooted: bool)
    ensures NormComps(acc, xs + ys, rooted) == NormComps(NormComps(acc, xs, rooted), ys, rooted)
    decreases |xs|
  {
    if xs == [] {
      assert xs + ys == ys;
    } else {
      assert (xs + ys)[0] == xs[0];
      assert (xs + ys)[1..] == xs[1..] + ys;
      NormCompsAppend(NormStep(acc, xs[0], rooted), xs[1..], ys, rooted);
    }
  }

  /** Appending `/name` to a path adds one more step to `normpath`'s loop. */
  lemma NormalPiecesExtend(p: string, name: string)
    requires p != []
    requires NoSep(name)
    ensures NormalPieces(p + "/" + name) == NormStep(NormalPieces(p), name, IsAbs(p))
  {
    SplitSepConcat(p, name);
    SplitNoSep(name);
    NormCompsAppend([], SplitSep(p), [name], IsAbs(p));
    assert (p + "/" + name)[0] == p[0];
  }

  lemma InitialSlashesExtend(p: string, t: string)
    requires |p| >= 3
    ensures InitialSlashes(p + t) == InitialSlashes(p)
  {
    assert (p + t)[..3] == p[..3];
    assert (p + t)[0] == p[0] && (p + t)[1] == p[1] && (p + t)[2] == p[2];
  }

  /** Joining a relative path onto a non-empty directory continues `normpath`'s
      loop from the directory's pieces, and keeps its leading separators. */
  lemma JoinRelativePieces(dir: string, rel: string)
    requires dir != [] && rel != [] && rel[0] != '/'
    ensures IsAbs(Join(dir, rel)) == IsAbs(dir)
    ensures InitialSlashes(Join(dir, rel)) == InitialSlashes(dir)
    ensures NormalPieces(Join(dir, rel)) == NormComps(NormalPieces(dir), SplitSep(rel), IsAbs(dir))
  {
    JoinKeepsLead(dir, rel);
    if dir[|dir| - 1] == '/' {
      JoinAfterSlashComps(dir, rel);
    } else {
      JoinWithSlashComps(dir, rel);
    }
  }

  lemma JoinKeepsLead(dir: string, rel: string)
    requires dir != [] && rel != [] && rel[0] != '/'
    ensures IsAbs(Join(dir, rel)) == IsAbs(dir)
    ensures InitialSlashes(Join(dir, rel)) == InitialSlashes(dir)
  {
    var j := Join(dir, rel);
    var t := if dir[|dir| - 1] == '/' then rel else "/" + rel;
    assert j == dir + t;
    assert j[0] == dir[0];
    if |dir| >= 3 {
      InitialSlashesExtend(dir, t);
    }
  }

  lemma JoinAfterSlashComps(dir: string, rel: string)
    requires dir != [] && dir[|dir| - 1] == '/' && rel != [] && rel[0] != '/'
    ensures NormalPieces(Join(dir, rel)) == NormComps(NormalPieces(dir), SplitSep(rel), IsAbs(dir))
  {
    var c := dir[..|dir| - 1];
    assert dir == c + "/" + "";
    assert Join(dir, rel) == c + "/" + rel;
    assert (c + "/" + rel)[0] == dir[0];
    TrailingSlashComps(c, rel, IsAbs(dir));
  }

  /** A trailing separator adds an empty piece, which the loop skips. */
  lemma TrailingSlashComps(c: string, rel: string, rooted: bool)
    ensures NormComps([], SplitSep(c + "/" + rel), rooted)
         == NormComps(NormComps([], SplitSep(c + "/" + ""), rooted), SplitSep(rel), rooted)
  {
    SplitSepConcat(c, rel);
    SplitSepConcat(c, "");
    NormCompsAppend([], SplitSep(c), SplitSep(rel), rooted);
    NormCompsAppend([], SplitSep(c), [""], rooted);
  }

  lemma JoinWithSlashComps(dir: string, rel: string)
    requires dir != [] && dir[|dir| - 1] != '/' && rel != [] && rel[0] != '/'
    ensures NormalPieces(Join(dir, rel)) == NormComps(NormalPieces(dir), SplitSep(rel), IsAbs(dir))
  {
    assert Join(dir, rel) == dir + "/" + rel;
    assert (dir + "/" + rel)[0] == dir[0];
    SplitSepConcat(dir, rel);
    NormCompsAppend([], SplitSep(dir), SplitSep(rel), IsAbs(dir));
  }

  /** The pieces `normpath` keeps in an absolute path are joined behind its
      leading separators. */
  lemma NormpathAbsolute(p: string)
    requires IsAbs(p)
    ensures Normpath(p) == Slashes(InitialSlashes(p)) + JoinSep(NormalPieces(p))
  {
  }

  /** `abspath` against an absolute working directory, as `os.getcwd()` is,
      gives an absolute path, whatever path it is given. */
  lemma AbspathAbsolute(cwd: string, p: string)
    requires IsAbs(cwd)
    ensures IsAbs(Abspath(cwd, p))
  {
    var q := if IsAbs(p) then p else Join(cwd, p);
    assert IsAbs(p) || StartsWith(q, cwd);
    NormpathAbsolute(q);
    assert Slashes(InitialSlashes(q))[0] == '/';
  }

  /** Joining normal pieces gives a string that is empty exactly when there are
      none, and otherwise starts with something other than a separator. */
  lemma JoinNormalHead(pieces: seq<string>)
    requires AllNormal(pieces)
    ensures JoinSep(pieces) == [] <==> pieces == []
    ensures pieces != [] ==> JoinSep(pieces)[0] == pieces[0][0] && pieces[0][0] != '/'
  {
    if |pieces| > 1 {
      assert JoinSep(pieces) == pieces[0] + "/" + JoinSep(pieces[1..]);
    }
  }

  /** `abspath` of a relative path against an absolute working directory: the
      directory's leading separators, then the loop continued from its pieces. */
  lemma AbspathRelative(cwd: string, rel: string)
    requires IsAbs(cwd) && rel != [] && rel[0] != '/'
    ensures Abspath(cwd, rel) ==
      Slashes(InitialSlashes(cwd)) + JoinSep(NormComps(NormalPieces(cwd), SplitSep(rel), true))
  {
    JoinRelativePieces(cwd, rel);
    NormpathAbsolute(Join(cwd, rel));
  }

  /** Splitting `a + "/" + b` for separator-free `a` and `b`. */
  lemma SplitTwo(a: string, b: string)
    requires NoSep(a) && NoSep(b)
    ensures SplitSep(a + "/" + b) == [a, b]
  {
    SplitSepConcat(a, b);
    SplitNoSep(a);
    SplitNoSep(b);
  }

  /** Two steps of the loop. */
  lemma NormCompsTwo(acc: seq<string>, x: string, y: string, rooted: bool)
    ensures NormComps(acc, [x, y], rooted) == NormStep(NormStep(acc, x, rooted), y, rooted)
  {
    var first := NormStep(acc, x, rooted);
    assert [x, y][0] == x && [x, y][1..] == [y];
    assert NormComps(acc, [x, y], rooted) == NormComps(first, [y], rooted);
    assert [y][1..] == [];
    assert NormComps(first, [y], rooted) == NormComps(NormStep(first, y, rooted), [], rooted);
  }

  /** One step of the loop, then the rest. */
  lemma NormCompsCons(acc: seq<string>, x: string, rest: seq<string>, rooted: bool)
    ensures NormComps(acc, [x] + rest, rooted) == NormComps(NormStep(acc, x, rooted), rest, rooted)
  {
    assert ([x] + rest)[0] == x && ([x] + rest)[1..] == rest;
  }

  /** Two paths that both start with one or two separators and then a
      non-separator: if one is the other or continues it after a separator,
      they have the same leading separators and the same relation holds after them. */
  lemma SameLeadingSlashes(ka: nat, ja: string, kb: nat, jb: string)
    requires 1 <= ka <= 2 && 1 <= kb <= 2
    requires ja == [] || ja[0] != '/'
    requires jb != [] && jb[0] != '/'
    requires Slashes(ka) + ja == Slashes(kb) + jb || StartsWith(Slashes(ka) + ja, Slashes(kb) + jb + "/")
    ensures ja == jb || StartsWith(ja, jb + "/")
  {
    var na, nb := Slashes(ka) + ja, Slashes(kb) + jb;
    var ext := if na == nb then nb else nb + "/";
    assert |nb| <= |ext| <= |na| && na[..|ext|] == ext;
    assert nb[kb] == jb[0];
    assert na[kb] == nb[kb];
    assert ka <= kb;
    assert na[ka] == ja[0];
    assert nb[ka] == na[ka];
    assert ka == kb;
    SlicesAfterLead(na, ext, ka);
    assert ja == na[ka..];
    assert ext[ka..] == if na == nb then jb else jb + "/";
  }

  lemma SlicesAfterLead(s: string, prefix: string, k: nat)
    requires k <= |prefix| <= |s| && s[..|prefix|] == prefix
    ensures s[k..][..|prefix| - k] == prefix[k..]
  {
  }

  /** Joined normal pieces: if one joined string is the other, or continues it
      after a separator, the other's pieces are a prefix of its pieces. */
  lemma JoinedPrefix(pa: seq<string>, pb: seq<string>)
    requires AllNormal(pa) && AllNormal(pb) && pb != []
    requires JoinSep(pa) == JoinSep(pb) || StartsWith(JoinSep(pa), JoinSep(pb) + "/")
    ensures |pb| <= |pa| && pa[..|pb|] == pb
  {
    var ja, jb := JoinSep(pa), JoinSep(pb);
    SplitJoin(pb);
    SplitJoin(pa);
    if ja == jb {
      assert pa == pb;
    } else {
      JoinedContinues(ja, jb);
      PrefixOfConcat(pb, SplitSep(ja[|jb| + 1..]));
    }
  }

  lemma PrefixOfConcat<T>(xs: seq<T>, ys: seq<T>)
    ensures |xs| <= |xs + ys| && (xs + ys)[..|xs|] == xs
  {
  }

  lemma JoinedContinues(ja: string, jb: string)
    requires StartsWith(ja, jb + "/")
    ensures SplitSep(ja) == SplitSep(jb) + SplitSep(ja[|jb| + 1..])
  {
    var t := ja[|jb| + 1..];
    assert ja[..|jb| + 1] == jb + "/";
    assert ja == ja[..|jb| + 1] + t;
    SplitSepConcat(jb, t);
  }

  /** If one normalised absolute path is another, or lies under it after a
      separator, the other's pieces are a prefix of its pieces. */
  lemma PiecePrefix(a: string, b: string)
    requires IsAbs(a) && IsAbs(b) && NormalPieces(b) != []
    requires Normpath(a) == Normpath(b) || StartsWith(Normpath(a), Normpath(b) + "/")
    ensures |NormalPieces(b)| <= |NormalPieces(a)|
    ensures NormalPieces(a)[..|NormalPieces(b)|] == NormalPieces(b)
  {
    var pa, pb := NormalPieces(a), NormalPieces(b);
    AbsolutePiecesNormal(a);
    AbsolutePiecesNormal(b);
    JoinNormalHead(pa);
    JoinNormalHead(pb);
    var ja, jb := JoinSep(pa), JoinSep(pb);
    var ka, kb := InitialSlashes(a), InitialSlashes(b);
    var na, nb := Slashes(ka) + ja, Slashes(kb) + jb;
    NormpathAbsolute(a);
    NormpathAbsolute(b);
    SameLeadingSlashes(ka, ja, kb, jb);
    JoinedPrefix(pa, pb);
  }
}

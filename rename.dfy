/**
 * The debug renamer of houdinilab/textureTools/debug_script.py: it normalises the name of a
 * folder and of every visible regular file inside it by turning each dot, whitespace
 * character or hyphen into an underscore; a file keeps its last extension.
 *
 * The filesystem is abstract: the set of paths that are directories, the folder's listing as a
 * map from entry names to kinds, and the outcome of each rename as an input (an oracle).
 */
module Rename {

  import opened Text
  import opened Paths

  // ---------------------------------------------------------------------------------------
  // The name transform `re.sub(r'[.\s-]', '_', name)`
  // ---------------------------------------------------------------------------------------

  /** ASCII characters that Python's `\s` matches in a `str` pattern: space, 9..13, 0x1c..0x1f. */
  predicate IsWhitespace(c: char) {
    c == ' ' || 9 <= c as int <= 13 || 0x1c <= c as int <= 0x1f
  }

  /** The characters of the class `[.\s-]`. */
  predicate IsSeparator(c: char) {
    c == '.' || c == '-' || IsWhitespace(c)
  }

  /** A name in which the class `[.\s-]` finds nothing to replace. */
  predicate IsNormalised(s: string) {
    forall i :: 0 <= i < |s| ==> !IsSeparator(s[i])
  }

  /** `re.sub(r'[.\s-]', '_', s)`, scanning from the left. */
  function Normalise(s: string): string {
    if s == [] then [] else [if IsSeparator(s[0]) then '_' else s[0]] + Normalise(s[1..])
  }

  /** Every separator becomes `_`, every other character stays, nothing moves. */
  lemma {:induction false} NormaliseSpec(s: string)
    ensures |Normalise(s)| == |s|
    ensures forall i :: 0 <= i < |s| ==> Normalise(s)[i] == if IsSeparator(s[i]) then '_' else s[i]
  {
    if s != [] {
      NormaliseSpec(s[1..]);
    }
  }

  /** The output never holds a dot, whitespace or hyphen, so a second pass changes nothing. */
  lemma NormaliseIdempotent(s: string)
    ensures IsNormalised(Normalise(s))
    ensures Normalise(Normalise(s)) == Normalise(s)
  {
    NormaliseSpec(s);
    NormaliseSpec(Normalise(s));
  }

  /** Names the transform leaves alone are exactly the names with no separator in them. */
  lemma NormaliseFixedPoints(s: string)
    ensures Normalise(s) == s <==> IsNormalised(s)
  {
    NormaliseSpec(s);
    if Normalise(s) == s {
      forall i | 0 <= i < |s| ensures !IsSeparator(s[i]) {
        assert Normalise(s)[i] == s[i];
      }
    }
  }

  /** Checking a rename character by character is enough. */
  lemma NormaliseOf(s: string, t: string)
    requires |t| == |s| && forall i :: 0 <= i < |s| ==> t[i] == if IsSeparator(s[i]) then '_' else s[i]
    ensures Normalise(s) == t
  {
    NormaliseSpec(s);
  }

  lemma NormaliseExample()
    ensures Normalise("My Folder.v2") == "My_Folder_v2"
  {
    NormaliseOf("My Folder.v2", "My_Folder_v2");
  }

  // ---------------------------------------------------------------------------------------
  // `os.path.splitext` on an entry name, and the new file name
  // ---------------------------------------------------------------------------------------

  predicate AllDots(s: string) {
    forall i :: 0 <= i < |s| ==> s[i] == '.'
  }

  /** True when some dot follows a character other than a dot: then there is an extension. */
  predicate HasExtension(name: string) {
    exists i, j :: 0 <= i < j < |name| && name[i] != '.' && name[j] == '.'
  }

  /** `name.rfind('.')`: the index of the last dot, or -1. */
  function LastDot(s: string): (i: int)
    ensures -1 <= i < |s|
    ensures i >= 0 ==> s[i] == '.'
    ensures forall k :: i < k < |s| ==> s[k] != '.'
  {
    if s == [] then -1 else if s[|s| - 1] == '.' then |s| - 1 else LastDot(s[..|s| - 1])
  }

  /**
   * `os.path.splitext(name)` for a name without `/`: split before the last dot unless only
   * dots precede it (leading dots belong to the stem), so `.bashrc` has no extension.
   */
  function SplitExt(name: string): (string, string) {
    var d := LastDot(name);
    if d >= 0 && !AllDots(name[..d]) then (name[..d], name[d..]) else (name, [])
  }

  /**
   * The two parts put back together give the name; the extension is empty exactly when no
   * dot follows a non-dot character, and otherwise is a dot followed by no other dot.
   */
  lemma SplitExtSpec(name: string)
    ensures var parts := SplitExt(name);
      && parts.0 + parts.1 == name
      && (parts.1 == [] <==> !HasExtension(name))
      && (parts.1 != [] ==> parts.1[0] == '.' && forall k :: 0 < k < |parts.1| ==> parts.1[k] != '.')
      && (parts.1 != [] ==> !AllDots(parts.0))
  {
    var d := LastDot(name);
    if d >= 0 && !AllDots(name[..d]) {
      assert name[..d] + name[d..] == name;
      assert forall k :: 0 < k < |name[d..]| ==> name[d..][k] == name[d + k];
      var i :| 0 <= i < d && name[..d][i] != '.';
      assert name[i] != '.' && name[d] == '.';
    } else {
      assert forall j :: 0 <= j < |name| && name[j] == '.' ==> 0 <= j <= d;
      assert forall i :: 0 <= i < d ==> name[..d][i] == name[i];
    }
  }

  /** `re.sub(r'[.\s-]', '_', stem) + ext` with `(stem, ext) = os.path.splitext(name)`. */
  function NewFileName(name: string): string {
    var parts := SplitExt(name);
    Normalise(parts.0) + parts.1
  }

  /**
   * Splitting the new name gives back the normalised stem and the untouched extension: the
   * rename keeps exactly the last extension and normalises the rest.
   */
  lemma {:induction false} SplitNewFileName(name: string)
    ensures var parts := SplitExt(name);
            SplitExt(NewFileName(name)) == (Normalise(parts.0), parts.1)
  {
    var parts := SplitExt(name);
    var n := NewFileName(name);
    SplitExtSpec(name);
    NormaliseSpec(parts.0);
    NormaliseIdempotent(parts.0);
    var stem := Normalise(parts.0);
    assert forall k :: 0 <= k < |stem| ==> stem[k] != '.';
    if parts.1 == [] {
      assert n == stem;
      assert LastDot(n) == -1;
    } else {
      var ext := parts.1;
      assert n[|stem|] == '.' by { assert n[|stem|] == ext[0]; }
      assert forall k :: |stem| < k < |n| ==> n[k] != '.' by {
        assert forall k :: |stem| < k < |n| ==> n[k] == ext[k - |stem|];
      }
      assert LastDot(n) == |stem|;
      assert stem != [] && stem[0] != '.' by { assert !AllDots(parts.0); }
      assert n[..|stem|] == stem;
      assert n[|stem|..] == ext;
    }
  }

  /** Renaming a renamed file again gives the same name. */
  lemma NewFileNameIdempotent(name: string)
    ensures NewFileName(NewFileName(name)) == NewFileName(name)
  {
    SplitNewFileName(name);
    NormaliseIdempotent(SplitExt(name).0);
  }

  /** The new name has the old length, and a visible name stays visible. */
  lemma NewFileNameShape(name: string)
    ensures |NewFileName(name)| == |name|
    ensures name != [] && name[0] != '.' ==> NewFileName(name) != [] && NewFileName(name)[0] != '.'
  {
    var parts := SplitExt(name);
    SplitExtSpec(name);
    NormaliseSpec(parts.0);
    if name != [] && name[0] != '.' && parts.0 != [] {
      assert parts.0[0] == name[0];
    }
  }

  lemma SplitExtExample(name: string)
    requires name == "tex-map.1001.exr"
    ensures SplitExt(name) == ("tex-map.1001", ".exr")
  {
    assert name[12] == '.' && name[13] != '.' && name[14] != '.' && name[15] != '.';
    assert LastDot(name) == 12;
    assert name[..12] == "tex-map.1001" && name[12..] == ".exr";
    assert !AllDots(name[..12]) by { assert name[..12][0] == 't'; }
  }

  /** Only the last extension survives: `tex-map.1001.exr` becomes `tex_map_1001.exr`. */
  lemma NewFileNameExample(name: string)
    requires name == "tex-map.1001.exr"
    ensures NewFileName(name) == "tex_map_1001" + ".exr"
  {
    SplitExtExample(name);
    NormaliseOf("tex-map.1001", "tex_map_1001");
  }

  // ---------------------------------------------------------------------------------------
  // The folder path
  // ---------------------------------------------------------------------------------------

  /** `source_folder.rstrip('/\\')`. */
  function StripTrailingSeparators(p: string): string {
    RStrip(p, {'/', '\\'})
  }

  /** `os.path.join(os.path.dirname(sf), re.sub(r'[.\s-]', '_', os.path.basename(sf)))`. */
  function NewFolderPath(sf: string): string {
    Join(Dirname(sf), Normalise(Basename(sf)))
  }

  /** The last component of a stripped, non-empty path is non-empty and ends like the path. */
  lemma StrippedBasename(sf: string)
    requires sf != [] && sf[|sf| - 1] != '/'
    ensures var b := Basename(sf); b != [] && b[|b| - 1] == sf[|sf| - 1]
    ensures forall i :: 0 <= i < |Basename(sf)| ==> Basename(sf)[i] != '/'
  {
  }

  /**
   * Once the path is stripped and names a directory (so is not empty), the normalised folder
   * name is never empty: the "New folder name is empty" branch cannot be taken.
   */
  lemma FolderNameNonEmpty(arg: string)
    ensures var sf := StripTrailingSeparators(arg);
            sf != [] ==> Normalise(Basename(sf)) != []
  {
    var sf := StripTrailingSeparators(arg);
    if sf != [] {
      StrippedBasename(sf);
    }
  }

  /** The folder is renamed in place: same parent directory, normalised last component. */
  lemma {:induction false} NewFolderPathSpec(sf: string)
    requires sf != [] && sf[|sf| - 1] != '/'
    ensures Basename(NewFolderPath(sf)) == Normalise(Basename(sf))
    ensures Dirname(NewFolderPath(sf)) == Dirname(sf)
    ensures NewFolderPath(sf) == sf ==> IsNormalised(Basename(sf))
  {
    StrippedBasename(sf);
    NormaliseSpec(Basename(sf));
    JoinDirname(sf, Normalise(Basename(sf)));
    NormaliseIdempotent(Basename(sf));
    if NewFolderPath(sf) == sf {
      NormaliseFixedPoints(Basename(sf));
    }
  }

  /** A path that already ends in neither separator is left alone by the stripping. */
  lemma StripKeeps(t: string)
    requires t != [] && t[|t| - 1] != '/' && t[|t| - 1] != '\\'
    ensures StripTrailingSeparators(t) == t
  {
  }

  /** The last character of a normalised name is the normalised last character. */
  lemma NormaliseLast(s: string)
    requires s != []
    ensures var r := Normalise(s);
            r != [] && r[|r| - 1] == if IsSeparator(s[|s| - 1]) then '_' else s[|s| - 1]
  {
    NormaliseSpec(s);
  }

  /** The new folder path ends with the normalised last character of the old one. */
  lemma NewFolderPathEnds(sf: string)
    requires sf != [] && sf[|sf| - 1] != '/'
    ensures var t := NewFolderPath(sf);
            t != [] && t[|t| - 1] == if IsSeparator(sf[|sf| - 1]) then '_' else sf[|sf| - 1]
  {
    var b := Basename(sf);
    StrippedBasename(sf);
    NormaliseLast(b);
    NormaliseSpec(b);
    JoinRelative(Dirname(sf), Normalise(b));
  }

  /** The new path of a stripped folder ends in neither separator, so a second run strips nothing. */
  lemma NewFolderPathStripped(sf: string)
    requires sf != [] && sf[|sf| - 1] != '/' && sf[|sf| - 1] != '\\'
    ensures StripTrailingSeparators(NewFolderPath(sf)) == NewFolderPath(sf)
  {
    NewFolderPathEnds(sf);
    StripKeeps(NewFolderPath(sf));
  }

  /** The new path of a folder is its own new path. */
  lemma NewFolderPathFixed(sf: string)
    requires sf != [] && sf[|sf| - 1] != '/'
    ensures NewFolderPath(NewFolderPath(sf)) == NewFolderPath(sf)
  {
    var t := NewFolderPath(sf);
    NewFolderPathSpec(sf);
    NormaliseIdempotent(Basename(sf));
    assert NewFolderPath(t) == Join(Dirname(sf), Normalise(Normalise(Basename(sf))));
  }

  /** A second run finds the renamed folder already stripped and already normalised. */
  lemma FolderRenameIdempotent(arg: string)
    ensures var sf := StripTrailingSeparators(arg);
            sf != [] ==>
              var t := NewFolderPath(sf);
              StripTrailingSeparators(t) == t && NewFolderPath(t) == t
  {
    var sf := StripTrailingSeparators(arg);
    if sf != [] {
      NewFolderPathStripped(sf);
      NewFolderPathFixed(sf);
    }
  }

  // ---------------------------------------------------------------------------------------
  // The folder listing and the rename loop, as a specification
  // ---------------------------------------------------------------------------------------

  /** An entry as `os.path.isfile` sees it (symbolic links followed). */
  datatype Kind = RegularFile | Directory | OtherKind

  /** `file.startswith('.')`. */
  predicate Hidden(name: string) {
    |name| > 0 && name[0] == '.'
  }

  /** An entry the loop considers: a regular file whose name does not start with a dot. */
  predicate Eligible(e: map<string, Kind>, n: string) {
    n in e && e[n] == RegularFile && !Hidden(n)
  }

  /** An entry the loop tries to rename: eligible, and its new name differs. */
  predicate Changes(e: map<string, Kind>, n: string) {
    Eligible(e, n) && NewFileName(n) != n
  }

  /** A listing names every entry exactly once, in some order. */
  ghost predicate IsListing(listing: seq<string>, e: map<string, Kind>) {
    && (forall i, j :: 0 <= i < j < |listing| ==> listing[i] != listing[j])
    && (forall n :: n in listing <==> n in e)
  }

  /**
   * One iteration of the loop over `os.listdir`, as the exception handlers intend: a rename
   * that the system refuses (a name in `denied`), or whose target already exists, is logged
   * and leaves the folder as it was.
   */
  function Step(e: map<string, Kind>, n: string, denied: set<string>): map<string, Kind> {
    if Changes(e, n) && n !in denied && NewFileName(n) !in e then
      (e - {n})[NewFileName(n) := RegularFile]
    else
      e
  }

  /**
   * One iteration as written, under POSIX `rename(2)`: a target that exists and is not a
   * directory is silently replaced, so the file that had the normalised name is lost.
   */
  function StepAsWritten(e: map<string, Kind>, n: string, denied: set<string>): map<string, Kind> {
    var m := NewFileName(n);
    if Changes(e, n) && n !in denied && !(m in e && e[m] == Directory) then
      (e - {n})[m := RegularFile]
    else
      e
  }

  /** Renaming onto an existing file, as written, leaves one entry fewer. */
  lemma StepAsWrittenOverwrites(e: map<string, Kind>, n: string)
    requires Changes(e, n) && NewFileName(n) in e && e[NewFileName(n)] != Directory
    ensures StepAsWritten(e, n, {}) == (e - {n})[NewFileName(n) := RegularFile]
    ensures |StepAsWritten(e, n, {})| == |e| - 1
  {
    var m := NewFileName(n);
    assert (e - {n}).Keys == e.Keys - {n};
    assert ((e - {n})[m := RegularFile]).Keys == e.Keys - {n};
  }

  /** A name without a dot has no extension and is normalised as a whole. */
  lemma NewFileNameNoDot(name: string)
    requires forall i :: 0 <= i < |name| ==> name[i] != '.'
    ensures NewFileName(name) == Normalise(name)
  {
    assert LastDot(name) == -1;
  }

  /** `a-b` is renamed over its neighbour `a_b`: two files go in, one comes out. */
  lemma StepAsWrittenLosesFile(e: map<string, Kind>)
    requires e == map["a-b" := RegularFile, "a_b" := RegularFile]
    ensures StepAsWritten(e, "a-b", {}) == map["a_b" := RegularFile]
    ensures |StepAsWritten(e, "a-b", {})| < |e|
  {
    assert NewFileName("a-b") == "a_b" by {
      NewFileNameNoDot("a-b");
      NormaliseOf("a-b", "a_b");
    }
    assert "a-b" != "a_b" by { assert "a-b"[1] != "a_b"[1]; }
    StepAsWrittenOverwrites(e, "a-b");
    assert (e - {"a-b"}) == map["a_b" := RegularFile];
  }

  /** A visit never loses an entry: a rename moves one name to one name that was free. */
  lemma StepKeepsCount(e: map<string, Kind>, n: string, denied: set<string>)
    ensures |Step(e, n, denied)| == |e|
  {
    if Step(e, n, denied) != e {
      var m := NewFileName(n);
      assert n in e && m !in e;
      assert (e - {n}).Keys == e.Keys - {n};
      assert ((e - {n})[m := RegularFile]).Keys == (e.Keys - {n}) + {m};
    }
  }

  /** The folder after the loop has visited `names` in order. */
  function RenameFiles(e: map<string, Kind>, names: seq<string>, denied: set<string>): map<string, Kind>
    decreases |names|
  {
    if names == [] then e
    else Step(RenameFiles(e, names[..|names| - 1], denied), names[|names| - 1], denied)
  }

  /** The loop never loses an entry: the folder holds as many entries afterwards as before. */
  lemma {:induction false} RenameFilesKeepsCount(e: map<string, Kind>, names: seq<string>, denied: set<string>)
    ensures |RenameFiles(e, names, denied)| == |e|
    decreases |names|
  {
    if names != [] {
      RenameFilesKeepsCount(e, names[..|names| - 1], denied);
      StepKeepsCount(RenameFiles(e, names[..|names| - 1], denied), names[|names| - 1], denied);
    }
  }

  /**
   * What the loop keeps true of the folder `r` after visiting `names`, starting from `e`:
   * entries that were not renamable keep their name and kind; every surviving old entry keeps
   * its kind; an old entry is gone only when it was listed, renamable and not refused, and
   * then its new name holds a regular file; every new entry is the new name of a listed file.
   */
  ghost predicate Framed(e: map<string, Kind>, names: seq<string>, denied: set<string>, r: map<string, Kind>) {
    KeptOld(e, r) && MovedOld(e, names, denied, r) && NewEntries(e, names, r)
  }

  /** Entries that were not renamable are still there; every surviving old entry keeps its kind. */
  ghost predicate KeptOld(e: map<string, Kind>, r: map<string, Kind>) {
    && (forall n :: n in e && !Changes(e, n) ==> n in r)
    && (forall n :: n in e && n in r ==> r[n] == e[n])
  }

  /** An old entry is gone only when it was listed, renamable and not refused, and then it has moved. */
  ghost predicate MovedOld(e: map<string, Kind>, names: seq<string>, denied: set<string>, r: map<string, Kind>) {
    forall n :: n in e && n !in r ==>
      && Changes(e, n) && n in names && n !in denied
      && NewFileName(n) in r && r[NewFileName(n)] == RegularFile
  }

  /** Every new entry is a regular file with a normalised name, the new name of a listed file. */
  ghost predicate NewEntries(e: map<string, Kind>, names: seq<string>, r: map<string, Kind>) {
    && (forall k :: k in r && k !in e ==> r[k] == RegularFile && NewFileName(k) == k)
    && (forall k :: k in r && k !in e ==> exists n :: n in names && Changes(e, n) && k == NewFileName(n))
  }

  /** `Framed` only grows with the names visited. */
  lemma FramedMore(e: map<string, Kind>, names: seq<string>, m: string, denied: set<string>, r: map<string, Kind>)
    requires Framed(e, names, denied, r)
    ensures Framed(e, names + [m], denied, r)
  {
    assert forall n :: n in names ==> n in names + [m];
  }

  /** A file still to be renamed was an old renamable entry, and its new name is not an old entry. */
  lemma RenamedTargetNew(e: map<string, Kind>, names: seq<string>, m: string, denied: set<string>, r0: map<string, Kind>)
    requires Framed(e, names, denied, r0)
    requires Changes(r0, m) && NewFileName(m) !in r0
    ensures m in e && Changes(e, m) && NewFileName(m) !in e
  {
    NewFileNameIdempotent(m);
  }

  /** No old entry that has moved was moved onto the name `m` still present. */
  lemma MovedNotOnto(e: map<string, Kind>, names: seq<string>, m: string, denied: set<string>, r0: map<string, Kind>)
    requires Framed(e, names, denied, r0)
    requires Changes(r0, m)
    ensures forall n :: n in e && n !in r0 ==> NewFileName(n) != m
  {
    forall n | n in e && n !in r0
      ensures NewFileName(n) != m
    {
      NewFileNameIdempotent(n);
    }
  }

  lemma StepKeptOld(e: map<string, Kind>, names: seq<string>, m: string, denied: set<string>, r0: map<string, Kind>)
    requires Framed(e, names, denied, r0)
    requires Changes(r0, m) && m !in denied && NewFileName(m) !in r0
    ensures KeptOld(e, (r0 - {m})[NewFileName(m) := RegularFile])
  {
    RenamedTargetNew(e, names, m, denied, r0);
  }

  lemma StepMovedOld(e: map<string, Kind>, names: seq<string>, m: string, denied: set<string>, r0: map<string, Kind>)
    requires Framed(e, names, denied, r0) && m in names
    requires Changes(r0, m) && m !in denied && NewFileName(m) !in r0
    ensures MovedOld(e, names, denied, (r0 - {m})[NewFileName(m) := RegularFile])
  {
    RenamedTargetNew(e, names, m, denied, r0);
    MovedNotOnto(e, names, m, denied, r0);
  }

  lemma StepNewEntries(e: map<string, Kind>, names: seq<string>, m: string, denied: set<string>, r0: map<string, Kind>)
    requires Framed(e, names, denied, r0) && m in names
    requires Changes(r0, m) && m !in denied && NewFileName(m) !in r0
    ensures NewEntries(e, names, (r0 - {m})[NewFileName(m) := RegularFile])
  {
    RenamedTargetNew(e, names, m, denied, r0);
    NewFileNameIdempotent(m);
  }

  /** A visit that renames `m` keeps `Framed`, with `m` now among the visited names. */
  lemma StepFramedRenamed(e: map<string, Kind>, names: seq<string>, m: string, denied: set<string>, r0: map<string, Kind>)
    requires Framed(e, names + [m], denied, r0)
    requires Changes(r0, m) && m !in denied && NewFileName(m) !in r0
    ensures Framed(e, names + [m], denied, (r0 - {m})[NewFileName(m) := RegularFile])
  {
    assert m in names + [m];
    StepKeptOld(e, names + [m], m, denied, r0);
    StepMovedOld(e, names + [m], m, denied, r0);
    StepNewEntries(e, names + [m], m, denied, r0);
  }

  /** One visit keeps `Framed`. */
  lemma StepFramed(e: map<string, Kind>, names: seq<string>, m: string, denied: set<string>, r0: map<string, Kind>)
    requires Framed(e, names, denied, r0)
    ensures Framed(e, names + [m], denied, Step(r0, m, denied))
  {
    FramedMore(e, names, m, denied, r0);
    if Changes(r0, m) && m !in denied && NewFileName(m) !in r0 {
      StepFramedRenamed(e, names, m, denied, r0);
    }
  }

  /** The loop changes nothing but what `Framed` allows. */
  lemma {:induction false} RenameFilesFrame(e: map<string, Kind>, names: seq<string>, denied: set<string>)
    ensures Framed(e, names, denied, RenameFiles(e, names, denied))
    decreases |names|
  {
    if names != [] {
      var prefix := names[..|names| - 1];
      RenameFilesFrame(e, prefix, denied);
      StepFramed(e, prefix, names[|names| - 1], denied, RenameFiles(e, prefix, denied));
      assert prefix + [names[|names| - 1]] == names;
    }
  }

  /**
   * Nothing else changes: hidden entries, non-files and files whose name is already normalised
   * keep their name and kind; a renamable file is either still there or has moved to its new
   * name; no entry appears except as the new name of a listed file.
   */
  lemma RenameFilesKeepsOthers(e: map<string, Kind>, names: seq<string>, denied: set<string>)
    ensures var r := RenameFiles(e, names, denied);
      && (forall n :: n in e && !Changes(e, n) ==> n in r && r[n] == e[n])
      && (forall n :: Changes(e, n) ==>
            (n in r && r[n] == RegularFile) ||
            (n !in r && n in names && n !in denied && NewFileName(n) in r && r[NewFileName(n)] == RegularFile))
      && (forall k :: k in r && k !in e ==> exists n :: n in names && Changes(e, n) && k == NewFileName(n))
  {
    RenameFilesFrame(e, names, denied);
  }

  /** No file would be renamed onto an existing entry or onto the target of another file. */
  ghost predicate NoClash(e: map<string, Kind>) {
    && (forall n :: Changes(e, n) ==> NewFileName(n) !in e)
    && (forall n, n' :: Changes(e, n) && Changes(e, n') && NewFileName(n) == NewFileName(n') ==> n == n')
  }

  predicate Distinct(names: seq<string>) {
    forall i, j :: 0 <= i < j < |names| ==> names[i] != names[j]
  }

  /** Under `NoClash`, a visit to a renamable, unrefused, not yet visited file renames it. */
  lemma StepRenames(e: map<string, Kind>, names: seq<string>, m: string, denied: set<string>, r0: map<string, Kind>)
    requires NoClash(e) && Framed(e, names, denied, r0)
    requires Changes(e, m) && m !in denied && m !in names
    ensures var r := Step(r0, m, denied); m !in r && NewFileName(m) in r
  {
    var mm := NewFileName(m);
    assert m in r0;
    assert mm !in e;
    forall n | n in names && Changes(e, n) ensures NewFileName(n) != mm {
      assert n != m;
    }
  }

  /** A visit never undoes an earlier rename. */
  lemma StepKeepsRenamed(r0: map<string, Kind>, n: string, m: string, denied: set<string>)
    requires n !in r0 && NewFileName(n) in r0 && NewFileName(n) != n
    ensures var r := Step(r0, m, denied); n !in r && NewFileName(n) in r
  {
    NewFileNameIdempotent(n);
    NewFileNameIdempotent(m);
  }

  /**
   * Without clashes, every listed file that needs a new name and is not refused gets it, no
   * matter how many renames before it failed: one failure does not stop the others.
   */
  lemma {:induction false} RenameFilesComplete(e: map<string, Kind>, names: seq<string>, denied: set<string>)
    requires NoClash(e) && Distinct(names)
    ensures var r := RenameFiles(e, names, denied);
      forall n :: Changes(e, n) && n in names && n !in denied ==> n !in r && NewFileName(n) in r
    decreases |names|
  {
    if names != [] {
      var prefix := names[..|names| - 1];
      var m := names[|names| - 1];
      assert Distinct(prefix);
      RenameFilesComplete(e, prefix, denied);
      var r0 := RenameFiles(e, prefix, denied);
      assert RenameFiles(e, names, denied) == Step(r0, m, denied);
      assert m !in prefix;
      if Changes(e, m) && m !in denied {
        RenameFilesFrame(e, prefix, denied);
        StepRenames(e, prefix, m, denied, r0);
      }
      forall n | Changes(e, n) && n in names && n !in denied && n != m
        ensures var r := Step(r0, m, denied); n !in r && NewFileName(n) in r
      {
        assert n in prefix;
        StepKeepsRenamed(r0, n, m, denied);
      }
    }
  }

  /** Every visible regular file already has its normalised name. */
  ghost predicate Settled(e: map<string, Kind>) {
    forall n :: n in e ==> !Changes(e, n)
  }

  /** A settled folder is left exactly as it is. */
  lemma {:induction false} SettledUnchanged(e: map<string, Kind>, names: seq<string>, denied: set<string>)
    requires Settled(e)
    ensures RenameFiles(e, names, denied) == e
    decreases |names|
  {
    if names != [] {
      SettledUnchanged(e, names[..|names| - 1], denied);
    }
  }

  /**
   * Without clashes or refusals, one pass over the full listing settles the folder, so a
   * second run renames nothing.
   */
  lemma RenameFilesSettles(e: map<string, Kind>, listing: seq<string>, denied: set<string>)
    requires NoClash(e) && IsListing(listing, e)
    requires forall n :: Changes(e, n) ==> n !in denied
    ensures Settled(RenameFiles(e, listing, denied))
  {
    RenameFilesFrame(e, listing, denied);
    RenameFilesComplete(e, listing, denied);
  }

  // ---------------------------------------------------------------------------------------
  // The procedure itself
  // ---------------------------------------------------------------------------------------

  /** Which way `rename_debug` ended; the source logs each one. */
  datatype Outcome = NotADirectory | FolderRenameFailed | ListingFailed | Completed

  /** The folder `rename_debug` is pointed at: where it is, and what it holds. */
  class Folder {
    var path: string
    var entries: map<string, Kind>

    constructor (path: string, entries: map<string, Kind>)
      ensures this.path == path && this.entries == entries
    {
      this.path := path;
      this.entries := entries;
    }

    /**
     * `rename_debug(path)`. `dirs` is the set of paths that are directories; the folder
     * rename succeeds when `folderRenameOk`; `os.listdir` succeeds when `listable` and then
     * yields `listing`; the system refuses to rename the files in `denied`.
     */
    method RenameDebug(dirs: set<string>, folderRenameOk: bool, listable: bool,
                       listing: seq<string>, denied: set<string>) returns (outcome: Outcome)
      requires "" !in dirs
      requires IsListing(listing, entries)
      modifies this
      ensures var sf := StripTrailingSeparators(old(path));
              var target := NewFolderPath(sf);
              && (sf !in dirs ==>
                    outcome == NotADirectory && path == old(path) && entries == old(entries))
              && (sf in dirs && sf != target && !folderRenameOk ==>
                    outcome == FolderRenameFailed && path == old(path) && entries == old(entries))
              && (sf in dirs && (sf == target || folderRenameOk) ==>
                    && path == (if sf == target then old(path) else target)
                    && (listable ==>
                          outcome == Completed && entries == RenameFiles(old(entries), listing, denied))
                    && (!listable ==> outcome == ListingFailed && entries == old(entries)))
    {
      var sf := StripTrailingSeparators(path);
      if sf !in dirs {
        return NotADirectory;
      }
      var target := NewFolderPath(sf);
      if sf != target {
        if !folderRenameOk {
          return FolderRenameFailed;
        }
        path := target;
      }
      if !listable {
        return ListingFailed;
      }
      RenameFilesIn(listing, denied);
      outcome := Completed;
    }

    /**
     * The loop over `os.listdir(source_folder)`: each visible regular file whose name changes
     * is renamed unless the system refuses or the new name is taken; the folder stays put.
     */
    method RenameFilesIn(listing: seq<string>, denied: set<string>)
      modifies this
      ensures path == old(path)
      ensures entries == RenameFiles(old(entries), listing, denied)
    {
      var i := 0;
      while i < |listing|
        invariant 0 <= i <= |listing|
        invariant path == old(path)
        invariant entries == RenameFiles(old(entries), listing[..i], denied)
      {
        var name := listing[i];
        ghost var before := entries;
        if name in entries && entries[name] == RegularFile && !Hidden(name) {
          var newName := NewFileName(name);
          if newName != name && name !in denied && newName !in entries {
            entries := (entries - {name})[newName := RegularFile];
          }
        }
        assert entries == Step(before, name, denied);
        assert listing[..i + 1][..i] == listing[..i];
        i := i + 1;
      }
      assert listing[..i] == listing;
    }
  }
}

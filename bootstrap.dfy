/**
 * The start-up hook of src/houdinilab/scripts/python/pythonrc.py: it finds the newest Poetry
 * virtual environment of the project under the macOS Poetry cache, derives its
 * `site-packages` directory for the running interpreter's version, and puts that directory at
 * the front of `sys.path` unless it is missing or already there.
 *
 * The filesystem is abstract: the names in the virtual-environment directory (in the order
 * `glob` yields them), a map from paths to modification times, and the set of paths that are
 * directories. The home directory is a parameter.
 */
module PoetryBootstrap {

  import opened Wrappers
  import opened Text
  import opened Paths
  import HoudiniVersions

  /** The default of `project_env`. */
  const DefaultProjectEnv := "houdinilab"

  // ---------------------------------------------------------------------------------------
  // Names built from the interpreter version and the home directory
  // ---------------------------------------------------------------------------------------

  /** `f"{major}.{minor}"`. */
  function PyVer(major: nat, minor: nat): string {
    NatToString(major) + "." + NatToString(minor)
  }

  /** The version text reads back as the interpreter's two numbers. */
  lemma PyVerParses(major: nat, minor: nat)
    ensures HoudiniVersions.IsVersion(PyVer(major, minor))
    ensures HoudiniVersions.Key(PyVer(major, minor)) == [major, minor]
  {
    HoudiniVersions.VersionShape(NatToString(major), NatToString(minor));
    DecNatToString(major);
    DecNatToString(minor);
  }

  /** `os.path.join(home, "Library", "Caches", "pypoetry", "virtualenvs")`. */
  function VenvsDir(home: string): string {
    Join(Join(Join(Join(home, "Library"), "Caches"), "pypoetry"), "virtualenvs")
  }

  /** The join adds one separator after a home that lacks one, then one between the fixed names. */
  lemma VenvsDirShape(home: string)
    ensures VenvsDir(home) == WithSep(home) + "Library" + "/" + "Caches" + "/" + "pypoetry" + "/" + "virtualenvs"
  {
    var l := Join(home, "Library");
    assert l == WithSep(home) + "Library" && l[|l| - 1] == 'y' by { JoinRelative(home, "Library"); }
    var c := Join(l, "Caches");
    assert c == l + "/" + "Caches" && c[|c| - 1] == 's' by { JoinRelative(l, "Caches"); }
    var p := Join(c, "pypoetry");
    assert p == c + "/" + "pypoetry" && p[|p| - 1] == 'y' by { JoinRelative(c, "pypoetry"); }
    assert Join(p, "virtualenvs") == p + "/" + "virtualenvs" by { JoinRelative(p, "virtualenvs"); }
  }

  /** The text before the `*` of the pattern's last component. */
  function GlobPrefix(projectEnv: string): string {
    projectEnv + "-"
  }

  /** The text after the `*` of the pattern's last component. */
  function GlobSuffix(pyver: string): string {
    "-py" + pyver
  }

  /** `os.path.join(venvs_dir, f"{project_env}-*-py{pyver}")`. */
  function GlobPattern(home: string, projectEnv: string, pyver: string): string {
    Join(VenvsDir(home), GlobPrefix(projectEnv) + "*" + GlobSuffix(pyver))
  }

  /** Python 3.11 gives the version text `3.11`. */
  lemma PyVerExample()
    ensures PyVer(3, 11) == "3.11"
  {
    assert NatToString(11) == "11" by {
      assert NatToString(1) == "1";
    }
  }

  /**
   * The pattern is `<venvs_dir>/<project_env>-*-py<pyver>` (see `VenvsDirShape` for
   * `venvs_dir`), for a project name that does not start with a separator.
   */
  lemma GlobPatternShape(home: string, projectEnv: string, pyver: string)
    requires projectEnv == [] || projectEnv[0] != '/'
    ensures GlobPattern(home, projectEnv, pyver) == VenvsDir(home) + "/" + projectEnv + "-*-py" + pyver
  {
    var d := VenvsDir(home);
    assert d != [] && d[|d| - 1] == 's' by {
      VenvsDirShape(home);
    }
    PatternInDir(d, projectEnv, pyver);
  }

  /** The pattern's last component goes after the directory and one separator. */
  lemma PatternInDir(dir: string, projectEnv: string, pyver: string)
    requires dir != [] && dir[|dir| - 1] != '/'
    requires projectEnv == [] || projectEnv[0] != '/'
    ensures Join(dir, GlobPrefix(projectEnv) + "*" + GlobSuffix(pyver)) == dir + "/" + projectEnv + "-*-py" + pyver
  {
    var last := GlobPrefix(projectEnv) + "*" + GlobSuffix(pyver);
    assert last[0] != '/';
    assert last == projectEnv + "-*-py" + pyver;
  }

  // ---------------------------------------------------------------------------------------
  // `glob.glob` on a pattern with one `*`
  // ---------------------------------------------------------------------------------------

  /** `fnmatch` of `pre*suf` on a name: the name starts with `pre` and ends with `suf`, apart. */
  predicate StarMatch(pre: string, suf: string, name: string) {
    |pre| + |suf| <= |name| && pre <= name && name[|name| - |suf|..] == suf
  }

  /** The `*` stands for any text: a name matches exactly when it is `pre`, some text, `suf`. */
  lemma StarMatchMeaning(pre: string, suf: string, name: string)
    ensures StarMatch(pre, suf, name) <==> exists mid :: name == pre + mid + suf
  {
    if StarMatch(pre, suf, name) {
      var mid := name[|pre|..|name| - |suf|];
      assert name == name[..|pre|] + mid + name[|name| - |suf|..];
      assert name[..|pre|] == pre;
      assert name == pre + mid + suf;
    }
    if exists mid :: name == pre + mid + suf {
      var mid :| name == pre + mid + suf;
      assert (pre + mid + suf)[..|pre|] == pre;
      assert (pre + mid + suf)[|pre| + |mid|..] == suf;
    }
  }

  /**
   * The hyphen around the `*` is not shared: an environment name needs text (possibly
   * empty) between `houdinilab-` and `-py3.11`.
   */
  lemma StarMatchExamples()
    ensures StarMatch(GlobPrefix(DefaultProjectEnv), GlobSuffix("3.11"), "houdinilab-Xk3dQ9zP-py3.11")
    ensures StarMatch(GlobPrefix(DefaultProjectEnv), GlobSuffix("3.11"), "houdinilab--py3.11")
    ensures !StarMatch(GlobPrefix(DefaultProjectEnv), GlobSuffix("3.11"), "houdinilab-py3.11")
    ensures !StarMatch(GlobPrefix(DefaultProjectEnv), GlobSuffix("3.11"), "houdinilab-Xk3dQ9zP-py3.10")
    ensures !StarMatch(GlobPrefix(DefaultProjectEnv), GlobSuffix("3.11"), "otherproj-Xk3dQ9zP-py3.11")
  {
    assert "houdinilab-Xk3dQ9zP-py3.11"[19..] == "-py3.11";
    assert "houdinilab--py3.11"[11..] == "-py3.11";
    assert "houdinilab-Xk3dQ9zP-py3.10"[19..][6] == '0';
    assert "otherproj-Xk3dQ9zP-py3.11"[0] != 'h';
  }

  /** The paths `glob` returns: each matching name joined to the directory, in listing order. */
  function Glob(dir: string, names: seq<string>, pre: string, suf: string): seq<string>
    decreases |names|
  {
    if names == [] then []
    else
      var rest := Glob(dir, names[..|names| - 1], pre, suf);
      var name := names[|names| - 1];
      if StarMatch(pre, suf, name) then rest + [Join(dir, name)] else rest
  }

  /** Every returned path is a matching name joined to the directory. */
  lemma {:induction false} GlobSound(dir: string, names: seq<string>, pre: string, suf: string, m: string)
    requires m in Glob(dir, names, pre, suf)
    ensures exists i :: 0 <= i < |names| && StarMatch(pre, suf, names[i]) && m == Join(dir, names[i])
    decreases |names|
  {
    var init := names[..|names| - 1];
    var name := names[|names| - 1];
    if !(StarMatch(pre, suf, name) && m == Join(dir, name)) {
      assert m in Glob(dir, init, pre, suf);
      GlobSound(dir, init, pre, suf, m);
      var i :| 0 <= i < |init| && StarMatch(pre, suf, init[i]) && m == Join(dir, init[i]);
      assert names[i] == init[i];
    }
  }

  /** Every matching name, joined to the directory, is returned. */
  lemma {:induction false} GlobComplete(dir: string, names: seq<string>, pre: string, suf: string, i: nat)
    requires i < |names| && StarMatch(pre, suf, names[i])
    ensures Join(dir, names[i]) in Glob(dir, names, pre, suf)
    decreases |names|
  {
    var init := names[..|names| - 1];
    if i < |names| - 1 {
      assert init[i] == names[i];
      GlobComplete(dir, init, pre, suf, i);
    }
  }

  /** A path is returned exactly when it is a matching name joined to the directory. */
  lemma GlobMembers(dir: string, names: seq<string>, pre: string, suf: string)
    ensures forall m :: m in Glob(dir, names, pre, suf) <==>
              exists i :: 0 <= i < |names| && StarMatch(pre, suf, names[i]) && m == Join(dir, names[i])
  {
    forall m | m in Glob(dir, names, pre, suf)
      ensures exists i :: 0 <= i < |names| && StarMatch(pre, suf, names[i]) && m == Join(dir, names[i])
    {
      GlobSound(dir, names, pre, suf, m);
    }
    forall i | 0 <= i < |names| && StarMatch(pre, suf, names[i]) {
      GlobComplete(dir, names, pre, suf, i);
    }
  }

  /** Nothing is returned exactly when no name matches. */
  lemma GlobEmpty(dir: string, names: seq<string>, pre: string, suf: string)
    ensures Glob(dir, names, pre, suf) == [] <==> forall i :: 0 <= i < |names| ==> !StarMatch(pre, suf, names[i])
  {
    if Glob(dir, names, pre, suf) == [] {
      forall i | 0 <= i < |names| ensures !StarMatch(pre, suf, names[i]) {
        if StarMatch(pre, suf, names[i]) {
          GlobComplete(dir, names, pre, suf, i);
        }
      }
    } else {
      GlobSound(dir, names, pre, suf, Glob(dir, names, pre, suf)[0]);
    }
  }

  // ---------------------------------------------------------------------------------------
  // The newest environment and its site-packages directory
  // ---------------------------------------------------------------------------------------

  /**
   * The position of `sorted(paths, key=getmtime, reverse=True)[0]`. The sort is stable and
   * `reverse` keeps equal keys in their original order, so it is the first path with the
   * largest modification time.
   */
  function NewestIndex(paths: seq<string>, mtime: map<string, int>): (k: nat)
    requires paths != [] && forall i :: 0 <= i < |paths| ==> paths[i] in mtime
    ensures k < |paths|
    ensures forall j :: 0 <= j < |paths| ==> mtime[paths[j]] <= mtime[paths[k]]
    ensures forall j :: 0 <= j < k ==> mtime[paths[j]] < mtime[paths[k]]
    decreases |paths|
  {
    if |paths| == 1 then 0
    else
      var k := NewestIndex(paths[..|paths| - 1], mtime);
      if mtime[paths[k]] < mtime[paths[|paths| - 1]] then |paths| - 1 else k
  }

  /** An older environment never wins, and of two equally new ones the earlier listed wins. */
  lemma NewestExample(mtime: map<string, int>)
    requires mtime == map["a" := 5, "b" := 9, "c" := 9]
    ensures NewestIndex(["a", "b", "c"], mtime) == 1
  {
    var k := NewestIndex(["a", "b", "c"], mtime);
    assert ["a", "b", "c"][1] == "b";
    assert k != 0 && k != 2;
  }

  /** `os.path.join(venv_path, "lib", f"python{pyver}", "site-packages")`. */
  function SitePackages(venv: string, pyver: string): string {
    Join(Join(Join(venv, "lib"), "python" + pyver), "site-packages")
  }

  /** The site-packages directory is `<venv>/lib/python<pyver>/site-packages`. */
  lemma SitePackagesShape(venv: string, pyver: string)
    requires pyver == [] || pyver[|pyver| - 1] != '/'
    ensures SitePackages(venv, pyver) == WithSep(venv) + "lib" + "/" + ("python" + pyver) + "/" + "site-packages"
  {
    var py := "python" + pyver;
    var l := Join(venv, "lib");
    assert l == WithSep(venv) + "lib" && l[|l| - 1] == 'b' by { JoinRelative(venv, "lib"); }
    var p := Join(l, py);
    assert p == l + "/" + py && p[|p| - 1] != '/' by {
      JoinRelative(l, py);
      assert py[|py| - 1] != '/';
    }
    assert Join(p, "site-packages") == p + "/" + "site-packages" by { JoinRelative(p, "site-packages"); }
  }

  /** The interpreter's version text never ends with a separator. */
  lemma PyVerNoTrailingSep(major: nat, minor: nat)
    ensures PyVer(major, minor)[|PyVer(major, minor)| - 1] != '/'
  {
    var t := NatToString(minor);
    assert PyVer(major, minor)[|PyVer(major, minor)| - 1] == t[|t| - 1];
  }

  /**
   * The directory the function would add, or `None` when no environment matches; it does not
   * yet say whether that directory exists.
   */
  function Candidate(home: string, projectEnv: string, pyver: string, venvNames: seq<string>,
                     mtime: map<string, int>): Option<string>
    requires forall m :: m in Glob(VenvsDir(home), venvNames, GlobPrefix(projectEnv), GlobSuffix(pyver)) ==> m in mtime
  {
    var matches := Glob(VenvsDir(home), venvNames, GlobPrefix(projectEnv), GlobSuffix(pyver));
    if matches == [] then None
    else Some(SitePackages(matches[NewestIndex(matches, mtime)], pyver))
  }

  /** There is no candidate exactly when no name matches. */
  lemma CandidateNone(home: string, projectEnv: string, pyver: string, venvNames: seq<string>,
                      mtime: map<string, int>)
    requires forall m :: m in Glob(VenvsDir(home), venvNames, GlobPrefix(projectEnv), GlobSuffix(pyver)) ==> m in mtime
    ensures Candidate(home, projectEnv, pyver, venvNames, mtime).None? <==>
            forall i :: 0 <= i < |venvNames| ==> !StarMatch(GlobPrefix(projectEnv), GlobSuffix(pyver), venvNames[i])
  {
    GlobEmpty(VenvsDir(home), venvNames, GlobPrefix(projectEnv), GlobSuffix(pyver));
  }

  /**
   * A candidate is the site-packages directory of the matching environment at index `i`,
   * and no matching environment is newer than that one.
   */
  lemma CandidateNewest(home: string, projectEnv: string, pyver: string, venvNames: seq<string>,
                        mtime: map<string, int>)
    requires forall m :: m in Glob(VenvsDir(home), venvNames, GlobPrefix(projectEnv), GlobSuffix(pyver)) ==> m in mtime
    ensures var c := Candidate(home, projectEnv, pyver, venvNames, mtime);
            c.Some? ==> exists i :: 0 <= i < |venvNames| && Newest(home, projectEnv, pyver, venvNames, mtime, i) &&
                                    c.value == SitePackages(Join(VenvsDir(home), venvNames[i]), pyver)
  {
    var dir, pre, suf := VenvsDir(home), GlobPrefix(projectEnv), GlobSuffix(pyver);
    var matches := Glob(dir, venvNames, pre, suf);
    if matches != [] {
      var k := NewestIndex(matches, mtime);
      GlobSound(dir, venvNames, pre, suf, matches[k]);
      var i :| 0 <= i < |venvNames| && StarMatch(pre, suf, venvNames[i]) && matches[k] == Join(dir, venvNames[i]);
      forall j | 0 <= j < |venvNames| && StarMatch(pre, suf, venvNames[j])
        ensures Join(dir, venvNames[j]) in mtime && mtime[Join(dir, venvNames[j])] <= mtime[Join(dir, venvNames[i])]
      {
        GlobComplete(dir, venvNames, pre, suf, j);
      }
      assert Newest(home, projectEnv, pyver, venvNames, mtime, i);
    }
  }

  /** The name at `i` matches and no matching name has a newer environment. */
  ghost predicate Newest(home: string, projectEnv: string, pyver: string, venvNames: seq<string>,
                         mtime: map<string, int>, i: nat)
    requires i < |venvNames|
  {
    var dir, pre, suf := VenvsDir(home), GlobPrefix(projectEnv), GlobSuffix(pyver);
    && StarMatch(pre, suf, venvNames[i])
    && Join(dir, venvNames[i]) in mtime
    && forall j :: 0 <= j < |venvNames| && StarMatch(pre, suf, venvNames[j]) ==>
         Join(dir, venvNames[j]) in mtime && mtime[Join(dir, venvNames[j])] <= mtime[Join(dir, venvNames[i])]
  }

  // ---------------------------------------------------------------------------------------
  // The effect on `sys.path`
  // ---------------------------------------------------------------------------------------

  /**
   * `sys.path` after the function: the candidate in front when it is a directory not yet on
   * the path, the old path otherwise.
   */
  function WithSitePackages(sysPath: seq<string>, candidate: Option<string>, dirs: set<string>): seq<string> {
    match candidate
    case None => sysPath
    case Some(site) => if site in dirs && site !in sysPath then [site] + sysPath else sysPath
  }

  predicate NoDuplicates(s: seq<string>) {
    forall i, j :: 0 <= i < j < |s| ==> s[i] != s[j]
  }

  /**
   * The path changes exactly when there is a candidate that is a directory and not on the
   * path; then the candidate comes first and every old entry follows in its old order.
   */
  lemma WithSitePackagesSpec(sysPath: seq<string>, candidate: Option<string>, dirs: set<string>)
    ensures var r := WithSitePackages(sysPath, candidate, dirs);
            r != sysPath <==> candidate.Some? && candidate.value in dirs && candidate.value !in sysPath
    ensures var r := WithSitePackages(sysPath, candidate, dirs);
            r != sysPath ==> |r| == |sysPath| + 1 && r[0] == candidate.value && r[1..] == sysPath
  {
    var r := WithSitePackages(sysPath, candidate, dirs);
    if candidate.Some? && candidate.value in dirs && candidate.value !in sysPath {
      assert r[0] !in sysPath;
    }
  }

  /** No duplicate is introduced. */
  lemma WithSitePackagesKeepsDistinct(sysPath: seq<string>, candidate: Option<string>, dirs: set<string>)
    requires NoDuplicates(sysPath)
    ensures NoDuplicates(WithSitePackages(sysPath, candidate, dirs))
  {
    var r := WithSitePackages(sysPath, candidate, dirs);
    if r != sysPath {
      forall i, j | 0 <= i < j < |r| ensures r[i] != r[j] {
        if i == 0 {
          assert r[j] == sysPath[j - 1];
        } else {
          assert r[i] == sysPath[i - 1] && r[j] == sysPath[j - 1];
        }
      }
    }
  }

  /** A second run with the same filesystem changes nothing. */
  lemma WithSitePackagesIdempotent(sysPath: seq<string>, candidate: Option<string>, dirs: set<string>)
    ensures var once := WithSitePackages(sysPath, candidate, dirs);
            WithSitePackages(once, candidate, dirs) == once
  {
    var once := WithSitePackages(sysPath, candidate, dirs);
    if candidate.Some? && candidate.value in dirs && candidate.value !in sysPath {
      assert once[0] == candidate.value;
    }
  }

  /** The running interpreter: its version and its module search path. */
  class Interpreter {
    const major: nat
    const minor: nat
    var path: seq<string>

    constructor(major: nat, minor: nat, path: seq<string>)
      ensures this.major == major && this.minor == minor && this.path == path
    {
      this.major := major;
      this.minor := minor;
      this.path := path;
    }

    /**
     * `add_poetry_site_packages(project_env)`: returns early, leaving `sys.path` alone, when
     * no environment matches or the site-packages directory is missing; otherwise inserts it
     * at index 0 unless it is already on the path.
     */
    method AddPoetrySitePackages(home: string, projectEnv: string, venvNames: seq<string>,
                                 mtime: map<string, int>, dirs: set<string>)
      requires forall m :: m in Glob(VenvsDir(home), venvNames, GlobPrefix(projectEnv), GlobSuffix(PyVer(major, minor))) ==> m in mtime
      modifies this
      ensures path == WithSitePackages(old(path), Candidate(home, projectEnv, PyVer(major, minor), venvNames, mtime), dirs)
    {
      var venvsDir := VenvsDir(home);
      var pyver := PyVer(major, minor);
      var matches := Glob(venvsDir, venvNames, GlobPrefix(projectEnv), GlobSuffix(pyver));
      if matches == [] {
        return;
      }
      var venvPath := matches[NewestIndex(matches, mtime)];
      var sitePkgs := SitePackages(venvPath, pyver);
      if sitePkgs in dirs {
        if sitePkgs !in path {
          path := [sitePkgs] + path;
        }
      }
    }

    /** What loading the file does: the hook runs once with the default project name. */
    method Startup(home: string, venvNames: seq<string>, mtime: map<string, int>, dirs: set<string>)
      requires forall m :: m in Glob(VenvsDir(home), venvNames, GlobPrefix(DefaultProjectEnv), GlobSuffix(PyVer(major, minor))) ==> m in mtime
      modifies this
      ensures path == WithSitePackages(old(path), Candidate(home, DefaultProjectEnv, PyVer(major, minor), venvNames, mtime), dirs)
    {
      AddPoetrySitePackages(home, DefaultProjectEnv, venvNames, mtime, dirs);
    }
  }

  /** Running the hook twice leaves the same path as running it once. */
  method RunTwice(py: Interpreter, home: string, projectEnv: string, venvNames: seq<string>,
                  mtime: map<string, int>, dirs: set<string>)
    requires forall m :: m in Glob(VenvsDir(home), venvNames, GlobPrefix(projectEnv), GlobSuffix(PyVer(py.major, py.minor))) ==> m in mtime
    modifies py
    ensures py.path == WithSitePackages(old(py.path), Candidate(home, projectEnv, PyVer(py.major, py.minor), venvNames, mtime), dirs)
  {
    py.AddPoetrySitePackages(home, projectEnv, venvNames, mtime, dirs);
    ghost var once := py.path;
    py.AddPoetrySitePackages(home, projectEnv, venvNames, mtime, dirs);
    WithSitePackagesIdempotent(old(py.path), Candidate(home, projectEnv, PyVer(py.major, py.minor), venvNames, mtime), dirs);
  }
}

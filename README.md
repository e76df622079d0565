# houdiniLab helper scripts in Dafny

This project models three small Python scripts from the houdiniLab repository and proves what
they promise. The filesystem, the interpreter and the operating system are abstract inputs.

- **The debug renamer** (`houdinilab/textureTools/debug_script.py`, module `Rename`, file
  `rename.dfy`).
  - `rename_debug` strips trailing `/` and `\` from the folder path.
  - It renames the folder's last component with `re.sub(r'[.\s-]', '_', ...)`.
  - It then renames every visible regular file inside the folder the same way, keeping the
    last extension.
  - A failing rename is logged and the loop goes on.
  - The folder is the class `Folder`, whose `path` and `entries` the method `RenameDebug`
    updates. The loop over `os.listdir` is a `while` loop proved against the specification
    function `RenameFiles`.
- **The Houdini version detector** (`tests/get_hou_version.py`, module `HoudiniVersions`,
  file `versions.dfy`).
  - It collects the `major.minor` capture of every installation directory that matches the
    platform pattern.
  - It picks the numerically latest capture with `max(..., key=list(map(int, v.split('.'))))`.
  - It reads the version behind the macOS `Current` symbolic link.
- **The Poetry start-up hook** (`src/houdinilab/scripts/python/pythonrc.py`, module
  `PoetryBootstrap`, file `bootstrap.dfy`).
  - It builds the glob `<home>/Library/Caches/pypoetry/virtualenvs/<project_env>-*-py<X.Y>`.
  - It picks the most recently modified match and derives its `lib/pythonX.Y/site-packages`.
  - It inserts that directory at the front of `sys.path` if it is a directory and is not
    already on the path.
  - `sys.path` is the field `path` of the class `Interpreter`.

Shared modules:
- `Text` (`text.dfy`): ASCII digits, decimal parsing and formatting, `str.rstrip`.
- `Paths` (`paths.dfy`): POSIX `os.path.basename`, `dirname` and `join`.
- `Wrappers` (`wrappers.dfy`): `Option`.

Inputs stand in for the environment:
- Which paths are directories is a set.
- A directory listing is a sequence in `os.listdir` order. A folder's contents are a map from
  entry names to kinds.
- Whether an existing path can be listed is a boolean. `os.listdir` raises for a regular file or
  a directory without read permission.
- Whether a rename succeeds is an oracle: a boolean for the folder, a set of refused names for
  the files.
- Modification times are a map. Symbolic links are a map from link path to target.
- The home directory and the interpreter's version are parameters.

## Model

| member | source | states |
|---|---|---|
| Text.RStrip | houdinilab/textureTools/debug_script.py:12 | `rstrip` gives a prefix of the path that does not end in a stripped character, and removes only stripped characters |
| Text.NatToString | src/houdinilab/scripts/python/pythonrc.py:16 | an interpolated version number is a non-empty run of digits with no leading zero |
| Text.DecNatToString | src/houdinilab/scripts/python/pythonrc.py:16 | parsing the interpolated number gives the number back |
| Text.Dec | tests/get_hou_version.py:17 | `int()` of each piece of a version: the decimal value of a run of digits, leading zeros allowed (stated through `KeyOf` and `DecNatToString`) |
| Paths.Basename | houdinilab/textureTools/debug_script.py:21 | `os.path.basename`: the text after the last `/` |
| Paths.Dirname | houdinilab/textureTools/debug_script.py:20 | `os.path.dirname`: the text up to the last `/`, trailing slashes removed unless it is all slashes |
| Paths.Join | houdinilab/textureTools/debug_script.py:30 | `os.path.join(a, b)`: `b` when it is absolute, otherwise `a` and `b` with one `/` between them unless `a` is empty or ends with one |
| Paths.ComponentStart | houdinilab/textureTools/debug_script.py:21 | `basename` starts after the last `/`: no `/` follows that point, and a `/` precedes it unless it is 0 |
| Paths.JoinDirname | houdinilab/textureTools/debug_script.py:20-30 | joining `dirname(p)` with a plain name gives a path with that name as basename and the same dirname |
| Paths.ComponentStartAfter | houdinilab/textureTools/debug_script.py:21 | a slash-free name appended after a slash is the last component |
| Paths.DirnameShape | houdinilab/textureTools/debug_script.py:20 | a directory name is empty, all slashes, or does not end with a slash |
| Paths.JoinRelative | src/houdinilab/scripts/python/pythonrc.py:13 | joining a relative name puts one separator between the parts unless the first is empty or ends with one, and the result ends like the name |
| Rename.Normalise | houdinilab/textureTools/debug_script.py:23 | `re.sub(r'[.\s-]', '_', s)`: each dot, whitespace character or hyphen replaced by `_` |
| Rename.NormaliseSpec | houdinilab/textureTools/debug_script.py:23 | `re.sub(r'[.\s-]', '_', s)` keeps the length; every dot, whitespace or hyphen becomes `_`; every other character stays in place |
| Rename.NormaliseIdempotent | houdinilab/textureTools/debug_script.py:23 | the output holds no dot, whitespace or hyphen, so a second substitution changes nothing |
| Rename.NormaliseFixedPoints | houdinilab/textureTools/debug_script.py:23 | the substitution leaves a name unchanged exactly when it holds no dot, whitespace or hyphen |
| Rename.NormaliseOf | houdinilab/textureTools/debug_script.py:23 | a string of the same length that agrees with the substitution character by character is its result |
| Rename.NormaliseLast | houdinilab/textureTools/debug_script.py:23 | the last character of the result is the substituted last character |
| Rename.NormaliseExample | houdinilab/textureTools/debug_script.py:23 | `My Folder.v2` becomes `My_Folder_v2` |
| Rename.SplitExt | houdinilab/textureTools/debug_script.py:50 | `os.path.splitext` of a name: stem and extension, split at the last dot unless only dots precede it |
| Rename.LastDot | houdinilab/textureTools/debug_script.py:50 | the index of the last dot, or -1 when there is none |
| Rename.SplitExtSpec | houdinilab/textureTools/debug_script.py:50 | `splitext`: stem plus extension is the name; the extension is empty exactly when no dot follows a non-dot; otherwise it is one dot and no other; a stem of only dots never has an extension |
| Rename.NewFileName | houdinilab/textureTools/debug_script.py:50-51 | the normalised stem followed by the original extension |
| Rename.SplitNewFileName | houdinilab/textureTools/debug_script.py:50-51 | splitting the new file name gives the normalised stem and the original extension |
| Rename.NewFileNameIdempotent | houdinilab/textureTools/debug_script.py:50-55 | renaming a renamed file name again gives the same name, so line 54 skips it |
| Rename.NewFileNameShape | houdinilab/textureTools/debug_script.py:49-51 | the new name has the old length, and a visible name stays visible |
| Rename.SplitExtExample | houdinilab/textureTools/debug_script.py:50 | `tex-map.1001.exr` splits into `tex-map.1001` and `.exr` |
| Rename.NewFileNameExample | houdinilab/textureTools/debug_script.py:50-51 | `tex-map.1001.exr` becomes `tex_map_1001` followed by `.exr` |
| Rename.StripTrailingSeparators | houdinilab/textureTools/debug_script.py:12 | `rstrip('/\\')` of the folder argument |
| Rename.NewFolderPath | houdinilab/textureTools/debug_script.py:20-30 | the parent directory joined with the normalised last component |
| Rename.FolderNameNonEmpty | houdinilab/textureTools/debug_script.py:26-28 | once the stripped path is non-empty, the new folder name is non-empty, so the "New folder name is empty" branch is never taken |
| Rename.NewFolderPathSpec | houdinilab/textureTools/debug_script.py:20-30 | the new folder path keeps the parent directory and has the normalised name as last component; it equals the old path only when the name needed no change |
| Rename.NewFolderPathEnds | houdinilab/textureTools/debug_script.py:20-30 | the new folder path ends with the substituted last character of the old one |
| Rename.NewFolderPathStripped | houdinilab/textureTools/debug_script.py:12-30 | the new path of a stripped folder ends in neither `/` nor `\`, so stripping it again changes nothing |
| Rename.NewFolderPathFixed | houdinilab/textureTools/debug_script.py:20-30 | the new path of a folder is its own new path |
| Rename.FolderRenameIdempotent | houdinilab/textureTools/debug_script.py:12-37 | a second run on the renamed folder strips nothing and computes the same path, so it renames no folder |
| Rename.Step | houdinilab/textureTools/debug_script.py:49-63 | one iteration: a visible regular file whose new name differs moves to it, unless the rename is refused or the target is taken |
| Rename.StepAsWritten | houdinilab/textureTools/debug_script.py:49-63 | one iteration under POSIX `rename`: as `Step`, except that a target that is not a directory is replaced |
| Rename.RenameFiles | houdinilab/textureTools/debug_script.py:47-63 | the folder after the loop: `Step` applied to each listed name in turn |
| Rename.StepAsWrittenOverwrites | houdinilab/textureTools/debug_script.py:57-58 | under POSIX `rename`, a file whose new name is taken by a non-directory replaces it, and the folder has one entry fewer |
| Rename.StepAsWrittenLosesFile | houdinilab/textureTools/debug_script.py:57-58 | under POSIX `rename`, renaming `a-b` next to an existing `a_b` replaces it, and the folder loses an entry |
| Rename.NewFileNameNoDot | houdinilab/textureTools/debug_script.py:50-51 | a name with no dot has no extension and is normalised whole |
| Rename.StepKeepsCount | houdinilab/textureTools/debug_script.py:57-63 | one loop iteration keeps the number of entries |
| Rename.RenameFilesKeepsCount | houdinilab/textureTools/debug_script.py:47-63 | the whole loop keeps the number of entries, so no file is lost |
| Rename.StepFramed | houdinilab/textureTools/debug_script.py:47-63 | one iteration preserves the loop's frame invariant |
| Rename.StepFramedRenamed | houdinilab/textureTools/debug_script.py:57-58 | a successful rename keeps the frame invariant, with the renamed file among the visited names |
| Rename.RenameFilesFrame | houdinilab/textureTools/debug_script.py:47-63 | after any prefix of the listing, the folder satisfies the frame invariant |
| Rename.RenameFilesKeepsOthers | houdinilab/textureTools/debug_script.py:47-63 | hidden entries, non-files and already-normalised files keep their name and kind; a renamable file is still there or has moved to its new name; no other entry appears |
| Rename.StepRenames | houdinilab/textureTools/debug_script.py:57-58 | without clashes, visiting a renamable, unrefused, unvisited file renames it |
| Rename.StepKeepsRenamed | houdinilab/textureTools/debug_script.py:47-63 | a later iteration never undoes an earlier rename |
| Rename.RenameFilesComplete | houdinilab/textureTools/debug_script.py:57-63 | without clashes, every listed file that needs renaming and is not refused is renamed, however many renames before it failed |
| Rename.SettledUnchanged | houdinilab/textureTools/debug_script.py:54-55 | a folder whose visible files all have normalised names is left exactly as it is |
| Rename.RenameFilesSettles | houdinilab/textureTools/debug_script.py:47-63 | without clashes or refusals, one pass over the full listing settles the folder, so a second run renames nothing |
| Rename.Folder.RenameFilesIn | houdinilab/textureTools/debug_script.py:46-67 | the loop over the listing leaves the path alone and sets the entries to `RenameFiles` of the old entries over the listing |
| Rename.Folder.RenameDebug | houdinilab/textureTools/debug_script.py:9-67 | for each way out (not a directory, folder rename failed, listing failed, completed), the outcome, the new path and the new entries; when it completes, the entries equal `RenameFiles` of the old entries over the listing |
| HoudiniVersions.Split | tests/get_hou_version.py:17 | `v.split('.')`: the pieces between dots, empty ones included |
| HoudiniVersions.JoinSplit | tests/get_hou_version.py:17 | joining `v.split('.')` with dots gives `v`, and no piece holds a dot |
| HoudiniVersions.SplitJoin | tests/get_hou_version.py:17 | splitting dot-free pieces joined with dots gives the pieces back |
| HoudiniVersions.SplitNoDot | tests/get_hou_version.py:17 | `split('.')` of a dot-free string is that string alone |
| HoudiniVersions.SplitDotted | tests/get_hou_version.py:17 | `split('.')` of a dot-free piece, a dot and the rest gives the piece, then the pieces of the rest |
| HoudiniVersions.Key | tests/get_hou_version.py:17 | the key has one number per dot-separated piece |
| HoudiniVersions.KeyOf | tests/get_hou_version.py:17 | two numbers joined by a dot form a version whose key is their two values |
| HoudiniVersions.Less | tests/get_hou_version.py:17 | Python's `<` on lists of integers: the first differing element decides, and a proper prefix is smaller |
| HoudiniVersions.LessIrreflexive | tests/get_hou_version.py:17 | list comparison: no key is less than itself |
| HoudiniVersions.LessTransitive | tests/get_hou_version.py:17 | list comparison is transitive |
| HoudiniVersions.LessTotal | tests/get_hou_version.py:17 | any two different keys are ordered one way or the other |
| HoudiniVersions.LessIsStrictTotalOrder | tests/get_hou_version.py:17 | list comparison is a strict total order |
| HoudiniVersions.LessAfterMax | tests/get_hou_version.py:17 | a key above the current maximum is above every key the maximum is not below |
| HoudiniVersions.MaxIndex | tests/get_hou_version.py:17 | `max` with a key picks an element whose key nothing exceeds, the first such |
| HoudiniVersions.MaxIndexExtend | tests/get_hou_version.py:17 | one more element replaces the running maximum only when its key is strictly larger, and the result is again the first maximal element |
| HoudiniVersions.MaxIndexOfVersions | tests/get_hou_version.py:17 | the maximum of the keys is the version whose key no version exceeds, the first such |
| HoudiniVersions.LatestVersion | tests/get_hou_version.py:16-18 | `None` exactly for no versions; otherwise a listed version, numerically maximal, the first maximal one |
| HoudiniVersions.LatestExampleNumeric | tests/get_hou_version.py:17 | `10.0` beats `9.5`: the comparison is numeric, not textual |
| HoudiniVersions.EqualKeysExample | tests/get_hou_version.py:17 | `20.5` and `20.05` both have the key `[20, 5]` |
| HoudiniVersions.LatestOfTie | tests/get_hou_version.py:17 | of two versions with equal keys, such as `20.5` and `20.05`, the one listed first wins |
| HoudiniVersions.DigitRun | tests/get_hou_version.py:34 | the greedy `\d+` takes a run of digits followed by a non-digit or the end |
| HoudiniVersions.NumberEnd | tests/get_hou_version.py:34 | where the greedy `\d+` starting at a position stops |
| HoudiniVersions.VersionShape | tests/get_hou_version.py:34 | two numbers around a dot form a `major.minor` version and split back into the two numbers |
| HoudiniVersions.NumberEndOf | tests/get_hou_version.py:34 | `\d+` stops exactly after a digit run that a non-digit follows |
| HoudiniVersions.MatchAfterSound | tests/get_hou_version.py:9 | what the scanner captures after the literal has the pattern's meaning |
| HoudiniVersions.MatchAfterAccepts | tests/get_hou_version.py:9 | the scanner captures everything up to the second dot when both numbers are present and a digit follows |
| HoudiniVersions.CaptureNumbers | tests/get_hou_version.py:9 | for a string with the pattern's meaning, where each greedy `\d+` stops and that a dot follows each |
| HoudiniVersions.MatchAfterComplete | tests/get_hou_version.py:9 | when the pattern's meaning holds, the scanner captures exactly that version |
| HoudiniVersions.MatchVersion | tests/get_hou_version.py:9 | `re.match(pattern, s).group(1)` for the platform's pattern: the literal, then greedy `\d+`, a dot, greedy `\d+`, a dot and a digit, anchored at the start only |
| HoudiniVersions.MatchAfter | tests/get_hou_version.py:9 | the scanner for `re.match` after a literal prefix (`Houdini ` on line 34, `Houdini` on line 38): its captures are exactly the versions the pattern's meaning admits (`MatchAfterSound`, `MatchAfterComplete`) |
| HoudiniVersions.MatchVersionSound | tests/get_hou_version.py:34-38 | a capture is preceded by the platform's literal and followed by `.` and a digit, and it is a `major.minor` version |
| HoudiniVersions.MatchVersionComplete | tests/get_hou_version.py:34-38 | every string with that shape is matched with that capture |
| HoudiniVersions.MatchVersionCorrect | tests/get_hou_version.py:34-38 | `re.match(pattern, s).group(1) == cap` exactly when `s` has that shape |
| HoudiniVersions.PatternExamples | tests/get_hou_version.py:34-38 | each platform's spelling is matched only by its own pattern; trailing text is allowed; a missing third number fails the match |
| HoudiniVersions.Collect | tests/get_hou_version.py:8-11 | the present results of a function over the listing, in listing order |
| HoudiniVersions.Captures | tests/get_hou_version.py:8-11 | the `group(1)` of every listed name that the pattern matches, in listing order |
| HoudiniVersions.CollectAppend | tests/get_hou_version.py:8-11 | collecting over a concatenated listing gives the results of the parts, in order |
| HoudiniVersions.CollectSound | tests/get_hou_version.py:8-11 | every collected value is the result for some listed name |
| HoudiniVersions.CollectComplete | tests/get_hou_version.py:8-11 | the result for every listed name that has one is collected |
| HoudiniVersions.CapturesMembers | tests/get_hou_version.py:5-12 | a version is collected exactly when some listed name matches with that capture |
| HoudiniVersions.CapturesAreVersions | tests/get_hou_version.py:9-11 | every collected string is a `major.minor` version |
| HoudiniVersions.CapturesEmpty | tests/get_hou_version.py:5-12 | nothing is collected exactly when no listed name matches |
| HoudiniVersions.GetHoudiniVersions | tests/get_hou_version.py:5-12 | no base directory gives `[]`; a base directory that cannot be listed raises; otherwise the loop collects the captures of the listing in listing order; the result equals `Versions` |
| HoudiniVersions.Versions | tests/get_hou_version.py:5-12 | what `get_houdini_versions` returns: `[]` without a base directory, the `os.listdir` exception when it cannot be listed, else the captures in listing order; `GetHoudiniVersions` is proved equal to it |
| HoudiniVersions.GetLatestHoudiniVersion | tests/get_hou_version.py:14-18 | raises exactly when the base directory exists and cannot be listed; otherwise `None` exactly when it is missing or nothing matches, and else a collected version that no collected version exceeds numerically |
| HoudiniVersions.CurrentPath | tests/get_hou_version.py:21 | `os.path.join(base_dir, 'Current')` |
| HoudiniVersions.GetCurrentHoudiniVersion | tests/get_hou_version.py:20-28 | a version exactly when `base_dir/Current` is a link whose target's last component matches, and then it is that capture |
| HoudiniVersions.MacCurrentExample | tests/get_hou_version.py:20-28 | for any base directory such as `/Applications/Houdini`, a `Current` link to `.../Houdini20.5.278` gives `20.5` |
| HoudiniVersions.MacBaseDirExample | tests/get_hou_version.py:37-38 | with the macOS base directory `/Applications/Houdini`, a `Current` link to `/Applications/Houdini/Houdini20.5.278` gives `20.5` |
| PoetryBootstrap.PyVer | src/houdinilab/scripts/python/pythonrc.py:16 | `f"{major}.{minor}"` of the interpreter's version |
| PoetryBootstrap.PyVerParses | src/houdinilab/scripts/python/pythonrc.py:16 | the version text is a `major.minor` version whose numbers are the interpreter's |
| PoetryBootstrap.PyVerExample | src/houdinilab/scripts/python/pythonrc.py:16 | Python 3.11 gives `3.11` |
| PoetryBootstrap.VenvsDir | src/houdinilab/scripts/python/pythonrc.py:13 | `os.path.join(home, "Library", "Caches", "pypoetry", "virtualenvs")` |
| PoetryBootstrap.VenvsDirShape | src/houdinilab/scripts/python/pythonrc.py:13 | the Poetry cache is `<home>/Library/Caches/pypoetry/virtualenvs`, with one separator after the home |
| PoetryBootstrap.PatternInDir | src/houdinilab/scripts/python/pythonrc.py:17 | the pattern's last component follows the directory after one separator |
| PoetryBootstrap.GlobPattern | src/houdinilab/scripts/python/pythonrc.py:17 | `os.path.join(venvs_dir, f"{project_env}-*-py{pyver}")` |
| PoetryBootstrap.GlobPatternShape | src/houdinilab/scripts/python/pythonrc.py:17 | the pattern is `<venvs_dir>/<project_env>-*-py<pyver>` |
| PoetryBootstrap.StarMatch | src/houdinilab/scripts/python/pythonrc.py:18 | whether a name matches `pre*suf`: long enough, starting with `pre` and ending with `suf` without overlap |
| PoetryBootstrap.StarMatchMeaning | src/houdinilab/scripts/python/pythonrc.py:18 | a name matches `pre*suf` exactly when it is `pre`, some text, then `suf` |
| PoetryBootstrap.StarMatchExamples | src/houdinilab/scripts/python/pythonrc.py:15-18 | `houdinilab-<hash>-py3.11` matches; `houdinilab-py3.11`, another Python version and another project do not |
| PoetryBootstrap.Glob | src/houdinilab/scripts/python/pythonrc.py:18 | `glob.glob` of `<dir>/pre*suf`: each matching name of the directory's listing, joined to the directory, in listing order |
| PoetryBootstrap.GlobSound | src/houdinilab/scripts/python/pythonrc.py:18 | every returned path is a matching name joined to the directory |
| PoetryBootstrap.GlobComplete | src/houdinilab/scripts/python/pythonrc.py:18 | every matching name, joined to the directory, is returned |
| PoetryBootstrap.GlobMembers | src/houdinilab/scripts/python/pythonrc.py:18 | a path is returned exactly when it is a matching name joined to the directory |
| PoetryBootstrap.GlobEmpty | src/houdinilab/scripts/python/pythonrc.py:18-19 | the glob is empty exactly when no name matches |
| PoetryBootstrap.NewestIndex | src/houdinilab/scripts/python/pythonrc.py:24 | the first of the descending stable sort by modification time: no match is newer, and every earlier match is strictly older |
| PoetryBootstrap.NewestExample | src/houdinilab/scripts/python/pythonrc.py:24 | of two equally new environments, the one listed first is chosen |
| PoetryBootstrap.SitePackages | src/houdinilab/scripts/python/pythonrc.py:25 | `os.path.join(venv_path, "lib", f"python{pyver}", "site-packages")` |
| PoetryBootstrap.SitePackagesShape | src/houdinilab/scripts/python/pythonrc.py:25 | the site-packages path is `<venv>/lib/python<pyver>/site-packages` |
| PoetryBootstrap.PyVerNoTrailingSep | src/houdinilab/scripts/python/pythonrc.py:16 | the version text never ends with a separator |
| PoetryBootstrap.Candidate | src/houdinilab/scripts/python/pythonrc.py:11-25 | nothing when the glob is empty, otherwise the site-packages of the newest match |
| PoetryBootstrap.CandidateNone | src/houdinilab/scripts/python/pythonrc.py:18-21 | there is nothing to add exactly when no environment name matches |
| PoetryBootstrap.CandidateNewest | src/houdinilab/scripts/python/pythonrc.py:18-25 | the directory to add is the site-packages of a matching environment that no matching environment is newer than |
| PoetryBootstrap.WithSitePackages | src/houdinilab/scripts/python/pythonrc.py:27-29 | `sys.path` with the candidate inserted at the front when it is a directory not already on it |
| PoetryBootstrap.WithSitePackagesSpec | src/houdinilab/scripts/python/pythonrc.py:27-32 | `sys.path` changes exactly when the candidate is a directory not yet on it; then the candidate comes first and the old path follows unchanged |
| PoetryBootstrap.WithSitePackagesKeepsDistinct | src/houdinilab/scripts/python/pythonrc.py:28-29 | the insertion never introduces a duplicate |
| PoetryBootstrap.WithSitePackagesIdempotent | src/houdinilab/scripts/python/pythonrc.py:28 | a second run with the same filesystem leaves `sys.path` as the first run left it |
| PoetryBootstrap.Interpreter.AddPoetrySitePackages | src/houdinilab/scripts/python/pythonrc.py:6-32 | the new `sys.path` is the old one updated by the candidate of the glob, the newest match and the site-packages derivation |
| PoetryBootstrap.Interpreter.Startup | src/houdinilab/scripts/python/pythonrc.py:35 | loading the file runs the hook with the default project name `houdinilab` |
| PoetryBootstrap.RunTwice | src/houdinilab/scripts/python/pythonrc.py:28 | running the hook twice changes `sys.path` exactly as running it once |

## Left out

- The Houdini UI prompt and `hou.text.expandString` (`debug_script.py:72-84`) are left out. They are calls into Houdini. `RenameDebug` receives the already expanded path.
- Logging and `print` are left out. They have no effect on the modelled state.
- `main` in `get_hou_version.py` is modelled only through its two patterns (`Pattern`) and the macOS base directory (`MacBaseDir`). The platform dispatch and the printed messages are I/O.
- `houdinilab/textureTools/gen_files_folders.py` is not part of this model.
- `os.path.isdir`, `os.listdir`, `os.rename`, `os.path.exists`, `os.path.islink`, `os.readlink`, `glob.glob`, `os.path.getmtime` and `os.path.expanduser` are modelled as inputs. Real filesystem semantics are not captured: aliasing of paths such as `a//b` or `./a`, symbolic links inside the folder, and races between the calls.
- Rename.Folder.RenameDebug: requires that the empty path is not a directory, as `os.path.isdir("")` is false. That requirement is what makes the empty-folder-name branch unreachable (`FolderNameNonEmpty`).
- Rename.Step: a rename onto an existing entry is a failure that is logged. This is the corrected behaviour (see Findings). On POSIX, a rename onto an existing directory fails and a rename onto any other entry replaces it; that behaviour is modelled only by `StepAsWritten`. `Kind` follows symbolic links as `os.path.isfile` does, so `StepAsWritten` refuses a rename onto a link to a directory, where `rename(2)` would replace the link itself.
- The folder rename: whether it succeeds is a single input. Its own collision cases are not modelled.
- `\s` and `\d` are restricted to ASCII. Python's `str` patterns also match Unicode whitespace and Unicode digits, and `int()` accepts the latter.
- Paths are POSIX (`posixpath`) throughout. On Windows, the `C:\Program Files\...` base directory and `rstrip` of `\` interact with `ntpath`, which is not modelled. The Windows pattern is modelled, since matching does not involve paths.
- Rename.SplitExt: models `splitext` on a name without `/`, which every entry of `os.listdir` is.
- PoetryBootstrap.StarMatch: treats `project_env` and the version text as literal text. Glob metacharacters such as `*`, `?` or `[` inside them are not interpreted. `glob` also hides names starting with a dot unless the pattern does, but such a name can match only a pattern that itself starts with a dot, so this filter never changes the result. `glob.glob` splits its pattern at `/`, so the model assumes `project_env` has no `/` and the home directory has no glob metacharacters; the only caller passes `houdinilab`.
- Modification times are integers, not floating-point seconds.
- PoetryBootstrap.Interpreter.AddPoetrySitePackages: requires every globbed path to have a modification time. In the source, `os.path.getmtime` raises when a path vanishes between the glob and the sort.
- `POETRY_CACHE_DIR`, JSON project configuration, environment-variable export and plugin scanning do not appear in `pythonrc.py`, so they are not modelled.

## Findings

| source | as written | input that shows it | evidently intended | confidence | as-written member | corrected member |
|---|---|---|---|---|---|---|
| houdinilab/textureTools/debug_script.py:57-63 | `os.rename(file_path, new_file_path)` with no check that the target exists. On POSIX, `rename` silently replaces an existing non-directory target | a folder holding regular files `a-b` and `a_b`, with `a-b` listed first: it is renamed over `a_b`, and the folder goes from two files to one | a rename whose target exists fails and is logged like the other rename errors, which is what the exception handlers on lines 60-63 cover (and what `os.rename` does on Windows), so no file is lost | medium, not executed | Rename.StepAsWrittenLosesFile | Rename.RenameFilesKeepsCount |

/**
 * The Houdini version detector of tests/get_hou_version.py: it collects the `major.minor`
 * version of every installation directory whose name matches the platform's pattern, picks
 * the numerically latest one, and reads the version behind the `Current` symbolic link.
 *
 * The filesystem is abstract: whether the base directory exists and can be listed, its
 * listing in the order `os.listdir` gives, and a map from symbolic-link paths to their targets.
 */
module HoudiniVersions {

  import opened Wrappers
  import opened Text
  import opened Paths

  // ---------------------------------------------------------------------------------------
  // `v.split('.')` and its inverse
  // ---------------------------------------------------------------------------------------

  /** `s.split('.')`: the pieces between dots, empty ones included. */
  function Split(s: string): (parts: seq<string>)
    ensures |parts| >= 1
  {
    if s == [] then [[]]
    else
      var rest := Split(s[1..]);
      if s[0] == '.' then [[]] + rest else [[s[0]] + rest[0]] + rest[1..]
  }

  /** `'.'.join(parts)`. */
  function JoinDots(parts: seq<string>): string
    requires |parts| >= 1
  {
    if |parts| == 1 then parts[0] else parts[0] + "." + JoinDots(parts[1..])
  }

  predicate NoDot(s: string) {
    forall i :: 0 <= i < |s| ==> s[i] != '.'
  }

  /** Joining the pieces with dots gives the string back, and no piece holds a dot. */
  lemma {:induction false} JoinSplit(s: string)
    ensures JoinDots(Split(s)) == s
    ensures forall i :: 0 <= i < |Split(s)| ==> NoDot(Split(s)[i])
  {
    if s != [] {
      JoinSplit(s[1..]);
      var rest := Split(s[1..]);
      if s[0] == '.' {
        assert Split(s)[1..] == rest;
      } else {
        var parts := Split(s);
        assert parts[1..] == rest[1..];
        if |rest| == 1 {
          assert JoinDots(parts) == [s[0]] + rest[0];
        } else {
          assert JoinDots(rest) == rest[0] + "." + JoinDots(rest[1..]);
        }
        forall i | 0 <= i < |parts| ensures NoDot(parts[i]) {
          if i > 0 {
            assert parts[i] == rest[i];
          }
        }
      }
    }
    assert s == [] ==> s == [][..0];
  }

  /** A dot-free string is a single part. */
  lemma {:induction false} SplitNoDot(p: string)
    requires NoDot(p)
    ensures Split(p) == [p]
  {
    if p != [] {
      assert NoDot(p[1..]) by { assert forall i :: 0 <= i < |p| - 1 ==> p[1..][i] == p[i + 1]; }
      SplitNoDot(p[1..]);
      assert [p[0]] + p[1..] == p;
    }
  }

  /** A dot-free part followed by a dot splits off as the first part. */
  lemma {:induction false} SplitDotted(p: string, t: string)
    requires NoDot(p)
    ensures Split(p + "." + t) == [p] + Split(t)
  {
    var s := p + "." + t;
    if p == [] {
      assert s[1..] == t;
    } else {
      assert NoDot(p[1..]) by { assert forall i :: 0 <= i < |p| - 1 ==> p[1..][i] == p[i + 1]; }
      assert s[1..] == p[1..] + "." + t;
      SplitDotted(p[1..], t);
      assert [p[0]] + p[1..] == p;
    }
  }

  /** Splitting dot-free pieces joined with dots gives the pieces back. */
  lemma {:induction false} SplitJoin(parts: seq<string>)
    requires |parts| >= 1 && forall i :: 0 <= i < |parts| ==> NoDot(parts[i])
    ensures Split(JoinDots(parts)) == parts
    decreases |parts|
  {
    if |parts| == 1 {
      SplitNoDot(parts[0]);
    } else {
      assert forall i :: 0 <= i < |parts| - 1 ==> parts[1..][i] == parts[i + 1];
      SplitJoin(parts[1..]);
      SplitDotted(parts[0], JoinDots(parts[1..]));
      assert [parts[0]] + parts[1..] == parts;
    }
  }

  // ---------------------------------------------------------------------------------------
  // Versions and their numeric order
  // ---------------------------------------------------------------------------------------

  /** Every piece of `v.split('.')` is something `int()` accepts. */
  predicate Parsable(v: string) {
    forall i :: 0 <= i < |Split(v)| ==> IsNumber(Split(v)[i])
  }

  /** `major.minor`, the shape of every captured version. */
  predicate IsVersion(v: string) {
    |Split(v)| == 2 && Parsable(v)
  }

  /** `list(map(int, v.split('.')))`. */
  function Key(v: string): (key: seq<nat>)
    requires Parsable(v)
    ensures |key| == |Split(v)|
  {
    var parts := Split(v);
    seq(|parts|, i requires 0 <= i < |parts| => Dec(parts[i]))
  }

  /** Python's `<` on lists of integers: the first difference decides; a proper prefix is smaller. */
  predicate Less(a: seq<int>, b: seq<int>)
    decreases |a|
  {
    if a == [] then b != []
    else b != [] && (a[0] < b[0] || (a[0] == b[0] && Less(a[1..], b[1..])))
  }

  lemma {:induction false} LessIrreflexive(a: seq<int>)
    ensures !Less(a, a)
    decreases |a|
  {
    if a != [] {
      LessIrreflexive(a[1..]);
    }
  }

  lemma {:induction false} LessTransitive(a: seq<int>, b: seq<int>, c: seq<int>)
    requires Less(a, b) && Less(b, c)
    ensures Less(a, c)
    decreases |a|
  {
    if a != [] && a[0] == b[0] && b[0] == c[0] {
      LessTransitive(a[1..], b[1..], c[1..]);
    }
  }

  lemma {:induction false} LessTotal(a: seq<int>, b: seq<int>)
    ensures a == b || Less(a, b) || Less(b, a)
    decreases |a|
  {
    if a != [] && b != [] && a[0] == b[0] {
      LessTotal(a[1..], b[1..]);
      if a[1..] == b[1..] {
        assert a == [a[0]] + a[1..] && b == [b[0]] + b[1..];
      }
    }
  }

  /** `Less` is a strict total order: irreflexive, transitive and total. */
  lemma LessIsStrictTotalOrder()
    ensures forall a: seq<int> :: !Less(a, a)
    ensures forall a: seq<int>, b, c :: Less(a, b) && Less(b, c) ==> Less(a, c)
    ensures forall a: seq<int>, b :: a == b || Less(a, b) || Less(b, a)
  {
    forall a: seq<int> {
      LessIrreflexive(a);
    }
    forall a: seq<int>, b, c | Less(a, b) && Less(b, c) {
      LessTransitive(a, b, c);
    }
    forall a: seq<int>, b {
      LessTotal(a, b);
    }
  }

  /** The key of every version, in order. */
  function Keys(vs: seq<string>): (keys: seq<seq<int>>)
    requires forall i :: 0 <= i < |vs| ==> Parsable(vs[i])
    ensures |keys| == |vs|
  {
    seq(|vs|, i requires 0 <= i < |vs| => Key(vs[i]))
  }

  /**
   * The position of the element `max` returns for these keys: no key exceeds its key, and it
   * is the first with that key, since `max` only replaces its candidate on a strictly larger key.
   */
  function MaxIndex(keys: seq<seq<int>>): (k: nat)
    requires keys != []
    ensures k < |keys|
    ensures forall j :: 0 <= j < |keys| ==> !Less(keys[k], keys[j])
    ensures forall j :: 0 <= j < k ==> Less(keys[j], keys[k])
    decreases |keys|
  {
    if |keys| == 1 then
      LessIrreflexive(keys[0]);
      0
    else
      var n := |keys| - 1;
      var k := MaxIndex(keys[..n]);
      assert forall j :: 0 <= j < n ==> keys[..n][j] == keys[j];
      MaxIndexExtend(keys, k);
      if Less(keys[k], keys[n]) then n else k
  }

  /** Extending the keys by one: the last one wins only when it is strictly larger. */
  lemma MaxIndexExtend(keys: seq<seq<int>>, k: nat)
    requires k < |keys| - 1
    requires forall j :: 0 <= j < |keys| - 1 ==> !Less(keys[k], keys[j])
    requires forall j :: 0 <= j < k ==> Less(keys[j], keys[k])
    ensures var n := |keys| - 1; var k' := if Less(keys[k], keys[n]) then n else k;
            && (forall j :: 0 <= j < |keys| ==> !Less(keys[k'], keys[j]))
            && (forall j :: 0 <= j < k' ==> Less(keys[j], keys[k']))
  {
    var n := |keys| - 1;
    LessIrreflexive(keys[n]);
    if Less(keys[k], keys[n]) {
      forall j | 0 <= j < n ensures !Less(keys[n], keys[j]) && Less(keys[j], keys[n]) {
        LessAfterMax(keys[k], keys[n], keys[j]);
      }
    } else {
      LessTotal(keys[k], keys[n]);
    }
  }

  /** A key above the maximum is above every key the maximum is not below. */
  lemma LessAfterMax(m: seq<int>, top: seq<int>, x: seq<int>)
    requires Less(m, top) && !Less(m, x)
    ensures !Less(top, x) && Less(x, top)
  {
    LessTotal(m, x);
    LessTotal(top, x);
    LessIrreflexive(x);
    if Less(top, x) {
      LessTransitive(m, top, x);
    }
    if Less(x, m) {
      LessTransitive(x, m, top);
    }
  }

  /** `max(versions, key=...)` if there are versions, `None` otherwise. */
  function LatestVersion(versions: seq<string>): (r: Option<string>)
    requires forall i :: 0 <= i < |versions| ==> Parsable(versions[i])
    ensures r.None? <==> versions == []
    ensures r.Some? ==> exists k :: 0 <= k < |versions| && versions[k] == r.value
    ensures r.Some? ==> forall v :: v in versions ==> !Less(Key(r.value), Key(v))
    ensures r.Some? ==> exists k :: 0 <= k < |versions| && versions[k] == r.value &&
                                    forall j :: 0 <= j < k ==> Less(Key(versions[j]), Key(r.value))
  {
    if versions == [] then None
    else
      var k := MaxIndex(Keys(versions));
      MaxIndexOfVersions(versions);
      assert versions[k] in versions;
      Some(versions[k])
  }

  /** The facts `MaxIndex` gives about the keys, stated for the versions themselves. */
  lemma MaxIndexOfVersions(versions: seq<string>)
    requires versions != [] && forall i :: 0 <= i < |versions| ==> Parsable(versions[i])
    ensures var k := MaxIndex(Keys(versions));
            && (forall v :: v in versions ==> !Less(Key(versions[k]), Key(v)))
            && (forall j :: 0 <= j < k ==> Less(Key(versions[j]), Key(versions[k])))
  {
    var keys := Keys(versions);
    var k := MaxIndex(keys);
    forall v | v in versions ensures !Less(Key(versions[k]), Key(v)) {
      var j :| 0 <= j < |versions| && versions[j] == v;
      assert keys[j] == Key(v);
    }
    forall j | 0 <= j < k ensures Less(Key(versions[j]), Key(versions[k])) {
      assert keys[j] == Key(versions[j]) && keys[k] == Key(versions[k]);
    }
  }

  /** The key of `x.y` is the two numbers' values. */
  lemma KeyOf(x: string, y: string)
    requires IsNumber(x) && IsNumber(y)
    ensures IsVersion(x + "." + y) && Key(x + "." + y) == [Dec(x), Dec(y)]
  {
    VersionShape(x, y);
  }

  /** `10.0` is later than `9.5`, although `'9' > '1'` as characters. */
  lemma LatestExampleNumeric()
    ensures LatestVersion(["9.5", "10.0"]) == Some("10.0")
  {
    KeyOf("9", "5");
    KeyOf("10", "0");
    assert "9" + "." + "5" == "9.5" && "10" + "." + "0" == "10.0";
    assert Dec("10") == 10 by { assert "10"[..1] == "1"; }
    var vs := ["9.5", "10.0"];
    assert Less(Key(vs[0]), Key(vs[1]));
  }

  /** `20.5` and `20.05` are different versions with the same key. */
  lemma EqualKeysExample()
    ensures IsVersion("20.5") && IsVersion("20.05") && Key("20.5") == Key("20.05") == [20, 5]
  {
    KeyOf("20", "5");
    KeyOf("20", "05");
    assert "20" + "." + "5" == "20.5" && "20" + "." + "05" == "20.05";
    assert Dec("20") == 20 by { assert "20"[..1] == "2"; }
    assert Dec("05") == 5 by { assert "05"[..1] == "0"; }
  }

  /** Of two versions with equal keys, `max` keeps the first. */
  lemma LatestOfTie(v: string, w: string)
    requires Parsable(v) && Parsable(w) && Key(v) == Key(w)
    ensures LatestVersion([v, w]) == Some(v)
  {
    var vs := [v, w];
    LessIrreflexive(Key(v));
    assert !Less(Key(vs[0]), Key(vs[1]));
  }

  // ---------------------------------------------------------------------------------------
  // The two patterns, matched at the start of a name
  // ---------------------------------------------------------------------------------------

  /** `r'Houdini (\d+\.\d+)\.\d+'` on Windows, `r'Houdini(\d+\.\d+)\.\d+'` on macOS. */
  datatype Pattern = WindowsPattern | MacPattern

  /** `base_dir` on macOS, where `main` also reads the `Current` link. */
  const MacBaseDir := "/Applications/Houdini"

  /** The literal text before the first number. */
  function Literal(p: Pattern): string {
    match p
    case WindowsPattern => "Houdini "
    case MacPattern => "Houdini"
  }

  /** The length of the longest prefix of `s` made of digits. */
  function DigitRun(s: string): (n: nat)
    ensures n <= |s| && AllDigits(s[..n]) && (n < |s| ==> !IsDigit(s[n]))
  {
    if s != [] && IsDigit(s[0]) then
      var n := 1 + DigitRun(s[1..]);
      assert s[..n] == [s[0]] + s[1..][..n - 1];
      n
    else 0
  }

  /** Where the greedy `\d+` starting at `i` stops. */
  function NumberEnd(s: string, i: nat): (j: nat)
    requires i <= |s|
    ensures i <= j <= |s| && AllDigits(s[i..j]) && (j < |s| ==> !IsDigit(s[j]))
  {
    var n := DigitRun(s[i..]);
    assert s[i..i + n] == s[i..][..n];
    i + n
  }

  /**
   * `re.match(pattern, s).group(1)`: after the literal, a number, a dot and a number (the
   * capture), then a dot and at least one digit; whatever follows is ignored. Since a digit is
   * never a dot, the greedy `\d+` never has to give characters back.
   */
  function MatchVersion(p: Pattern, s: string): Option<string> {
    MatchAfter(Literal(p), s)
  }

  /** The scanner behind `MatchVersion`, for any literal prefix. */
  function MatchAfter(lit: string, s: string): Option<string> {
    if !(lit <= s) then None
    else
      var a := NumberEnd(s, |lit|);
      if a == |lit| || a == |s| || s[a] != '.' then None
      else
        var b := NumberEnd(s, a + 1);
        if b == a + 1 || b == |s| || s[b] != '.' then None
        else if b + 1 == |s| || !IsDigit(s[b + 1]) then None
        else Some(s[|lit|..b])
  }

  /**
   * What the pattern means, stated without scanning: `s` starts with the literal, then the
   * version `cap` (two numbers around a dot), then a dot and a digit.
   */
  predicate Matches(p: Pattern, s: string, cap: string) {
    MatchesAfter(Literal(p), s, cap)
  }

  predicate MatchesAfter(lit: string, s: string, cap: string) {
    && IsVersion(cap)
    && |lit| + |cap| + 1 < |s|
    && s[..|lit| + |cap| + 1] == lit + cap + "."
    && IsDigit(s[|lit| + |cap| + 1])
  }

  /** A version is two numbers around one dot. */
  lemma VersionShape(x: string, y: string)
    requires IsNumber(x) && IsNumber(y)
    ensures IsVersion(x + "." + y) && Split(x + "." + y) == [x, y]
  {
    assert JoinDots([x, y]) == x + "." + y by {
      assert JoinDots([x, y][1..]) == y;
    }
    SplitJoin([x, y]);
  }

  /** The greedy `\d+` stops exactly after the digits `x` when a non-digit follows them. */
  lemma {:induction false} NumberEndOf(s: string, i: nat, x: string)
    requires i + |x| <= |s| && s[i..i + |x|] == x && AllDigits(x)
    requires i + |x| == |s| || !IsDigit(s[i + |x|])
    ensures NumberEnd(s, i) == i + |x|
    decreases |x|
  {
    if x != [] {
      assert s[i] == x[0];
      assert s[i + 1..i + |x|] == x[1..];
      NumberEndOf(s, i + 1, x[1..]);
      assert s[i..][1..] == s[i + 1..];
    }
  }

  /** A successful scan at positions `a` and `b` gives a capture with the pattern's meaning. */
  lemma ScanMeaning(lit: string, s: string, a: nat, b: nat)
    requires lit <= s && |lit| < a < b && b + 1 < |s|
    requires IsNumber(s[|lit|..a]) && s[a] == '.' && IsNumber(s[a + 1..b]) && s[b] == '.'
    requires IsDigit(s[b + 1])
    ensures MatchesAfter(lit, s, s[|lit|..b])
  {
    var L := |lit|;
    var cap := s[L..b];
    assert cap == s[L..a] + "." + s[a + 1..b];
    VersionShape(s[L..a], s[a + 1..b]);
    assert s[..b + 1] == s[..L] + cap + [s[b]];
  }

  /** Whatever the scanner captures satisfies the pattern's meaning. */
  lemma MatchAfterSound(lit: string, s: string)
    ensures MatchAfter(lit, s).Some? ==> MatchesAfter(lit, s, MatchAfter(lit, s).value)
  {
    if MatchAfter(lit, s).Some? {
      var a := NumberEnd(s, |lit|);
      var b := NumberEnd(s, a + 1);
      ScanMeaning(lit, s, a, b);
    }
  }

  /** A version is its two numbers around a dot. */
  lemma VersionParts(v: string)
    requires IsVersion(v)
    ensures IsNumber(Split(v)[0]) && IsNumber(Split(v)[1])
    ensures v == Split(v)[0] + "." + Split(v)[1]
  {
    JoinSplit(v);
    assert JoinDots(Split(v)[1..]) == Split(v)[1];
  }

  /** The pieces of a prefix `lit + cap + "."` whose capture is `x.y`, by position. */
  lemma PrefixPieces(lit: string, s: string, cap: string, x: string, y: string)
    requires cap == x + "." + y
    requires |lit| + |cap| + 1 <= |s| && s[..|lit| + |cap| + 1] == lit + cap + "."
    ensures lit <= s
    ensures s[|lit|..|lit| + |x|] == x && s[|lit| + |x|] == '.'
    ensures s[|lit| + |x| + 1..|lit| + |x| + 1 + |y|] == y && s[|lit| + |x| + 1 + |y|] == '.'
    ensures s[|lit|..|lit| + |x| + 1 + |y|] == cap && |cap| == |x| + 1 + |y|
  {
    var L := |lit|;
    var pre := s[..L + |cap| + 1];
    assert s[..L] == pre[..L];
    assert s[L..L + |cap|] == pre[L..L + |cap|] == cap;
    assert s[L + |cap|] == pre[L + |cap|] == '.';
    assert cap[..|x|] == x && cap[|x|] == '.' && cap[|x| + 1..] == y;
    assert s[L..L + |x|] == cap[..|x|];
    assert s[L + |x| + 1..L + |x| + 1 + |y|] == cap[|x| + 1..];
  }

  /** The scanner accepts when both numbers end where a dot follows and a digit comes after. */
  lemma MatchAfterAccepts(lit: string, s: string, a: nat, b: nat, cap: string)
    requires lit <= s && |lit| < a < b && b + 1 < |s|
    requires NumberEnd(s, |lit|) == a && s[a] == '.'
    requires NumberEnd(s, a + 1) == b && b > a + 1 && s[b] == '.'
    requires IsDigit(s[b + 1]) && s[|lit|..b] == cap
    ensures MatchAfter(lit, s) == Some(cap)
  {
  }

  /** Where the two numbers of a matching capture end, and what follows each. */
  lemma CaptureNumbers(lit: string, s: string, cap: string) returns (a: nat, b: nat)
    requires MatchesAfter(lit, s, cap)
    ensures lit <= s && |lit| < a < b && b + 1 < |s|
    ensures NumberEnd(s, |lit|) == a && s[a] == '.'
    ensures NumberEnd(s, a + 1) == b && b > a + 1 && s[b] == '.'
    ensures IsDigit(s[b + 1]) && s[|lit|..b] == cap
  {
    VersionParts(cap);
    var x, y := Split(cap)[0], Split(cap)[1];
    PrefixPieces(lit, s, cap, x, y);
    NumberEndOf(s, |lit|, x);
    NumberEndOf(s, |lit| + |x| + 1, y);
    a, b := |lit| + |x|, |lit| + |x| + 1 + |y|;
  }

  /** When the pattern's meaning holds, the scanner captures exactly that version. */
  lemma MatchAfterComplete(lit: string, s: string, cap: string)
    requires MatchesAfter(lit, s, cap)
    ensures MatchAfter(lit, s) == Some(cap)
  {
    var a, b := CaptureNumbers(lit, s, cap);
    MatchAfterAccepts(lit, s, a, b, cap);
  }

  /** Whatever the scanner captures satisfies the pattern's meaning. */
  lemma MatchVersionSound(p: Pattern, s: string)
    ensures MatchVersion(p, s).Some? ==> Matches(p, s, MatchVersion(p, s).value)
  {
    MatchAfterSound(Literal(p), s);
  }

  /** When the pattern's meaning holds, the scanner captures exactly that version. */
  lemma MatchVersionComplete(p: Pattern, s: string, cap: string)
    requires Matches(p, s, cap)
    ensures MatchVersion(p, s) == Some(cap)
  {
    MatchAfterComplete(Literal(p), s, cap);
  }

  /** The scanner captures `cap` exactly when the pattern's meaning holds of `cap`. */
  lemma MatchVersionCorrect(p: Pattern, s: string)
    ensures forall cap :: MatchVersion(p, s) == Some(cap) <==> Matches(p, s, cap)
  {
    MatchVersionSound(p, s);
    forall cap | Matches(p, s, cap) {
      MatchVersionComplete(p, s, cap);
    }
  }

  /**
   * Each pattern takes its own spelling only, and the match is anchored at the start but not
   * at the end, so text after the third number is allowed.
   */
  lemma PatternExamples()
    ensures MatchVersion(WindowsPattern, "Houdini 20.5.278") == Some("20.5")
    ensures MatchVersion(MacPattern, "Houdini20.5.278") == Some("20.5")
    ensures MatchVersion(MacPattern, "Houdini 20.5.278") == None
    ensures MatchVersion(WindowsPattern, "Houdini20.5.278") == None
    ensures MatchVersion(MacPattern, "Houdini19.0.455-py3.7") == Some("19.0")
    ensures MatchVersion(MacPattern, "Houdini20.5") == None
  {
    WindowsExample();
    MacExample();
    TrailingTextExample();
    SpellingExamples();
    NoThirdNumberExample();
  }

  lemma WindowsExample()
    ensures MatchVersion(WindowsPattern, "Houdini 20.5.278") == Some("20.5")
  {
    VersionShape("20", "5");
    assert "20" + "." + "5" == "20.5";
    assert "Houdini 20.5.278"[..13] == "Houdini " + "20.5" + ".";
    MatchVersionComplete(WindowsPattern, "Houdini 20.5.278", "20.5");
  }

  lemma MacExample()
    ensures MatchVersion(MacPattern, "Houdini20.5.278") == Some("20.5")
  {
    VersionShape("20", "5");
    assert "20" + "." + "5" == "20.5";
    assert "Houdini20.5.278"[..12] == "Houdini" + "20.5" + ".";
    MatchVersionComplete(MacPattern, "Houdini20.5.278", "20.5");
  }

  lemma TrailingTextExample()
    ensures MatchVersion(MacPattern, "Houdini19.0.455-py3.7") == Some("19.0")
  {
    VersionShape("19", "0");
    assert "19" + "." + "0" == "19.0";
    assert "Houdini19.0.455-py3.7"[..12] == "Houdini" + "19.0" + ".";
    MatchVersionComplete(MacPattern, "Houdini19.0.455-py3.7", "19.0");
  }

  lemma SpellingExamples()
    ensures MatchVersion(MacPattern, "Houdini 20.5.278") == None
    ensures MatchVersion(WindowsPattern, "Houdini20.5.278") == None
  {
    // No number right after the macOS literal when a space follows it.
    NumberEndOf("Houdini 20.5.278", 7, []);
    // The Windows literal needs the space.
    assert "Houdini20.5.278"[7] != ' ';
  }

  lemma NoThirdNumberExample()
    ensures MatchVersion(MacPattern, "Houdini20.5") == None
  {
    assert "Houdini20.5"[7..9] == "20" && "Houdini20.5"[10..11] == "5";
    NumberEndOf("Houdini20.5", 7, "20");
    NumberEndOf("Houdini20.5", 10, "5");
  }

  // ---------------------------------------------------------------------------------------
  // The three functions of the script
  // ---------------------------------------------------------------------------------------

  /** A call that returns a value, or in which `os.listdir` raises and the exception propagates. */
  datatype Listed<T> = Returned(value: T) | Raised

  /** `[f(x).value for x in items if f(x)]`: every present result of `f`, in item order. */
  function Collect(items: seq<string>, f: string -> Option<string>): seq<string>
    decreases |items|
  {
    if items == [] then []
    else
      var rest := Collect(items[..|items| - 1], f);
      match f(items[|items| - 1])
      case Some(v) => rest + [v]
      case None => rest
  }

  /** The match of one pattern against a name, as a function. */
  function Matcher(p: Pattern): string -> Option<string> {
    s => MatchVersion(p, s)
  }

  /** The capture of every name of `listing` that matches, in listing order. */
  function Captures(listing: seq<string>, p: Pattern): seq<string> {
    Collect(listing, Matcher(p))
  }

  lemma {:induction false} CollectAppend(a: seq<string>, b: seq<string>, f: string -> Option<string>)
    ensures Collect(a + b, f) == Collect(a, f) + Collect(b, f)
    decreases |b|
  {
    if b != [] {
      var b' := b[..|b| - 1];
      assert (a + b)[..|a + b| - 1] == a + b';
      assert (a + b)[|a + b| - 1] == b[|b| - 1];
      CollectAppend(a, b', f);
    } else {
      assert a + b == a;
    }
  }

  lemma {:induction false} CollectSound(items: seq<string>, f: string -> Option<string>, v: string)
    requires v in Collect(items, f)
    ensures exists i :: 0 <= i < |items| && f(items[i]) == Some(v)
    decreases |items|
  {
    var init := items[..|items| - 1];
    var last := |items| - 1;
    if f(items[last]) != Some(v) {
      assert v in Collect(init, f);
      CollectSound(init, f, v);
      var i :| 0 <= i < |init| && f(init[i]) == Some(v);
      assert items[i] == init[i];
    }
  }

  lemma {:induction false} CollectComplete(items: seq<string>, f: string -> Option<string>, i: nat)
    requires i < |items| && f(items[i]).Some?
    ensures f(items[i]).value in Collect(items, f)
    decreases |items|
  {
    var init := items[..|items| - 1];
    if i < |items| - 1 {
      assert items[i] == init[i];
      CollectComplete(init, f, i);
    }
  }

  lemma CapturesMembers(listing: seq<string>, p: Pattern)
    ensures forall v :: v in Captures(listing, p) <==>
                        exists i :: 0 <= i < |listing| && MatchVersion(p, listing[i]) == Some(v)
  {
    forall v | v in Captures(listing, p)
      ensures exists i :: 0 <= i < |listing| && MatchVersion(p, listing[i]) == Some(v)
    {
      CollectSound(listing, Matcher(p), v);
    }
    forall i | 0 <= i < |listing| && MatchVersion(p, listing[i]).Some? {
      CollectComplete(listing, Matcher(p), i);
    }
  }

  /** Every captured string is a `major.minor` version. */
  lemma CapturesAreVersions(listing: seq<string>, p: Pattern)
    ensures forall v :: v in Captures(listing, p) ==> IsVersion(v)
    ensures forall k :: 0 <= k < |Captures(listing, p)| ==> IsVersion(Captures(listing, p)[k])
  {
    forall v | v in Captures(listing, p) ensures IsVersion(v) {
      CollectSound(listing, Matcher(p), v);
      var i :| 0 <= i < |listing| && Matcher(p)(listing[i]) == Some(v);
      MatchVersionSound(p, listing[i]);
    }
  }

  /**
   * `get_houdini_versions(base_dir, pattern)`: nothing when the base directory does not
   * exist; the exception of `os.listdir` when it exists but cannot be listed (a regular file,
   * a directory without read permission); otherwise the capture of each matching name of its
   * listing, in listing order.
   */
  method GetHoudiniVersions(baseExists: bool, listable: bool, listing: seq<string>, p: Pattern)
    returns (r: Listed<seq<string>>)
    ensures !baseExists ==> r == Returned([])
    ensures baseExists && !listable ==> r == Raised
    ensures baseExists && listable ==> r == Returned(Captures(listing, p))
    ensures r == Versions(baseExists, listable, listing, p)
  {
    if !baseExists {
      return Returned([]);
    }
    if !listable {
      return Raised;
    }
    var versions := [];
    for i := 0 to |listing|
      invariant versions == Captures(listing[..i], p)
    {
      assert listing[..i + 1][..i] == listing[..i];
      var m := MatchVersion(p, listing[i]);
      if m.Some? {
        versions := versions + [m.value];
      }
    }
    assert listing[..|listing|] == listing;
    r := Returned(versions);
  }

  /** What `get_houdini_versions` returns, as a function. */
  function Versions(baseExists: bool, listable: bool, listing: seq<string>, p: Pattern): Listed<seq<string>> {
    if !baseExists then Returned([])
    else if !listable then Raised
    else Returned(Captures(listing, p))
  }

  /**
   * `get_latest_houdini_version`: the exception of `os.listdir` propagates; otherwise `None`
   * exactly when there is no base directory or no name matches, and else a collected version
   * that no collected version exceeds numerically.
   */
  function GetLatestHoudiniVersion(baseExists: bool, listable: bool, listing: seq<string>, p: Pattern): (r: Listed<Option<string>>)
    ensures r.Raised? <==> baseExists && !listable
    ensures r.Returned? ==>
              (r.value.None? <==> !baseExists || forall i :: 0 <= i < |listing| ==> MatchVersion(p, listing[i]).None?)
    ensures r.Returned? && r.value.Some? ==>
              var vs := Versions(baseExists, listable, listing, p).value;
              && IsVersion(r.value.value) && r.value.value in vs
              && forall v :: v in vs ==> IsVersion(v) && !Less(Key(r.value.value), Key(v))
  {
    match Versions(baseExists, listable, listing, p)
    case Raised => Raised
    case Returned(vs) =>
      CapturesAreVersions(listing, p);
      CapturesEmpty(listing, p);
      Returned(LatestVersion(vs))
  }

  /** Nothing is captured exactly when no listed name matches. */
  lemma CapturesEmpty(listing: seq<string>, p: Pattern)
    ensures Captures(listing, p) == [] <==> forall i :: 0 <= i < |listing| ==> MatchVersion(p, listing[i]).None?
  {
    if Captures(listing, p) == [] {
      forall i | 0 <= i < |listing| ensures MatchVersion(p, listing[i]).None? {
        if MatchVersion(p, listing[i]).Some? {
          CollectComplete(listing, Matcher(p), i);
        }
      }
    } else {
      CollectSound(listing, Matcher(p), Captures(listing, p)[0]);
    }
  }

  /** Where the script looks for the `Current` link. */
  function CurrentPath(baseDir: string): string {
    Join(baseDir, "Current")
  }

  /**
   * `get_current_houdini_version(base_dir, pattern)`: the version captured from the last
   * component of the target of `base_dir/Current`, when that is a symbolic link (a key of
   * `links`) and the component matches; `None` otherwise.
   */
  function GetCurrentHoudiniVersion(baseDir: string, links: map<string, string>, p: Pattern): (r: Option<string>)
    ensures r.Some? ==> CurrentPath(baseDir) in links
    ensures forall v :: r == Some(v) <==>
              CurrentPath(baseDir) in links && Matches(p, Basename(links[CurrentPath(baseDir)]), v)
  {
    var current := CurrentPath(baseDir);
    if current in links then
      MatchVersionCorrect(p, Basename(links[current]));
      MatchVersion(p, Basename(links[current]))
    else
      None
  }

  /** A `Current` link in any base directory to a `Houdini20.5.278` directory gives `20.5`. */
  lemma MacCurrentExample(baseDir: string, dir: string, links: map<string, string>)
    requires baseDir != [] && baseDir[|baseDir| - 1] != '/'
    requires dir == [] || dir[|dir| - 1] == '/'
    requires links == map[baseDir + "/" + "Current" := dir + "Houdini20.5.278"]
    ensures CurrentPath(baseDir) == baseDir + "/" + "Current"
    ensures GetCurrentHoudiniVersion(baseDir, links, MacPattern) == Some("20.5")
  {
    JoinRelative(baseDir, "Current");
    var name := "Houdini20.5.278";
    assert forall i :: 0 <= i < |name| ==> name[i] != '/';
    ComponentStartAfter(dir, name);
    assert Basename(dir + name) == name;
    MacExample();
  }

  /** `main` on macOS: `/Applications/Houdini/Current` linking to a 20.5.278 installation. */
  lemma MacBaseDirExample(links: map<string, string>)
    requires links == map[MacBaseDir + "/" + "Current" := MacBaseDir + "/" + "Houdini20.5.278"]
    ensures CurrentPath(MacBaseDir) == MacBaseDir + "/" + "Current"
    ensures GetCurrentHoudiniVersion(MacBaseDir, links, MacPattern) == Some("20.5")
  {
    MacCurrentExample(MacBaseDir, MacBaseDir + "/", links);
  }

}

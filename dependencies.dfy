/**
  `_find_dependency_files` and its three scanners (git_commit_analyzer.py):
  the repository files that a changed file imports, as far as they exist.
  What the import regular expressions find in a file is the oracle
  `env.importTargets`; `os.path.exists` is `env.pathExists`.
 */
module Dependencies {
  import opened Wrappers
  import opened PyText
  import opened GitLog

  // ---------------------------------------------------------------------
  // POSIX path helpers
  // ---------------------------------------------------------------------

  /** `p.rfind('/') + 1`: the length of `p` up to and including its last slash. */
  function LastSlashEnd(p: string): (i: nat)
    ensures i <= |p|
    ensures i > 0 ==> p[i - 1] == '/'
    ensures forall k :: i <= k < |p| ==> p[k] != '/'
    decreases |p|
  {
    if p == [] then 0
    else if p[|p| - 1] == '/' then |p|
    else LastSlashEnd(p[..|p| - 1])
  }

  predicate AllSlashes(s: string) {
    forall i :: 0 <= i < |s| ==> s[i] == '/'
  }

  /** `os.path.dirname(p)`: everything before the last slash, trailing slashes dropped unless it is all slashes. */
  function DirName(p: string): (d: string)
    ensures |d| <= |p| && d == p[..|d|]
  {
    var head := p[..LastSlashEnd(p)];
    if head != "" && !AllSlashes(head) then RStripChars(head, {'/'}) else head
  }

  /** `os.path.join(a, b)` for two components. */
  function PathJoin(a: string, b: string): (r: string)
    ensures EndsWith(r, b)
    ensures !StartsWith(b, "/") ==> StartsWith(r, a)
  {
    if StartsWith(b, "/") then b
    else if a == "" || EndsWith(a, "/") then a + b
    else a + "/" + b
  }

  /** The component loop of `os.path.normpath`: drop empty and `.` parts, let `..` cancel the part before it. */
  function NormComponents(comps: seq<string>, rooted: bool, acc: seq<string>): seq<string>
    decreases |comps|
  {
    if comps == [] then acc
    else
      var comp := comps[0];
      var next :=
        if comp == "" || comp == "." then acc
        else if comp != ".." || (!rooted && acc == []) || (acc != [] && acc[|acc| - 1] == "..") then acc + [comp]
        else if acc != [] then acc[..|acc| - 1]
        else acc;
      NormComponents(comps[1..], rooted, next)
  }

  /** `os.path.normpath(path)` (POSIX): one or two leading slashes are kept, three or more become one. */
  function NormPath(path: string): (r: string)
    ensures r != ""
    ensures StartsWith(path, "/") ==> StartsWith(r, "/")
  {
    if path == "" then "."
    else
      var slashes := if path[0] != '/' then "" else if StartsWith(path, "//") && !StartsWith(path, "///") then "//" else "/";
      var p := slashes + Join(NormComponents(Split(path, '/'), slashes != "", []), "/");
      if p == "" then "." else p
  }

  /** A component a normalised path may keep. */
  predicate PlainComponent(c: string) {
    c != "" && c != "." && c != ".."
  }

  predicate CleanComponents(comps: seq<string>) {
    forall i :: 0 <= i < |comps| ==> comps[i] != "" && comps[i] != "."
  }

  /** The components kept are never empty or `.`, and a rooted path keeps no `..`. */
  lemma {:induction false} NormComponentsClean(comps: seq<string>, rooted: bool, acc: seq<string>)
    requires CleanComponents(acc)
    requires rooted ==> ".." !in acc
    ensures CleanComponents(NormComponents(comps, rooted, acc))
    ensures rooted ==> ".." !in NormComponents(comps, rooted, acc)
    decreases |comps|
  {
    if comps != [] {
      var comp := comps[0];
      var next :=
        if comp == "" || comp == "." then acc
        else if comp != ".." || (!rooted && acc == []) || (acc != [] && acc[|acc| - 1] == "..") then acc + [comp]
        else if acc != [] then acc[..|acc| - 1]
        else acc;
      if next != acc && next != acc + [comp] {
        assert acc != [] && next == acc[..|acc| - 1];
        assert forall i :: 0 <= i < |next| ==> next[i] == acc[i];
        assert forall x :: x in next ==> x in acc;
      }
      NormComponentsClean(comps[1..], rooted, next);
    }
  }

  /** Plain components pass through the component loop unchanged. */
  lemma {:induction false} NormComponentsPlain(comps: seq<string>, rooted: bool, acc: seq<string>)
    requires forall i :: 0 <= i < |comps| ==> PlainComponent(comps[i])
    ensures NormComponents(comps, rooted, acc) == acc + comps
    decreases |comps|
  {
    if comps != [] {
      NormComponentsPlain(comps[1..], rooted, acc + [comps[0]]);
      assert acc + [comps[0]] + comps[1..] == acc + comps;
    }
  }

  /** A relative path made of plain components is already normal. */
  lemma NormPathOfPlain(path: string)
    requires path != "" && path[0] != '/'
    requires forall i :: 0 <= i < |Split(path, '/')| ==> PlainComponent(Split(path, '/')[i])
    ensures NormPath(path) == path
  {
    NormComponentsPlain(Split(path, '/'), false, []);
    assert [] + Split(path, '/') == Split(path, '/');
    SplitJoin(path, '/');
  }

  /** `'/'.join(s.split(a))` is `s.replace(a, '/')`. */
  lemma JoinSplitReplaces(s: string, a: char, b: char)
    ensures Join(Split(s, a), [b]) == ReplaceAll(s, a, b)
  {
    JoinSplitReplaced(s, a, b);
    ReplacedIsReplaceAll(s, a, b);
  }

  /** `ReplaceAll` character by character, from the front. */
  function Replaced(s: string, a: char, b: char): string
    decreases |s|
  {
    if s == [] then [] else [if s[0] == a then b else s[0]] + Replaced(s[1..], a, b)
  }

  lemma {:induction false} ReplacedIsReplaceAll(s: string, a: char, b: char)
    ensures Replaced(s, a, b) == ReplaceAll(s, a, b)
    decreases |s|
  {
    if s != [] {
      ReplacedIsReplaceAll(s[1..], a, b);
      ReplaceAllCons(s, a, b);
    }
  }

  lemma {:induction false} JoinSplitReplaced(s: string, a: char, b: char)
    ensures Join(Split(s, a), [b]) == Replaced(s, a, b)
    decreases |s|
  {
    if s != [] {
      var rest := Split(s[1..], a);
      JoinSplitReplaced(s[1..], a, b);
      JoinFront(s[0], rest, [b], Replaced(s[1..], a, b));
    }
  }

  lemma ReplaceAllCons(s: string, a: char, b: char)
    requires s != []
    ensures ReplaceAll(s, a, b) == [if s[0] == a then b else s[0]] + ReplaceAll(s[1..], a, b)
  {
  }

  // ---------------------------------------------------------------------
  // The three scanners, target by target
  // ---------------------------------------------------------------------

  /** The union of what `hits` gives each target. */
  function Gathered(hits: string -> set<string>, targets: seq<string>): set<string>
    decreases |targets|
  {
    if targets == [] then {}
    else Gathered(hits, targets[..|targets| - 1]) + hits(targets[|targets| - 1])
  }

  lemma {:induction false} GatheredIff(hits: string -> set<string>, targets: seq<string>, p: string)
    ensures p in Gathered(hits, targets) <==> exists t :: t in targets && p in hits(t)
    decreases |targets|
  {
    if targets != [] {
      var init, last := targets[..|targets| - 1], targets[|targets| - 1];
      GatheredIff(hits, init, p);
      assert targets == init + [last];
      if exists t :: t in targets && p in hits(t) {
        var t :| t in targets && p in hits(t);
        if t != last {
          assert t in init;
        }
      }
    }
  }

  /** The two local files a Python module name may live in. */
  function PythonCandidates(name: string): (cs: seq<string>)
    ensures |cs| == 2
  {
    var base := ReplaceAll(name, '.', '/');
    [base + ".py", base + "/__init__.py"]
  }

  /** What one Python import target contributes: each existing candidate, unless the target is empty or relative. */
  function PythonHits(env: Env, name: string): (ps: set<string>)
    ensures name == "" || name[0] == '.' ==> ps == {}
    ensures forall p :: p in ps ==> p in PythonCandidates(name) && env.pathExists(p)
  {
    if name == "" || name[0] == '.' then {}
    else set p | p in PythonCandidates(name) && env.pathExists(p)
  }

  const ScriptExtensions: seq<string> := [".js", ".ts", ".jsx", ".tsx"]

  /** The paths tried for a relative script import, in order. */
  function ScriptCandidates(file: string, target: string): (cs: seq<string>)
    ensures |cs| == |ScriptExtensions|
  {
    var base := NormPath(PathJoin(DirName(file), target));
    seq(|ScriptExtensions|, i requires 0 <= i < |ScriptExtensions| => base + ScriptExtensions[i])
  }

  /** The first of `paths` that exists. */
  function FirstExisting(env: Env, paths: seq<string>): (r: Option<nat>)
    ensures r.Some? ==> r.value < |paths| && env.pathExists(paths[r.value])
    ensures r.Some? ==> forall j :: 0 <= j < r.value ==> !env.pathExists(paths[j])
    ensures r.None? ==> forall j :: 0 <= j < |paths| ==> !env.pathExists(paths[j])
    decreases |paths|
  {
    if paths == [] then None
    else if env.pathExists(paths[0]) then Some(0)
    else
      match FirstExisting(env, paths[1..])
      case None => None
      case Some(i) => Some(i + 1)
  }

  /** What one script import target contributes: the first existing candidate, for a relative target only. */
  function ScriptHits(env: Env, file: string, target: string): (ps: set<string>)
    ensures |ps| <= 1
    ensures target == "" || target[0] != '.' ==> ps == {}
  {
    if target == "" || target[0] != '.' then {}
    else
      var cs := ScriptCandidates(file, target);
      match FirstExisting(env, cs)
      case None => {}
      case Some(i) => {cs[i]}
  }

  /** `'/'.join(target.split('.')) + '.java'`. */
  function JavaPath(target: string): string {
    Join(Split(target, '.'), "/") + ".java"
  }

  /** What one Java import target contributes: its path, if it exists. */
  function JavaHits(env: Env, target: string): (ps: set<string>)
    ensures forall p :: p in ps <==> p == JavaPath(target) && env.pathExists(p)
  {
    var p := JavaPath(target);
    if env.pathExists(p) then {p} else {}
  }

  /** A Java target's path is the package name with its dots made slashes. */
  lemma JavaPathReplacesDots(target: string)
    ensures JavaPath(target) == ReplaceAll(target, '.', '/') + ".java"
  {
    JoinSplitReplaces(target, '.', '/');
  }

  // ---------------------------------------------------------------------
  // The scanners as loops
  // ---------------------------------------------------------------------

  /** The three per-target contributions as function values, for `Gathered`. */
  function PythonHitsOf(env: Env): (hits: string -> set<string>)
    ensures forall t :: hits(t) == PythonHits(env, t)
  {
    t => PythonHits(env, t)
  }

  function ScriptHitsOf(env: Env, file: string): (hits: string -> set<string>)
    ensures forall t :: hits(t) == ScriptHits(env, file, t)
  {
    t => ScriptHits(env, file, t)
  }

  function JavaHitsOf(env: Env): (hits: string -> set<string>)
    ensures forall t :: hits(t) == JavaHits(env, t)
  {
    t => JavaHits(env, t)
  }

  /** One more target adds what it contributes. */
  lemma GatheredStep(hits: string -> set<string>, targets: seq<string>, i: nat)
    requires i < |targets|
    ensures Gathered(hits, targets[..i + 1]) == Gathered(hits, targets[..i]) + hits(targets[i])
  {
    assert targets[..i + 1][..i] == targets[..i];
  }

  /** `_find_python_dependencies`. */
  method PythonDependencies(env: Env, file: string) returns (deps: set<string>)
    ensures deps == Gathered(PythonHitsOf(env), env.importTargets(file))
  {
    deps := {};
    var targets := env.importTargets(file);
    for i := 0 to |targets|
      invariant deps == Gathered(PythonHitsOf(env), targets[..i])
    {
      var found := PythonTargetHits(env, targets[i]);
      GatheredStep(PythonHitsOf(env), targets, i);
      deps := deps + found;
    }
    assert targets[..|targets|] == targets;
  }

  /** The body of the target loop of `_find_python_dependencies`: the candidates of an absolute module that exist. */
  method PythonTargetHits(env: Env, name: string) returns (found: set<string>)
    ensures found == PythonHits(env, name)
  {
    found := {};
    if name != "" && name[0] != '.' {
      var candidates := PythonCandidates(name);
      for j := 0 to |candidates|
        invariant found == set p | p in candidates[..j] && env.pathExists(p)
      {
        assert candidates[..j + 1] == candidates[..j] + [candidates[j]];
        if env.pathExists(candidates[j]) {
          found := found + {candidates[j]};
        }
      }
      assert candidates[..|candidates|] == candidates;
    }
  }

  /** `_find_js_dependencies`: for each relative target, the first candidate that exists. */
  method ScriptDependencies(env: Env, file: string) returns (deps: set<string>)
    ensures deps == Gathered(ScriptHitsOf(env, file), env.importTargets(file))
  {
    deps := {};
    var targets := env.importTargets(file);
    for i := 0 to |targets|
      invariant deps == Gathered(ScriptHitsOf(env, file), targets[..i])
    {
      var found := ScriptTargetHits(env, file, targets[i]);
      GatheredStep(ScriptHitsOf(env, file), targets, i);
      deps := deps + found;
    }
    assert targets[..|targets|] == targets;
  }

  /** The body of the target loop of `_find_js_dependencies`. */
  method ScriptTargetHits(env: Env, file: string, target: string) returns (found: set<string>)
    ensures found == ScriptHits(env, file, target)
  {
    found := {};
    if target != "" && target[0] == '.' {
      var candidates := ScriptCandidates(file, target);
      var j := FirstExistingIndex(env, candidates);
      if j < |candidates| {
        found := {candidates[j]};
      }
    }
  }

  /** The extension loop of `_find_js_dependencies`: the index of the first existing path, `|paths|` when none exists. */
  method FirstExistingIndex(env: Env, paths: seq<string>) returns (j: nat)
    ensures j <= |paths|
    ensures FirstExisting(env, paths) == if j < |paths| then Some(j) else None
  {
    j := 0;
    while j < |paths|
      invariant 0 <= j <= |paths|
      invariant forall k :: 0 <= k < j ==> !env.pathExists(paths[k])
    {
      if env.pathExists(paths[j]) {
        break;
      }
      j := j + 1;
    }
    FirstExistingAt(env, paths, j);
  }

  lemma {:induction false} FirstExistingAt(env: Env, paths: seq<string>, j: nat)
    requires j <= |paths|
    requires forall k :: 0 <= k < j ==> !env.pathExists(paths[k])
    requires j < |paths| ==> env.pathExists(paths[j])
    ensures FirstExisting(env, paths) == if j < |paths| then Some(j) else None
    decreases |paths|
  {
    if paths != [] && j > 0 {
      FirstExistingAt(env, paths[1..], j - 1);
    }
  }

  /** `_find_java_dependencies`. */
  method JavaDependencies(env: Env, file: string) returns (deps: set<string>)
    ensures deps == Gathered(JavaHitsOf(env), env.importTargets(file))
  {
    deps := {};
    var targets := env.importTargets(file);
    for i := 0 to |targets|
      invariant deps == Gathered(JavaHitsOf(env), targets[..i])
    {
      GatheredStep(JavaHitsOf(env), targets, i);
      var path := Join(Split(targets[i], '.'), "/") + ".java";
      if env.pathExists(path) {
        deps := deps + {path};
      }
    }
    assert targets[..|targets|] == targets;
  }

  // ---------------------------------------------------------------------
  // Dispatch over the changed files
  // ---------------------------------------------------------------------

  datatype Scanner = PythonScanner | ScriptScanner | JavaScanner

  /** The scanner a file's extension selects; `.jsx` and `.tsx` files select none. */
  function ScannerFor(file: string): (s: Option<Scanner>)
    ensures s.None? <==> !EndsWith(file, ".py") && !EndsWith(file, ".js") && !EndsWith(file, ".ts") && !EndsWith(file, ".java")
  {
    if EndsWith(file, ".py") then Some(PythonScanner)
    else if EndsWith(file, ".js") || EndsWith(file, ".ts") then Some(ScriptScanner)
    else if EndsWith(file, ".java") then Some(JavaScanner)
    else None
  }

  /** The dependencies of one changed file: none when it no longer exists or no scanner applies. */
  function FileDependencies(env: Env, file: string): set<string> {
    if !env.pathExists(file) then {}
    else
      match ScannerFor(file)
      case None => {}
      case Some(PythonScanner) => Gathered(PythonHitsOf(env), env.importTargets(file))
      case Some(ScriptScanner) => Gathered(ScriptHitsOf(env, file), env.importTargets(file))
      case Some(JavaScanner) => Gathered(JavaHitsOf(env), env.importTargets(file))
  }

  /** The union of the dependencies of `files`. */
  function DependenciesOf(env: Env, files: set<string>): set<string> {
    set f, p | f in files && p in FileDependencies(env, f) :: p
  }

  /** The body of the loop of `_find_dependency_files`: the scanner the extension selects, for an existing file. */
  method ScanFile(env: Env, file: string) returns (found: set<string>)
    ensures found == FileDependencies(env, file)
  {
    found := {};
    if env.pathExists(file) {
      if EndsWith(file, ".py") {
        found := PythonDependencies(env, file);
      } else if EndsWith(file, ".js") || EndsWith(file, ".ts") {
        found := ScriptDependencies(env, file);
      } else if EndsWith(file, ".java") {
        found := JavaDependencies(env, file);
      }
    }
  }

  /** `_find_dependency_files`. */
  method FindDependencyFiles(env: Env, files: set<string>) returns (deps: set<string>)
    ensures deps == DependenciesOf(env, files)
  {
    deps := {};
    var left := files;
    while left != {}
      invariant left <= files
      invariant deps == DependenciesOf(env, files - left)
      decreases |left|
    {
      var file :| file in left;
      var found := ScanFile(env, file);
      DependenciesOfAdd(env, files - left, file);
      assert (files - left) + {file} == files - (left - {file});
      deps := deps + found;
      left := left - {file};
    }
  }

  lemma DependenciesOfAdd(env: Env, done: set<string>, file: string)
    ensures DependenciesOf(env, done + {file}) == DependenciesOf(env, done) + FileDependencies(env, file)
  {
  }

  // ---------------------------------------------------------------------
  // What the discoverer guarantees
  // ---------------------------------------------------------------------

  /** Every dependency of a file is a path whose existence check passed. */
  lemma FileDependenciesExist(env: Env, file: string, p: string)
    requires p in FileDependencies(env, file)
    ensures env.pathExists(p)
  {
    var targets := env.importTargets(file);
    match ScannerFor(file)
    case Some(PythonScanner) =>
      GatheredIff(PythonHitsOf(env), targets, p);
    case Some(ScriptScanner) =>
      GatheredIff(ScriptHitsOf(env, file), targets, p);
      var t :| t in targets && p in ScriptHits(env, file, t);
    case Some(JavaScanner) =>
      GatheredIff(JavaHitsOf(env), targets, p);
  }

  /** Only existing paths are reported, and nothing for a missing file or an unscanned extension. */
  lemma DependenciesExist(env: Env, files: set<string>)
    ensures forall p :: p in DependenciesOf(env, files) ==> env.pathExists(p)
    ensures forall f :: f in files && (!env.pathExists(f) || ScannerFor(f).None?) ==> FileDependencies(env, f) == {}
  {
    forall p | p in DependenciesOf(env, files) ensures env.pathExists(p) {
      var f :| f in files && p in FileDependencies(env, f);
      FileDependenciesExist(env, f, p);
    }
  }

  /** A Python file depends on exactly the existing candidates of its non-relative targets. */
  lemma PythonDependencyIff(env: Env, file: string, p: string)
    requires env.pathExists(file) && EndsWith(file, ".py")
    ensures p in FileDependencies(env, file) <==>
      exists t :: t in env.importTargets(file) && t != "" && t[0] != '.'
        && (p == ReplaceAll(t, '.', '/') + ".py" || p == ReplaceAll(t, '.', '/') + "/__init__.py")
        && env.pathExists(p)
  {
    GatheredIff(PythonHitsOf(env), env.importTargets(file), p);
  }

  /** `cs[i]` is the first of `cs` that exists. */
  predicate FirstFound(env: Env, cs: seq<string>, i: int) {
    0 <= i < |cs| && env.pathExists(cs[i]) && forall j :: 0 <= j < i ==> !env.pathExists(cs[j])
  }

  /** One script target contributes the first of its candidates that exists, if it is relative, and nothing else. */
  lemma ScriptHitsIff(env: Env, file: string, t: string, p: string)
    ensures p in ScriptHits(env, file, t) <==>
      t != "" && t[0] == '.' && exists i :: FirstFound(env, ScriptCandidates(file, t), i) && p == ScriptCandidates(file, t)[i]
  {
    var cs := ScriptCandidates(file, t);
    if t != "" && t[0] == '.' {
      assert ScriptHits(env, file, t) == if FirstExisting(env, cs).Some? then {cs[FirstExisting(env, cs).value]} else {};
      if p in ScriptHits(env, file, t) {
        var i := FirstExisting(env, cs).value;
        assert FirstFound(env, cs, i) && p == cs[i];
      }
      if exists i :: FirstFound(env, cs, i) && p == cs[i] {
        var i :| FirstFound(env, cs, i) && p == cs[i];
        FirstExistingAt(env, cs, i);
      }
    }
  }

  /** A script file depends on at most one path per relative target, the first existing candidate, and on nothing for other targets. */
  lemma ScriptDependencyIff(env: Env, file: string, p: string)
    requires env.pathExists(file) && ScannerFor(file) == Some(ScriptScanner)
    ensures p in FileDependencies(env, file) <==>
      exists t, i :: t in env.importTargets(file) && t != "" && t[0] == '.'
        && FirstFound(env, ScriptCandidates(file, t), i) && p == ScriptCandidates(file, t)[i]
  {
    GatheredIff(ScriptHitsOf(env, file), env.importTargets(file), p);
    forall t | t in env.importTargets(file)
      ensures p in ScriptHits(env, file, t) <==>
        t != "" && t[0] == '.' && exists i :: FirstFound(env, ScriptCandidates(file, t), i) && p == ScriptCandidates(file, t)[i]
    {
      ScriptHitsIff(env, file, t, p);
    }
  }

  /** A Java file depends on exactly the existing package paths of its targets. */
  lemma JavaDependencyIff(env: Env, file: string, p: string)
    requires env.pathExists(file) && ScannerFor(file) == Some(JavaScanner)
    ensures p in FileDependencies(env, file) <==>
      exists t :: t in env.importTargets(file) && p == ReplaceAll(t, '.', '/') + ".java" && env.pathExists(p)
  {
    var targets := env.importTargets(file);
    GatheredIff(JavaHitsOf(env), targets, p);
    forall t | t in targets ensures JavaPath(t) == ReplaceAll(t, '.', '/') + ".java" {
      JavaPathReplacesDots(t);
    }
  }

  lemma DirNameOfSourceFile(file: string)
    requires file == "src/app.js"
    ensures DirName(file) == "src"
  {
    assert LastSlashEnd(file) == 4 by {
      var i := LastSlashEnd(file);
      assert file[3] == '/';
      assert forall k :: 4 <= k < |file| ==> file[k] != '/';
    }
    assert file[..4] == "src/";
    assert !AllSlashes("src/") by {
      assert "src/"[0] != '/';
    }
    assert RStripChars("src/", {'/'}) == RStripChars("src", {'/'});
  }

  lemma SplitParentPath(path: string)
    requires path == "src/../lib/api"
    ensures Split(path, '/') == ["src", "..", "lib", "api"]
  {
    assert path == "src" + ['/'] + ".." + ['/'] + "lib" + ['/'] + "api";
    SplitFour("src", "..", "lib", "api", '/');
  }

  lemma SplitFour(w: string, x: string, y: string, z: string, sep: char)
    requires sep !in w && sep !in x && sep !in y && sep !in z
    ensures Split(w + [sep] + x + [sep] + y + [sep] + z, sep) == [w, x, y, z]
  {
    Regroup(w, [sep], x, [sep], y, [sep], z);
    SplitCons(w, x + [sep] + y + [sep] + z, sep);
    SplitThree(x, y, z, sep);
  }

  lemma Regroup<T>(a: seq<T>, b: seq<T>, c: seq<T>, d: seq<T>, e: seq<T>, f: seq<T>, g: seq<T>)
    ensures a + b + c + d + e + f + g == a + b + (c + d + e + f + g)
  {
  }

  lemma JoinLibApi(parts: seq<string>)
    requires parts == ["lib", "api"]
    ensures Join(parts, "/") == "lib/api"
  {
    assert parts[1..] == ["api"];
  }

  lemma PathJoinRelative(a: string, b: string)
    requires a != "" && a[|a| - 1] != '/' && b != "" && b[0] != '/'
    ensures PathJoin(a, b) == a + "/" + b
  {
    assert b[..1] != "/";
    assert a[|a| - 1..] != "/";
  }

  lemma NormPathOfParent(path: string)
    requires path == "src/../lib/api"
    ensures NormPath(path) == "lib/api"
  {
    SplitParentPath(path);
    var comps := Split(path, '/');
    NormParentComponents(comps);
    JoinLibApi(NormComponents(comps, false, []));
    assert path[0] == 's';
    assert NormPath(path) == "" + Join(NormComponents(comps, false, []), "/");
  }

  lemma NormParentComponents(comps: seq<string>)
    requires comps == ["src", "..", "lib", "api"]
    ensures NormComponents(comps, false, []) == ["lib", "api"]
  {
    var rest := ["lib", "api"];
    NormParentCancels(comps, rest);
    NormKeepsPlain(rest);
  }

  /** `src` followed by `..` leaves nothing. */
  lemma NormParentCancels(comps: seq<string>, rest: seq<string>)
    requires comps == ["src", ".."] + rest
    ensures NormComponents(comps, false, []) == NormComponents(rest, false, [])
  {
    assert comps[1..] == [".."] + rest;
    assert comps[1..][1..] == rest;
    assert NormComponents(comps, false, []) == NormComponents([".."] + rest, false, ["src"]);
  }

  lemma NormKeepsPlain(rest: seq<string>)
    requires rest == ["lib", "api"]
    ensures NormComponents(rest, false, []) == ["lib", "api"]
  {
    assert rest[1..] == ["api"];
    assert NormComponents(rest, false, []) == NormComponents(["api"], false, ["lib"]);
    assert NormComponents(["api"], false, ["lib"]) == NormComponents([], false, ["lib", "api"]);
  }

  lemma ScriptCandidatesFirst(file: string, t: string, base: string)
    requires base == NormPath(PathJoin(DirName(file), t))
    ensures ScriptCandidates(file, t)[0] == base + ".js"
  {
  }

  lemma ParentImportAt(file: string, t: string)
    requires file == "src/app.js" && t == "../lib/api"
    ensures ScriptCandidates(file, t)[0] == "lib/api.js"
  {
    var dir := DirName(file);
    DirNameOfSourceFile(file);
    var joined := PathJoin(dir, t);
    PathJoinRelative(dir, t);
    assert joined == "src/../lib/api";
    NormPathOfParent(joined);
    ScriptCandidatesFirst(file, t, NormPath(joined));
  }

  /**
    `../lib/api` imported from `src/app.js` is looked for as `lib/api.js`
    first: the `..` cancels the directory `src`.
   */
  lemma ParentImportResolved()
    ensures ScriptCandidates("src/app.js", "../lib/api")[0] == "lib/api.js"
  {
    ParentImportAt("src/app.js", "../lib/api");
  }
}

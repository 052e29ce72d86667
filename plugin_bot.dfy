/** The bot client's own logic: which plugin files it loads and under which
    dotted module name, the count of loaded plugins, the normalisation of
    the log group identifier, and what the message-handler wrapper does
    with each exception a handler raises. Paths are POSIX paths. */
module PluginBot {
  import opened Text

  // ----- POSIX path helpers ------------------------------------------------------

  /** Index just after the last `/` of `p`, 0 when there is none. */
  function NameStart(p: string): (k: nat)
    ensures k <= |p| && '/' !in p[k..]
    ensures k > 0 ==> p[k - 1] == '/'
    decreases |p|
  {
    if p == [] then 0
    else if p[|p| - 1] == '/' then |p|
    else
      var k := NameStart(p[..|p| - 1]);
      assert p[k..] == p[..|p| - 1][k..] + [p[|p| - 1]];
      k
  }

  /** `os.path.basename(p)`: what follows the last `/`. */
  function Basename(p: string): (r: string)
    ensures '/' !in r && EndsWith(p, r)
    ensures '/' !in p ==> r == p
  {
    var k := NameStart(p);
    assert '/' !in p ==> k == 0;
    p[k..]
  }

  /** Index of the last `.` of `s`. */
  function LastDot(s: string): (k: nat)
    requires '.' in s
    ensures k < |s| && s[k] == '.' && '.' !in s[k + 1..]
    decreases |s|
  {
    if s[|s| - 1] == '.' then |s| - 1
    else
      assert '.' in s[..|s| - 1];
      var k := LastDot(s[..|s| - 1]);
      assert s[k + 1..] == s[..|s| - 1][k + 1..] + [s[|s| - 1]];
      k
  }

  /** `os.path.splitext(name)` for a file name: the extension is the part
      from the last dot on, unless only dots precede that dot (a leading-dot
      name such as `.py` has no extension). */
  function SplitExt(name: string): (r: (string, string))
    ensures r.0 + r.1 == name
    ensures r.1 == [] || (r.1[0] == '.' && '.' !in r.1[1..])
    ensures r.1 != [] ==> !AllDots(r.0)
  {
    if '.' !in name then (name, [])
    else
      var dot := LastDot(name);
      if !AllDots(name[..dot]) then
        assert name[..dot] + name[dot..] == name;
        (name[..dot], name[dot..])
      else (name, [])
  }

  /** Whether `s` is made of dots only. */
  predicate AllDots(s: string)
    decreases |s|
  {
    s == [] || (s[0] == '.' && AllDots(s[1..]))
  }

  /** A string with a character other than a dot is not all dots. */
  lemma {:induction false} NotAllDots(s: string, i: nat)
    requires i < |s| && s[i] != '.'
    ensures !AllDots(s)
    decreases i
  {
    if i > 0 && s[0] == '.' {
      NotAllDots(s[1..], i - 1);
    }
  }

  /** The extension `.py` of a name `stem + ".py"` whose stem is not all
      dots. */
  lemma {:induction false} PyExtension(stem: string)
    requires exists i :: 0 <= i < |stem| && stem[i] != '.'
    ensures SplitExt(stem + ".py") == (stem, ".py")
  {
    var name := stem + ".py";
    assert name == (stem + ".") + "py";
    assert LastDot(stem + ".") == |stem|;
    LastDotAppend(stem + ".", "py");
    var dot := LastDot(name);
    var i :| 0 <= i < |stem| && stem[i] != '.';
    assert name[..dot] == stem;
    NotAllDots(stem, i);
  }

  /** Text without dots after the last dot leaves it the last. */
  lemma {:induction false} LastDotAppend(s: string, t: string)
    requires '.' in s && '.' !in t
    ensures LastDot(s + t) == LastDot(s)
    decreases |t|
  {
    if t != [] {
      var u := t[..|t| - 1];
      assert (s + t)[..|s + t| - 1] == s + u;
      assert (s + t)[|s + t| - 1] == t[|t| - 1];
      assert '.' !in u;
      LastDotAppend(s, u);
    } else {
      assert s + t == s;
    }
  }

  /** A file named `.py` has no extension. */
  lemma {:induction false} DotPyHasNoExtension()
    ensures SplitExt(".py") == (".py", [])
  {
    assert LastDot(".py") == 0;
    assert ".py"[..0] == [];
  }

  // ----- load_plugin -------------------------------------------------------------

  /** `os.path.relpath(path, base).replace(os.sep, ".")`: every `/` of the
      relative path becomes a dot. */
  function Dotted(s: string): (r: string)
    ensures |r| == |s|
    ensures forall i :: 0 <= i < |s| ==> r[i] == (if s[i] == '/' then '.' else s[i])
  {
    seq(|s|, i requires 0 <= i < |s| => if s[i] == '/' then '.' else s[i])
  }

  /** Python's `s[:-3]`. */
  function DropLast3(s: string): (r: string)
    ensures |s| >= 3 ==> s == r + s[|s| - 3..]
    ensures |s| < 3 ==> r == []
  {
    if |s| >= 3 then s[..|s| - 3] else []
  }

  /** The module name of the plugin at `rel` (relative to `baseDir`):
      the base directory's name, a dot, and the relative path dotted,
      without its last three characters (`.py`). */
  function ModulePath(baseDir: string, rel: string): string {
    Basename(baseDir) + "." + DropLast3(Dotted(rel))
  }

  /** Whether `load_plugin` loads the file named `name`: its stem must not
      start with `__` and its extension must be `.py`. */
  predicate IsPlugin(name: string) {
    var (stem, ext) := SplitExt(name);
    !StartsWith(stem, "__") && ext == ".py"
  }

  /** A loadable plugin's name ends in `.py`. */
  lemma {:induction false} PluginEndsInPy(name: string)
    requires IsPlugin(name)
    ensures EndsWith(name, ".py") && |name| > 3
  {
    var r := SplitExt(name);
    assert name == r.0 + ".py";
    assert name[|name| - 3..] == ".py";
  }

  /** `__init__.py` and other dunder files are not loaded. */
  lemma {:induction false} DunderNotPlugin(stem: string)
    requires StartsWith(stem, "__")
    ensures !IsPlugin(stem + ".py")
  {
    assert stem[..2] == "__";
    assert stem[0] != '.';
    PyExtension(stem);
  }

  /** Dotting distributes over concatenation. */
  lemma {:induction false} DottedAppend(a: string, b: string)
    ensures Dotted(a + b) == Dotted(a) + Dotted(b)
  {
  }

  /** A path made of components joined by `/` is dotted into the same
      components joined by `.`. */
  lemma {:induction false} DottedJoin(parts: seq<string>)
    requires forall i :: 0 <= i < |parts| ==> '/' !in parts[i]
    ensures Dotted(Join(parts, '/')) == Join(parts, '.')
    decreases |parts|
  {
    if |parts| == 1 {
      assert Dotted(parts[0]) == parts[0];
    } else if |parts| > 1 {
      DottedJoin(parts[1..]);
      DottedAppend(parts[0] + ['/'], Join(parts[1..], '/'));
      DottedAppend(parts[0], ['/']);
      assert Dotted(parts[0]) == parts[0];
    }
  }

  /** The last component carries the suffix of the whole joined path. */
  lemma {:induction false} JoinLastSuffix(parts: seq<string>, last: string, suffix: string, sep: char)
    ensures Join(parts + [last + suffix], sep) == Join(parts + [last], sep) + suffix
    decreases |parts|
  {
    if parts != [] {
      assert (parts + [last + suffix])[1..] == parts[1..] + [last + suffix];
      assert (parts + [last])[1..] == parts[1..] + [last];
      JoinLastSuffix(parts[1..], last, suffix, sep);
    }
  }

  /** The dotted relative path of `dirs/.../stem.py` is `dirs....stem.py`. */
  lemma {:induction false} DottedPath(dirs: seq<string>, stem: string)
    requires forall i :: 0 <= i < |dirs| ==> '/' !in dirs[i]
    requires '/' !in stem
    ensures Dotted(Join(dirs + [stem + ".py"], '/')) == Join(dirs + [stem], '.') + ".py"
  {
    var parts := dirs + [stem + ".py"];
    assert forall i :: 0 <= i < |parts| ==> '/' !in parts[i];
    DottedJoin(parts);
    JoinLastSuffix(dirs, stem, ".py", '.');
  }

  /** The module name of `dirs/.../stem.py` under `baseDir` is
      `base.dirs....stem`. */
  lemma {:induction false} ModulePathOf(baseDir: string, dirs: seq<string>, stem: string)
    requires forall i :: 0 <= i < |dirs| ==> '/' !in dirs[i]
    requires '/' !in stem
    ensures ModulePath(baseDir, Join(dirs + [stem + ".py"], '/')) == Join([Basename(baseDir)] + dirs + [stem], '.')
  {
    DottedPath(dirs, stem);
    var j := Join(dirs + [stem], '.');
    assert DropLast3(j + ".py") == j;
    JoinCons(Basename(baseDir), dirs + [stem], '.');
    assert [Basename(baseDir)] + dirs + [stem] == [Basename(baseDir)] + (dirs + [stem]);
  }

  /** Splitting the module name at its dots gives back the base name, the
      directories and the stem, when none of them holds a dot. */
  lemma {:induction false} ModulePathRoundTrip(baseDir: string, dirs: seq<string>, stem: string)
    requires forall i :: 0 <= i < |dirs| ==> '/' !in dirs[i] && '.' !in dirs[i]
    requires '/' !in stem && '.' !in stem && '.' !in Basename(baseDir)
    ensures Split(ModulePath(baseDir, Join(dirs + [stem + ".py"], '/')), '.') == [Basename(baseDir)] + dirs + [stem]
  {
    ModulePathOf(baseDir, dirs, stem);
    var parts := [Basename(baseDir)] + dirs + [stem];
    forall i | 0 <= i < |parts|
      ensures '.' !in parts[i]
    {
      if 0 < i < |parts| - 1 {
        assert parts[i] == dirs[i - 1];
      }
    }
    SplitJoin(parts, '.');
  }

  /** What `load_plugin` gives: None for a file it skips, the module when
      it runs, or the exit of the process when running it raises. */
  datatype LoadResult = Skipped | Loaded(modulePath: string) | Failed(modulePath: string)

  /** The result of `load_plugin` for the file at `rel` under `baseDir`;
      `fails` holds the relative paths whose module raises when run. */
  function PluginResult(baseDir: string, rel: string, fails: set<string>): LoadResult {
    if !IsPlugin(Basename(rel)) then Skipped
    else if rel in fails then Failed(ModulePath(baseDir, rel))
    else Loaded(ModulePath(baseDir, rel))
  }

  // ----- load_plugins_from ---------------------------------------------------------

  /** One directory of the walk: its path relative to the base directory
      ("" for the base itself) and its file names in listing order. */
  datatype WalkDir = WalkDir(rel: string, files: seq<string>)

  /** The relative path of file `f` of directory `rel`. */
  function PathOf(rel: string, f: string): string {
    if rel == [] then f else rel + "/" + f
  }

  /** Whether `load_plugins_from` hands a file to `load_plugin`. */
  predicate Visits(f: string) {
    EndsWith(f, ".py") && f != "utils.py"
  }

  /** The files of one directory that are handed on, in order. */
  function Accepted(rel: string, files: seq<string>): seq<string>
    decreases |files|
  {
    if files == [] then []
    else
      var init := Accepted(rel, files[..|files| - 1]);
      var f := files[|files| - 1];
      if Visits(f) then init + [PathOf(rel, f)] else init
  }

  /** The files handed on from one directory are its visited files. */
  lemma {:induction false} AcceptedFiles(rel: string, files: seq<string>, x: string)
    ensures x in Accepted(rel, files) <==> exists f :: f in files && Visits(f) && x == PathOf(rel, f)
    decreases |files|
  {
    if files != [] {
      var init := files[..|files| - 1];
      var f := files[|files| - 1];
      assert files == init + [f];
      AcceptedFiles(rel, init, x);
      if exists g :: g in files && Visits(g) && x == PathOf(rel, g) {
        var g :| g in files && Visits(g) && x == PathOf(rel, g);
        if g != f {
          assert g in init;
        }
      }
    }
  }

  /** The files handed on over the whole walk, in order. */
  function Visited(walk: seq<WalkDir>): seq<string>
    decreases |walk|
  {
    if walk == [] then []
    else Visited(walk[..|walk| - 1]) + Accepted(walk[|walk| - 1].rel, walk[|walk| - 1].files)
  }

  /** Only `.py` files other than `utils.py` are visited, and all of them. */
  lemma {:induction false} VisitedFiles(walk: seq<WalkDir>, x: string)
    ensures x in Visited(walk) <==> exists d, f :: d in walk && f in d.files && Visits(f) && x == PathOf(d.rel, f)
    decreases |walk|
  {
    if walk != [] {
      var init := walk[..|walk| - 1];
      var last := walk[|walk| - 1];
      VisitedFiles(init, x);
      assert walk == init + [last];
      AcceptedFiles(last.rel, last.files, x);
      if x in Visited(walk) && x !in Visited(init) {
        assert x in Accepted(last.rel, last.files);
        var f :| f in last.files && Visits(f) && x == PathOf(last.rel, f);
      }
      if exists d, f :: d in walk && f in d.files && Visits(f) && x == PathOf(d.rel, f) {
        var d, f :| d in walk && f in d.files && Visits(f) && x == PathOf(d.rel, f);
        if d == last {
          assert x in Accepted(last.rel, last.files);
        } else {
          assert d in init;
        }
      }
    }
  }

  /** `load_plugin` as a function of the relative path, for one base
      directory and one set of failing modules. */
  function Loader(baseDir: string, fails: set<string>): string -> LoadResult {
    rel => PluginResult(baseDir, rel, fails)
  }

  /** The result of `load` for each of `paths`, in order. */
  function Outcomes(load: string -> LoadResult, paths: seq<string>): seq<LoadResult>
    decreases |paths|
  {
    if paths == [] then []
    else Outcomes(load, paths[..|paths| - 1]) + [load(paths[|paths| - 1])]
  }

  /** Each path has its own result, at its own place. */
  lemma {:induction false} OutcomesAt(load: string -> LoadResult, paths: seq<string>)
    ensures |Outcomes(load, paths)| == |paths|
    ensures forall i :: 0 <= i < |paths| ==> Outcomes(load, paths)[i] == load(paths[i])
    decreases |paths|
  {
    if paths != [] {
      var init := paths[..|paths| - 1];
      OutcomesAt(load, init);
      var out := Outcomes(load, paths);
      assert out == Outcomes(load, init) + [load(paths[|paths| - 1])];
      forall i | 0 <= i < |init|
        ensures out[i] == load(paths[i])
      {
        assert init[i] == paths[i];
        assert out[i] == Outcomes(load, init)[i];
      }
    }
  }

  lemma {:induction false} OutcomesAppend(load: string -> LoadResult, a: seq<string>, b: seq<string>)
    ensures Outcomes(load, a + b) == Outcomes(load, a) + Outcomes(load, b)
    decreases |b|
  {
    if b == [] {
      assert a + b == a;
    } else {
      var init := b[..|b| - 1];
      var last := b[|b| - 1];
      assert a + b == (a + init) + [last];
      assert (a + b)[..|a + b| - 1] == a + init;
      OutcomesAppend(load, a, init);
    }
  }

  /** A run of the generator: the results it yields, and after them, when a
      load fails, one `Failed` entry standing for the `exit()` inside
      `load_plugin`, which ends the process before that file's `yield`. */
  function UntilFailure(rs: seq<LoadResult>): seq<LoadResult>
    decreases |rs|
  {
    if rs == [] then []
    else if rs[0].Failed? then [rs[0]]
    else [rs[0]] + UntilFailure(rs[1..])
  }

  /** A run is a prefix of the results with no failure before its last
      entry, and it stops early only at a failure (the exit). */
  lemma {:induction false} UntilFailurePrefix(rs: seq<LoadResult>)
    ensures |UntilFailure(rs)| <= |rs| && UntilFailure(rs) == rs[..|UntilFailure(rs)|]
    ensures UntilFailure(rs) == [] || NoFailure(UntilFailure(rs)[..|UntilFailure(rs)| - 1])
    ensures |UntilFailure(rs)| < |rs| ==> UntilFailure(rs) != [] && UntilFailure(rs)[|UntilFailure(rs)| - 1].Failed?
    decreases |rs|
  {
    if rs != [] && !rs[0].Failed? {
      var rest := UntilFailure(rs[1..]);
      UntilFailurePrefix(rs[1..]);
      var r := [rs[0]] + rest;
      assert r == rs[..|r|];
      if rest != [] {
        assert r[..|r| - 1] == [rs[0]] + rest[..|rest| - 1];
      }
    }
  }

  predicate NoFailure(rs: seq<LoadResult>) {
    forall i :: 0 <= i < |rs| ==> !rs[i].Failed?
  }

  /** A result that is not a failure keeps a list free of failures. */
  lemma {:induction false} NoFailureAppend(rs: seq<LoadResult>, r: LoadResult)
    requires NoFailure(rs)
    ensures NoFailure(rs + [r]) <==> !r.Failed?
  {
    assert (rs + [r])[|rs|] == r;
  }

  /** Results without a failure are all yielded, and the run goes on with
      what follows. */
  lemma {:induction false} UntilFailureAppend(a: seq<LoadResult>, b: seq<LoadResult>)
    requires NoFailure(a)
    ensures UntilFailure(a + b) == a + UntilFailure(b)
    decreases |a|
  {
    if a != [] {
      assert (a + b)[0] == a[0];
      assert (a + b)[1..] == a[1..] + b;
      UntilFailureAppend(a[1..], b);
    } else {
      assert a + b == b;
    }
  }

  /** The run ends at the first failure: nothing after the exit is loaded
      or yielded. */
  lemma {:induction false} UntilFailureStops(a: seq<LoadResult>, b: seq<LoadResult>)
    requires a != [] && NoFailure(a[..|a| - 1]) && a[|a| - 1].Failed?
    ensures UntilFailure(a + b) == a
  {
    var init := a[..|a| - 1];
    var f := a[|a| - 1];
    assert a + b == init + ([f] + b);
    UntilFailureAppend(init, [f] + b);
    assert UntilFailure([f] + b) == [f];
  }

  /** Number of loaded modules in a list of results. */
  function LoadedCount(rs: seq<LoadResult>): nat
    decreases |rs|
  {
    if rs == [] then 0 else LoadedCount(rs[..|rs| - 1]) + (if rs[|rs| - 1].Loaded? then 1 else 0)
  }

  lemma {:induction false} LoadedCountAppend(rs: seq<LoadResult>, r: LoadResult)
    ensures LoadedCount(rs + [r]) == LoadedCount(rs) + (if r.Loaded? then 1 else 0)
  {
    assert (rs + [r])[..|rs|] == rs;
  }

  /** Loaded results are at most the results. */
  lemma {:induction false} LoadedCountBound(rs: seq<LoadResult>)
    ensures LoadedCount(rs) <= |rs|
    ensures LoadedCount(rs) == |rs| <==> forall i :: 0 <= i < |rs| ==> rs[i].Loaded?
    decreases |rs|
  {
    if rs != [] {
      LoadedCountBound(rs[..|rs| - 1]);
      assert forall i :: 0 <= i < |rs| - 1 ==> rs[..|rs| - 1][i] == rs[i];
    }
  }

  /** The bot client. */
  class Bot {
    /** Plugins loaded so far. */
    var loadedPlugCounts: nat

    constructor ()
      ensures loadedPlugCounts == 0
    {
      loadedPlugCounts := 0;
    }

    /** `load_plugin` for the file at `rel` under `baseDir`; `fails` holds
        the relative paths whose module raises when run. The count grows by
        one exactly when the module is loaded. */
    method LoadPlugin(baseDir: string, rel: string, fails: set<string>) returns (r: LoadResult)
      modifies this
      ensures r == PluginResult(baseDir, rel, fails)
      ensures loadedPlugCounts == old(loadedPlugCounts) + (if r.Loaded? then 1 else 0)
    {
      var fileName := Basename(rel);
      var (moduleName, ext) := SplitExt(fileName);
      if StartsWith(moduleName, "__") || ext != ".py" {
        return Skipped;
      }
      var relativePath := Dotted(rel);
      var modulePath := Basename(baseDir) + "." + DropLast3(relativePath);
      if rel in fails {
        return Failed(modulePath);
      }
      loadedPlugCounts := loadedPlugCounts + 1;
      return Loaded(modulePath);
    }

    /** The inner loop of `load_plugins_from` over the files of one
        directory. */
    method LoadFiles(baseDir: string, dir: WalkDir, fails: set<string>) returns (rs: seq<LoadResult>)
      modifies this
      ensures rs == UntilFailure(Outcomes(Loader(baseDir, fails), Accepted(dir.rel, dir.files)))
      ensures loadedPlugCounts == old(loadedPlugCounts) + LoadedCount(rs)
    {
      rs := [];
      var j := 0;
      while j < |dir.files|
        invariant 0 <= j <= |dir.files|
        invariant rs == Outcomes(Loader(baseDir, fails), Accepted(dir.rel, dir.files[..j])) && NoFailure(rs)
        invariant loadedPlugCounts == old(loadedPlugCounts) + LoadedCount(rs)
      {
        var file := dir.files[j];
        if Visits(file) {
          var mod := LoadPlugin(baseDir, PathOf(dir.rel, file), fails);
          LoadStep(Loader(baseDir, fails), dir.rel, dir.files, j, rs, mod);
          LoadedCountAppend(rs, mod);
          rs := rs + [mod];
          if mod.Failed? {
            FailureEndsDir(Loader(baseDir, fails), dir, j, rs);
            return;
          }
        } else {
          AcceptStep(dir.rel, dir.files, j);
          assert Accepted(dir.rel, dir.files[..j]) + [] == Accepted(dir.rel, dir.files[..j]);
        }
        j := j + 1;
      }
      assert dir.files[..j] == dir.files;
      UntilFailureAppend(rs, []);
      assert rs + [] == rs;
    }

    /** `load_plugins_from`: walks the directories, hands every `.py` file
        but `utils.py` to `load_plugin` and yields its result, until one
        fails and the process exits; that exit is the final `Failed` entry
        of `results`, not a yielded value. */
    method LoadPluginsFrom(baseDir: string, walk: seq<WalkDir>, fails: set<string>) returns (results: seq<LoadResult>)
      modifies this
      ensures results == UntilFailure(Outcomes(Loader(baseDir, fails), Visited(walk)))
      ensures loadedPlugCounts == old(loadedPlugCounts) + LoadedCount(results)
    {
      results := [];
      var i := 0;
      while i < |walk|
        invariant 0 <= i <= |walk|
        invariant results == Outcomes(Loader(baseDir, fails), Visited(walk[..i])) && NoFailure(results)
        invariant loadedPlugCounts == old(loadedPlugCounts) + LoadedCount(results)
      {
        var rs := LoadFiles(baseDir, walk[i], fails);
        LoadedCountConcat(results, rs);
        if rs != [] && rs[|rs| - 1].Failed? {
          FailureEndsWalk(Loader(baseDir, fails), walk, i, results, rs);
          return results + rs;
        }
        DirStep(Loader(baseDir, fails), walk, i, results, rs);
        results := results + rs;
        i := i + 1;
      }
      assert walk[..i] == walk;
      UntilFailureAppend(results, []);
      assert results + [] == results;
    }
  }

  /** When a run does not end in a failure, every result was yielded and
      none failed. */
  lemma {:induction false} UntilFailureNone(rs: seq<LoadResult>)
    requires UntilFailure(rs) == [] || !UntilFailure(rs)[|UntilFailure(rs)| - 1].Failed?
    ensures UntilFailure(rs) == rs && NoFailure(rs)
  {
    UntilFailurePrefix(rs);
    var r := UntilFailure(rs);
    assert r == rs;
    if r != [] {
      assert r == r[..|r| - 1] + [r[|r| - 1]];
    }
  }

  lemma {:induction false} LoadedCountConcat(a: seq<LoadResult>, b: seq<LoadResult>)
    ensures LoadedCount(a + b) == LoadedCount(a) + LoadedCount(b)
    decreases |b|
  {
    if b != [] {
      var init := b[..|b| - 1];
      assert a + b == (a + init) + [b[|b| - 1]];
      LoadedCountConcat(a, init);
      LoadedCountAppend(a + init, b[|b| - 1]);
    } else {
      assert a + b == a;
    }
  }

  /** One more directory of the walk adds its accepted files. */
  lemma {:induction false} WalkStep(load: string -> LoadResult, walk: seq<WalkDir>, i: nat)
    requires i < |walk|
    ensures Outcomes(load, Visited(walk[..i + 1]))
            == Outcomes(load, Visited(walk[..i])) + Outcomes(load, Accepted(walk[i].rel, walk[i].files))
  {
    assert walk[..i + 1][..i] == walk[..i];
    OutcomesAppend(load, Visited(walk[..i]), Accepted(walk[i].rel, walk[i].files));
  }

  /** A directory whose files all load adds all their results. */
  lemma {:induction false} DirStep(load: string -> LoadResult, walk: seq<WalkDir>, i: nat,
                                   results: seq<LoadResult>, rs: seq<LoadResult>)
    requires i < |walk|
    requires results == Outcomes(load, Visited(walk[..i])) && NoFailure(results)
    requires rs == UntilFailure(Outcomes(load, Accepted(walk[i].rel, walk[i].files)))
    requires rs == [] || !rs[|rs| - 1].Failed?
    ensures results + rs == Outcomes(load, Visited(walk[..i + 1])) && NoFailure(results + rs)
  {
    WalkStep(load, walk, i);
    UntilFailureNone(Outcomes(load, Accepted(walk[i].rel, walk[i].files)));
  }

  /** A failure at file `j` ends the directory's results. */
  lemma {:induction false} FailureEndsDir(load: string -> LoadResult, dir: WalkDir, j: nat, rs: seq<LoadResult>)
    requires j < |dir.files|
    requires rs == Outcomes(load, Accepted(dir.rel, dir.files[..j + 1]))
    requires rs != [] && NoFailure(rs[..|rs| - 1]) && rs[|rs| - 1].Failed?
    ensures UntilFailure(Outcomes(load, Accepted(dir.rel, dir.files))) == rs
  {
    var tail := AcceptedTail(dir.rel, dir.files, j + 1);
    OutcomesAppend(load, Accepted(dir.rel, dir.files[..j + 1]), tail);
    UntilFailureStops(rs, Outcomes(load, tail));
  }

  /** The results over the walk are those of the directories before `i`,
      those of directory `i`, and those of the directories after it. */
  lemma {:induction false} VisitedAround(load: string -> LoadResult, walk: seq<WalkDir>, i: nat) returns (after: seq<LoadResult>)
    requires i < |walk|
    ensures Outcomes(load, Visited(walk))
            == Outcomes(load, Visited(walk[..i])) + (Outcomes(load, Accepted(walk[i].rel, walk[i].files)) + after)
  {
    var tail := VisitedPrefix(walk, i + 1);
    WalkStep(load, walk, i);
    OutcomesAppend(load, Visited(walk[..i + 1]), tail);
    after := Outcomes(load, tail);
  }

  /** A failure in directory `i` ends the walk's results. */
  lemma {:induction false} FailureEndsWalk(load: string -> LoadResult, walk: seq<WalkDir>, i: nat,
                        results: seq<LoadResult>, rs: seq<LoadResult>)
    requires i < |walk|
    requires results == Outcomes(load, Visited(walk[..i])) && NoFailure(results)
    requires rs == UntilFailure(Outcomes(load, Accepted(walk[i].rel, walk[i].files)))
    requires rs != [] && rs[|rs| - 1].Failed?
    ensures UntilFailure(Outcomes(load, Visited(walk))) == results + rs
  {
    var dirOut := Outcomes(load, Accepted(walk[i].rel, walk[i].files));
    var after := VisitedAround(load, walk, i);
    FailureInside(results, dirOut, after);
  }

  /** When the middle part of a result list holds a failure, the run is the
      first part and the middle part up to that failure, the exit. */
  lemma {:induction false} FailureInside(before: seq<LoadResult>, middle: seq<LoadResult>, after: seq<LoadResult>)
    requires NoFailure(before)
    requires UntilFailure(middle) != [] && UntilFailure(middle)[|UntilFailure(middle)| - 1].Failed?
    ensures UntilFailure(before + (middle + after)) == before + UntilFailure(middle)
  {
    var rs := UntilFailure(middle);
    UntilFailurePrefix(middle);
    var rest := middle[|rs|..];
    assert middle == rs + rest;
    assert middle + after == rs + (rest + after);
    UntilFailureAppend(before, rs + (rest + after));
    UntilFailureStops(rs, rest + after);
  }

  /** The files accepted among the first `j + 1` are those among the first
      `j`, and file `j` if it is visited. */
  lemma {:induction false} AcceptStep(rel: string, files: seq<string>, j: nat)
    requires j < |files|
    ensures Accepted(rel, files[..j + 1]) == Accepted(rel, files[..j]) + (if Visits(files[j]) then [PathOf(rel, files[j])] else [])
  {
    assert files[..j + 1][..j] == files[..j];
  }

  /** Loading visited file `j` extends the results by its own. */
  lemma {:induction false} LoadStep(load: string -> LoadResult, rel: string, files: seq<string>, j: nat,
                                    rs: seq<LoadResult>, r: LoadResult)
    requires j < |files| && Visits(files[j])
    requires rs == Outcomes(load, Accepted(rel, files[..j])) && NoFailure(rs)
    requires r == load(PathOf(rel, files[j]))
    ensures rs + [r] == Outcomes(load, Accepted(rel, files[..j + 1]))
    ensures NoFailure(rs + [r]) <==> !r.Failed?
  {
    AcceptStep(rel, files, j);
    OutcomeStep(load, Accepted(rel, files[..j]), PathOf(rel, files[j]));
    NoFailureAppend(rs, r);
  }

  /** Loading one more path adds its result. */
  lemma {:induction false} OutcomeStep(load: string -> LoadResult, accepted: seq<string>, p: string)
    ensures Outcomes(load, accepted + [p]) == Outcomes(load, accepted) + [load(p)]
  {
    assert (accepted + [p])[..|accepted|] == accepted;
  }

  /** The accepted files of a directory begin with those of its first `j`
      files. */
  lemma {:induction false} AcceptedTail(rel: string, files: seq<string>, j: nat) returns (tail: seq<string>)
    requires j <= |files|
    ensures Accepted(rel, files) == Accepted(rel, files[..j]) + tail
    decreases |files| - j
  {
    if j == |files| {
      assert files[..j] == files;
      tail := [];
    } else {
      var t := AcceptedTail(rel, files, j + 1);
      assert files[..j + 1][..j] == files[..j];
      tail := Accepted(rel, files[..j + 1])[|Accepted(rel, files[..j])|..] + t;
    }
  }

  /** The visited files of a walk begin with those of its first `k`
      directories. */
  lemma {:induction false} VisitedPrefix(walk: seq<WalkDir>, k: nat) returns (tail: seq<string>)
    requires k <= |walk|
    ensures Visited(walk) == Visited(walk[..k]) + tail
    decreases |walk| - k
  {
    if k == |walk| {
      assert walk[..k] == walk;
      tail := [];
    } else {
      var t := VisitedPrefix(walk, k + 1);
      assert walk[..k + 1][..k] == walk[..k];
      tail := Accepted(walk[k].rel, walk[k].files) + t;
    }
  }

  // ----- the log group -------------------------------------------------------

  /** `config.LOG_GROUP_ID`: a username or a numeric chat id. */
  datatype ChatRef = ChatName(name: string) | ChatId(id: int)

  /** A username gets a leading `@` unless it has one; an id is kept. */
  function NormaliseLogGroup(c: ChatRef): (r: ChatRef)
    ensures c.ChatId? ==> r == c
    ensures c.ChatName? ==> r.ChatName? && StartsWith(r.name, "@")
    ensures c.ChatName? && StartsWith(c.name, "@") ==> r == c
    ensures c.ChatName? && !StartsWith(c.name, "@") ==> r.name[1..] == c.name
  {
    if c.ChatName? && !StartsWith(c.name, "@") then ChatName("@" + c.name) else c
  }

  /** Normalising twice is normalising once. */
  lemma {:induction false} NormaliseIdempotent(c: ChatRef)
    ensures NormaliseLogGroup(NormaliseLogGroup(c)) == NormaliseLogGroup(c)
  {
  }

  // ----- the handler wrapper ---------------------------------------------------

  /** What a handler raises. `OtherError` is any other `Exception`;
      `NotAnException` is a `BaseException` that is not an `Exception`. */
  datatype Raised =
    | FloodWait(value: int)
    | ChatWriteForbidden
    | ChatSendMediaForbidden
    | MessageNotModified
    | MessageIdInvalid
    | StopPropagation
    | OtherError(typeName: string)
    | NotAnException(typeName: string)

  /** What the wrapper does: nothing (the handler returned), sleep for the
      flood wait, ignore, raise again, report to the log group, or let the
      exception pass through uncaught. */
  datatype Action = Done | Sleep(seconds: int) | Ignore | Reraise | Report(typeName: string) | Uncaught

  /** The wrapper's `except` clauses, tried in order. */
  function Classify(e: Option<Raised>): (a: Action)
    ensures a.Done? <==> e.None?
    ensures a.Sleep? <==> e.Some? && e.value.FloodWait?
    ensures a.Sleep? ==> a.seconds == e.value.value
    ensures a.Reraise? <==> e == Some(StopPropagation)
    ensures a.Report? <==> e.Some? && e.value.OtherError?
    ensures a.Report? ==> a.typeName == e.value.typeName
    ensures a.Uncaught? <==> e.Some? && e.value.NotAnException?
  {
    match e
    case None => Done
    case Some(FloodWait(v)) => Sleep(v)
    case Some(ChatWriteForbidden) => Ignore
    case Some(ChatSendMediaForbidden) => Ignore
    case Some(MessageNotModified) => Ignore
    case Some(MessageIdInvalid) => Ignore
    case Some(StopPropagation) => Reraise
    case Some(OtherError(n)) => Report(n)
    case Some(NotAnException(n)) => Uncaught
  }

  /** Exactly the four Telegram errors are silently ignored. */
  lemma {:induction false} IgnoredErrors(e: Raised)
    ensures Classify(Some(e)) == Ignore <==>
              e in {ChatWriteForbidden, ChatSendMediaForbidden, MessageNotModified, MessageIdInvalid}
  {
  }
}

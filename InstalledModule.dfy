/**
 * `InstalledModule`: the record of one installed module — when it was installed,
 * the module's metadata, and a dictionary from each installed relative path to the
 * fingerprint of what is at that path.
 *
 * `FileTable` is the specification of the constructor's `foreach` loop: a left fold
 * over the input that stops at the first path which is rooted or cannot be read.
 * The class `InstalledModule` holds the loop itself, proved against `FileTable`.
 */
module InstalledModules {
  import opened Wrappers
  import opened Host
  import opened Errors
  import opened ModuleFiles

  /** The module metadata the record keeps; only its identifier is used here. */
  datatype CkanModule = CkanModule(identifier: string, version: string)

  /** The message of the `PathErrorKraken` thrown for a rooted path. */
  const RelativePathsOnly := "InstalledModule *must* have relative paths"

  /**
   * One pass of the loop body before the dictionary write: reject a rooted path,
   * otherwise fingerprint it.
   */
  function Fingerprint(file: string, ksp: Ksp, env: Env): (r: Result<InstalledModuleFile, InstallError>)
    ensures IsPathRooted(file) <==> r == Failure(PathError(file, RelativePathsOnly))
    ensures !IsPathRooted(file) ==> r == NewInstalledModuleFile(file, ksp, env)
  {
    if IsPathRooted(file) then Failure(PathError(file, RelativePathsOnly))
    else NewInstalledModuleFile(file, ksp, env)
  }

  /**
   * The dictionary the constructor builds from `files`, or what it throws: each path
   * in turn is checked and fingerprinted and then written under its own key,
   * overwriting an earlier entry for the same path.
   */
  function FileTable(files: seq<string>, ksp: Ksp, env: Env): (r: Result<map<string, InstalledModuleFile>, InstallError>)
    decreases |files|
  {
    if files == [] then Success(map[])
    else
      var last := files[|files| - 1];
      match FileTable(files[..|files| - 1], ksp, env)
      case Failure(e) => Failure(e)
      case Success(table) =>
        match Fingerprint(last, ksp, env)
        case Failure(e) => Failure(e)
        case Success(file) => Success(table[last := file])
  }

  /** Once a prefix of the input has failed, the rest of the input changes nothing. */
  lemma {:induction false} FailureSticks(files: seq<string>, i: nat, ksp: Ksp, env: Env)
    requires i <= |files|
    requires FileTable(files[..i], ksp, env).Failure?
    ensures FileTable(files, ksp, env) == FileTable(files[..i], ksp, env)
    decreases |files|
  {
    if i < |files| {
      var front := files[..|files| - 1];
      assert front[..i] == files[..i];
      FailureSticks(front, i, ksp, env);
    } else {
      assert files[..i] == files;
    }
  }

  /** Success of the whole input means success of every prefix. */
  lemma {:induction false} PrefixSucceeds(files: seq<string>, i: nat, ksp: Ksp, env: Env)
    requires i <= |files|
    requires FileTable(files, ksp, env).Success?
    ensures FileTable(files[..i], ksp, env).Success?
  {
    if FileTable(files[..i], ksp, env).Failure? {
      FailureSticks(files, i, ksp, env);
    }
  }

  /**
   * A rooted path makes construction throw, and the outcome is decided by the paths up
   * to and including it: the paths after it cannot change the outcome. That none of
   * them is looked at is stated by `Create`.
   */
  lemma {:induction false} FailFast(files: seq<string>, k: nat, ksp: Ksp, env: Env)
    requires k < |files| && IsPathRooted(files[k])
    ensures FileTable(files, ksp, env).Failure?
    ensures FileTable(files, ksp, env) == FileTable(files[..k + 1], ksp, env)
  {
    var upTo := files[..k + 1];
    assert upTo[..k] == files[..k] && upTo[k] == files[k];
    FailureSticks(files, k + 1, ksp, env);
  }

  /** Construction succeeds exactly when every path is relative and can be fingerprinted. */
  lemma {:induction false} SucceedsIff(files: seq<string>, ksp: Ksp, env: Env)
    ensures FileTable(files, ksp, env).Success? <==>
            forall j | 0 <= j < |files| :: Fingerprint(files[j], ksp, env).Success?
  {
    if files != [] {
      var front := files[..|files| - 1];
      SucceedsIff(front, ksp, env);
      assert forall j | 0 <= j < |front| :: front[j] == files[j];
    }
  }

  /**
   * A failure is the failure of one path, and every path before it was fingerprinted
   * without error.
   */
  lemma {:induction false} FailsAtFirstBadPath(files: seq<string>, ksp: Ksp, env: Env)
    requires FileTable(files, ksp, env).Failure?
    ensures exists k | 0 <= k < |files| ::
              && Fingerprint(files[k], ksp, env) == Failure(FileTable(files, ksp, env).error)
              && forall j | 0 <= j < k :: Fingerprint(files[j], ksp, env).Success?
  {
    var front := files[..|files| - 1];
    assert forall j | 0 <= j < |front| :: front[j] == files[j];
    if FileTable(front, ksp, env).Failure? {
      FailsAtFirstBadPath(front, ksp, env);
      var k :| 0 <= k < |front| &&
               Fingerprint(front[k], ksp, env) == Failure(FileTable(front, ksp, env).error) &&
               forall j | 0 <= j < k :: Fingerprint(front[j], ksp, env).Success?;
      assert files[k] == front[k];
    } else {
      SucceedsIff(front, ksp, env);
      var k := |files| - 1;
      assert Fingerprint(files[k], ksp, env) == Failure(FileTable(files, ksp, env).error);
    }
  }

  /**
   * Conversely, the first path that is rooted or unreadable decides the error thrown:
   * a `PathErrorKraken` naming that path, or that path's access error.
   */
  lemma {:induction false} FirstBadPathDecides(files: seq<string>, k: nat, ksp: Ksp, env: Env)
    requires k < |files|
    requires Fingerprint(files[k], ksp, env).Failure?
    requires forall j | 0 <= j < k :: Fingerprint(files[j], ksp, env).Success?
    ensures FileTable(files, ksp, env) == Failure(Fingerprint(files[k], ksp, env).error)
  {
    var upTo := files[..k + 1];
    var before := files[..k];
    assert upTo[..k] == before && upTo[k] == files[k];
    assert forall j | 0 <= j < |before| :: before[j] == files[j];
    SucceedsIff(before, ksp, env);
    FailureSticks(files, k + 1, ksp, env);
  }

  /**
   * The keys of a built dictionary are exactly the input paths, and each maps to the
   * fingerprint of that path.
   */
  lemma {:induction false} FileTableContents(files: seq<string>, ksp: Ksp, env: Env)
    requires FileTable(files, ksp, env).Success?
    ensures var table := FileTable(files, ksp, env).value;
            && (forall p :: p in table <==> p in files)
            && (forall p | p in table ::
                  Fingerprint(p, ksp, env).Success? && table[p] == Fingerprint(p, ksp, env).value)
  {
    if files != [] {
      var front := files[..|files| - 1];
      assert files == front + [files[|files| - 1]];
      FileTableContents(front, ksp, env);
    }
  }

  /** No key of a built dictionary is a rooted path. */
  lemma {:induction false} NoRootedKeys(files: seq<string>, ksp: Ksp, env: Env)
    requires FileTable(files, ksp, env).Success?
    ensures forall p | p in FileTable(files, ksp, env).value :: !IsPathRooted(p)
  {
    FileTableContents(files, ksp, env);
  }

  /**
   * Last write wins: the entry for a path is the one written at its last occurrence,
   * and the later iterations leave it alone.
   */
  lemma {:induction false} LastWriteWins(files: seq<string>, j: nat, ksp: Ksp, env: Env)
    requires FileTable(files, ksp, env).Success?
    requires j < |files|
    requires forall i | j < i < |files| :: files[i] != files[j]
    ensures FileTable(files[..j + 1], ksp, env).Success?
    ensures files[j] in FileTable(files[..j + 1], ksp, env).value
    ensures files[j] in FileTable(files, ksp, env).value
    ensures FileTable(files, ksp, env).value[files[j]] == FileTable(files[..j + 1], ksp, env).value[files[j]]
  {
    FileTableContents(files, ksp, env);
    if j + 1 == |files| {
      assert files[..j + 1] == files;
    } else {
      var front := files[..|files| - 1];
      PrefixSucceeds(files, |files| - 1, ksp, env);
      assert front[..j + 1] == files[..j + 1] && front[j] == files[j];
      LastWriteWins(front, j, ksp, env);
    }
  }

  /** The set of distinct elements of a sequence. */
  ghost function Elements(s: seq<string>): set<string> {
    set x | x in s
  }

  ghost predicate Distinct(s: seq<string>) {
    forall i, j | 0 <= i < j < |s| :: s[i] != s[j]
  }

  /** A sequence has at most as many distinct elements as it is long, and as many exactly when it repeats none. */
  lemma {:induction false} ElementsCount(s: seq<string>)
    ensures |Elements(s)| <= |s|
    ensures |Elements(s)| == |s| <==> Distinct(s)
  {
    if s != [] {
      var front, last := s[..|s| - 1], s[|s| - 1];
      ElementsCount(front);
      assert s == front + [last];
      assert Elements(s) == Elements(front) + {last};
      if last in front {
        var i :| 0 <= i < |front| && front[i] == last;
        assert s[i] == s[|s| - 1];
      } else {
        assert Distinct(s) <==> Distinct(front) by {
          if Distinct(front) {
            forall i, j | 0 <= i < j < |s| ensures s[i] != s[j] {
              if j == |s| - 1 { assert s[i] == front[i]; }
            }
          }
        }
      }
    }
  }

  /**
   * Duplicate paths collapse: the dictionary has one entry per distinct input path,
   * so it is as large as the input exactly when the input repeats no path.
   */
  lemma {:induction false} DuplicatesCollapse(files: seq<string>, ksp: Ksp, env: Env)
    requires FileTable(files, ksp, env).Success?
    ensures |FileTable(files, ksp, env).value| == |Elements(files)|
    ensures |FileTable(files, ksp, env).value| == |files| <==> Distinct(files)
  {
    FileTableContents(files, ksp, env);
    assert FileTable(files, ksp, env).value.Keys == Elements(files);
    ElementsCount(files);
  }

  class InstalledModule {
    const installTime: int
    const sourceModule: CkanModule
    var installedFiles: map<string, InstalledModuleFile>

    /** Every recorded path is relative. */
    ghost predicate Valid()
      reads this
    {
      forall p | p in installedFiles :: !IsPathRooted(p)
    }

    /** The assignments that precede the loop: the time stamp, the module, an empty dictionary. */
    constructor Init(now: int, source: CkanModule)
      ensures installTime == now && sourceModule == source && installedFiles == map[]
      ensures Valid()
    {
      installTime := now;
      sourceModule := source;
      installedFiles := map[];
    }

    /** The `Files` property: the recorded relative paths. */
    function Files(): (paths: set<string>)
      reads this
      requires Valid()
      ensures paths == installedFiles.Keys
      ensures forall p | p in paths :: !IsPathRooted(p)
    {
      installedFiles.Keys
    }

    /** The `identifier` property, read through to the module. */
    function Identifier(): (id: string) {
      sourceModule.identifier
    }

    /** The `Module` property. */
    function Module(): (m: CkanModule) {
      sourceModule
    }

    /**
     * The constructor `InstalledModule(ksp, module, relative_files)`, with `DateTime.Now`
     * passed in as `now`. It either throws what `FileTable` fails with, and no record is
     * produced, or yields a fresh record holding exactly the dictionary `FileTable` builds.
     *
     * `looked` lists, in order, the absolute paths whose disk entries were examined for
     * fingerprinting. The loop stops at the first bad path: every earlier path was looked at,
     * a rooted path is rejected without a look, an unreadable one after its own, and no
     * later path is ever looked at.
     */
    static method Create(ksp: Ksp, env: Env, now: int, source: CkanModule, relativeFiles: seq<string>)
      returns (r: Result<InstalledModule, InstallError>, ghost looked: seq<string>)
      ensures r.Failure? <==> FileTable(relativeFiles, ksp, env).Failure?
      ensures r.Failure? ==> r.error == FileTable(relativeFiles, ksp, env).error
      ensures r.Success? ==>
                && fresh(r.value)
                && r.value.Valid()
                && r.value.installedFiles == FileTable(relativeFiles, ksp, env).value
                && r.value.Files() == Elements(relativeFiles)
                && r.value.installTime == now
                && r.value.Identifier() == source.identifier
                && r.value.Module() == source
      ensures forall j | 0 <= j < |looked| :: j < |relativeFiles| && looked[j] == ksp.toAbsolute(relativeFiles[j])
      ensures r.Success? ==> |looked| == |relativeFiles|
      ensures r.Failure? ==>
                exists k | 0 <= k < |relativeFiles| ::
                  && Fingerprint(relativeFiles[k], ksp, env) == Failure(r.error)
                  && (forall j | 0 <= j < k :: Fingerprint(relativeFiles[j], ksp, env).Success?)
                  && |looked| == if IsPathRooted(relativeFiles[k]) then k else k + 1
    {
      var m := new InstalledModule.Init(now, source);
      var i := 0;
      looked := [];
      while i < |relativeFiles|
        invariant 0 <= i <= |relativeFiles|
        invariant FileTable(relativeFiles[..i], ksp, env) == Success(m.installedFiles)
        invariant |looked| == i
        invariant forall j | 0 <= j < i :: looked[j] == ksp.toAbsolute(relativeFiles[j])
        invariant forall j | 0 <= j < i :: Fingerprint(relativeFiles[j], ksp, env).Success?
      {
        var file := relativeFiles[i];
        assert relativeFiles[..i + 1][..i] == relativeFiles[..i];
        if IsPathRooted(file) {
          FailFast(relativeFiles, i, ksp, env);
          r := Failure(PathError(file, RelativePathsOnly));
          return;
        }
        looked := looked + [ksp.toAbsolute(file)];
        var fingerprint := NewInstalledModuleFile(file, ksp, env);
        if fingerprint.Failure? {
          FailureSticks(relativeFiles, i + 1, ksp, env);
          r := Failure(fingerprint.error);
          return;
        }
        m.installedFiles := m.installedFiles[file := fingerprint.value];
        i := i + 1;
      }
      assert relativeFiles[..i] == relativeFiles;
      NoRootedKeys(relativeFiles, ksp, env);
      FileTableContents(relativeFiles, ksp, env);
      r := Success(m);
    }
  }
}

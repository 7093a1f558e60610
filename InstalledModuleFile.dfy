/**
 * `InstalledModuleFile`: the fingerprint of one installed file, which is the
 * upper-case, dash-separated hex SHA-1 of its contents, or no digest (C#'s null)
 * when the path names a directory. It never changes after construction, so it is a value.
 */
module ModuleFiles {
  import opened Wrappers
  import opened BitConverter
  import opened Host
  import opened Errors

  datatype InstalledModuleFile = InstalledModuleFile(sha1Sum: Option<string>) {
    /** The `Sha1` property: the stored digest text, `None` for a directory. */
    function Sha1(): (sum: Option<string>) {
      sha1Sum
    }
  }

  /**
   * `Sha1Sum`: no digest for a directory; otherwise the rendering of the hash of the
   * file's bytes; the exception of `File.OpenRead` when the file cannot be read.
   */
  function Sha1Sum(absolutePath: string, env: Env): (r: Result<Option<string>, InstallError>)
    ensures Lookup(env, absolutePath) == Directory <==> r == Success(None)
    ensures Lookup(env, absolutePath).File? ==>
              && r.Success? && r.value.Some?
              && |r.value.value| == 59
              && WellFormed(r.value.value)
              && Parse(r.value.value) == Some(env.sha1(Lookup(env, absolutePath).contents))
    ensures Lookup(env, absolutePath) == Missing <==> r == Failure(AccessError(absolutePath, NotFound))
    ensures Lookup(env, absolutePath) == Unreadable <==> r == Failure(AccessError(absolutePath, Denied))
  {
    match Lookup(env, absolutePath)
    case Directory => Success(None)
    case File(contents) =>
      var digest := env.sha1(contents);
      RenderWellFormed(digest);
      ParseRender(digest);
      Success(Some(Render(digest)))
    case Missing => Failure(AccessError(absolutePath, NotFound))
    case Unreadable => Failure(AccessError(absolutePath, Denied))
  }

  /**
   * The public constructor `InstalledModuleFile(path, ksp)`: resolve the relative
   * path against the game directory and fingerprint what is there.
   */
  function NewInstalledModuleFile(path: string, ksp: Ksp, env: Env): (r: Result<InstalledModuleFile, InstallError>)
    ensures var entry := Lookup(env, ksp.toAbsolute(path));
            r.Success? <==> entry == Directory || entry.File?
    ensures r.Failure? ==> r.error.AccessError? && r.error.path == ksp.toAbsolute(path)
    ensures var entry := Lookup(env, ksp.toAbsolute(path));
            r.Success? ==>
              && (r.value.Sha1() == None <==> entry == Directory)
              && (entry.File? ==>
                    && r.value.Sha1().Some? && |r.value.Sha1().value| == 59
                    && Parse(r.value.Sha1().value) == Some(env.sha1(entry.contents)))
  {
    match Sha1Sum(ksp.toAbsolute(path), env)
    case Success(sum) => Success(InstalledModuleFile(sum))
    case Failure(e) => Failure(e)
  }
}

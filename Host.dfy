/**
 * What the installed-module record needs from the world outside it, reduced to values:
 * `Path.IsPathRooted`, the game instance's `ToAbsolute`, the disk as seen through
 * `Directory.Exists` and `File.OpenRead`, and the SHA-1 hash function.
 */
module Host {
  import opened BitConverter

  /** A letter that can name a Windows drive. */
  predicate IsDriveLetter(c: char) {
    'A' <= c <= 'Z' || 'a' <= c <= 'z'
  }

  /**
   * `Path.IsPathRooted`: the path starts with a directory separator (`/` or `\`),
   * or with a drive letter followed by the volume separator `:`.
   */
  predicate IsPathRooted(path: string) {
    || (|path| >= 1 && (path[0] == '/' || path[0] == '\\'))
    || (|path| >= 2 && IsDriveLetter(path[0]) && path[1] == ':')
  }

  /** A SHA-1 digest is always 20 bytes long. */
  type Sha1Digest = d: seq<Byte> | |d| == 20 witness seq(20, i => 0)

  /** What an absolute path names on disk. */
  datatype Entry =
    | Directory                      // `Directory.Exists` holds
    | File(contents: seq<Byte>)      // a regular file that `File.OpenRead` can open and read
    | Unreadable                     // exists, but opening or reading it fails
    | Missing                        // nothing there: `File.OpenRead` throws "not found"

  /**
   * The game instance (`KSP`) as far as this record uses it: its `ToAbsolute`,
   * which resolves a path relative to the game directory. It is left opaque.
   */
  datatype Ksp = Ksp(toAbsolute: string -> string)

  /**
   * The disk, keyed by absolute path (a path not in the map is `Missing`), and the
   * hash function behind `SHA1CryptoServiceProvider.ComputeHash`, left uninterpreted.
   */
  datatype Env = Env(disk: map<string, Entry>, sha1: seq<Byte> -> Sha1Digest)

  function Lookup(env: Env, absolutePath: string): (e: Entry)
  {
    if absolutePath in env.disk then env.disk[absolutePath] else Missing
  }
}

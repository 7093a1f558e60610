# CKAN installed-module record, modelled in Dafny

CKAN keeps, for every module (mod) it has installed into a KSP game directory, an
`InstalledModule` record: the time of installation, the module's metadata, and a
dictionary `installed_files` from each installed path, relative to the game directory,
to an `InstalledModuleFile`. That value holds the SHA-1 of the file's contents as text
in `BitConverter.ToString` form (`"3A-F2-…"`), or null for a directory.

This project models how that record is built and proves what it contains:

- `BitConverter.dfy` models the digest text. `Render` is `BitConverter.ToString`, and
  `Parse` is its inverse. The two are proved to be a bijection between byte sequences
  and the well-formed texts of a rendering's length. A 20-byte SHA-1 digest renders to 59 characters.
- `Host.dfy` holds the outside world as values:
  - `Path.IsPathRooted` is a predicate.
  - The game instance's `ToAbsolute` is an opaque function.
  - The disk is a map from absolute path to `Directory`, `File(bytes)`, `Unreadable` or
    `Missing`.
  - SHA-1 is an uninterpreted function from bytes to a 20-byte digest.
- `Errors.dfy` holds the two things construction can throw: `PathError` for
  `PathErrorKraken`, and `AccessError` for the exception from `File.OpenRead`.
- `InstalledModuleFile.dfy` models `Sha1Sum` and the `InstalledModuleFile(path, ksp)`
  constructor as functions. The fingerprint never changes once built, so it is a datatype.
- `InstalledModule.dfy` holds `FileTable`, the specification of the constructor's
  `foreach` loop. It is a left fold that checks and fingerprints each path in input order
  and writes it under its own key. It stops at the first rooted or unreadable path. The
  file also holds the lemmas about it, and the class `InstalledModule`. That class keeps
  the dictionary as a `map` field. Its static method `Create` runs the loop, updating the
  field in place, and is proved against `FileTable`.

`sha1_sum` holds the rendered text, not the digest bytes. The model therefore stores the
text and relates it to the digest bytes through `Parse`. The constructor checks each path
just before fingerprinting it, and the model follows that order.

## Model

| member | source | states |
|---|---|---|
| BitConverter.Render | CKAN/CKAN/Registry/InstalledModule.cs:60 | The text for n bytes is 3n−1 characters long, and empty for no bytes. |
| BitConverter.RenderWellFormed | CKAN/CKAN/Registry/InstalledModule.cs:60 | Every rendering is upper-case hex digit pairs with a `-` at every third position. |
| BitConverter.ParseRender | CKAN/CKAN/Registry/InstalledModule.cs:60 | Decoding a rendering gives back exactly the rendered bytes. |
| BitConverter.RenderParse | CKAN/CKAN/Registry/InstalledModule.cs:60 | Any text the decoder accepts is the rendering of the bytes it returns, so no other text decodes. |
| BitConverter.WellFormedParses | CKAN/CKAN/Registry/InstalledModule.cs:60 | Every well-formed text whose length is 0 or 2 more than a multiple of 3 decodes, so it is a rendering. |
| ModuleFiles.Sha1Sum | CKAN/CKAN/Registry/InstalledModule.cs:42-64 | Null exactly for a directory. For a regular file, a 59-character well-formed text that decodes to the SHA-1 of its bytes. A missing file fails with a not-found error naming the path, and an unreadable one with a denied error. |
| ModuleFiles.NewInstalledModuleFile | CKAN/CKAN/Registry/InstalledModule.cs:21-33 | Succeeds exactly when the resolved path is a directory or a regular file. Otherwise it throws an access error naming the resolved path. `Sha1` of the result is null exactly for a directory, and for a file it is the text of the file's hash. |
| InstalledModules.Fingerprint | CKAN/CKAN/Registry/InstalledModule.cs:119-125 | A rooted path throws `PathErrorKraken` carrying that path and the "must have relative paths" message. A relative path is fingerprinted. |
| InstalledModules.FailureSticks | CKAN/CKAN/Registry/InstalledModule.cs:117-126 | Once the loop has thrown on a prefix of the input, the rest of the input cannot change the outcome. |
| InstalledModules.FailFast | CKAN/CKAN/Registry/InstalledModule.cs:117-122 | Any rooted path makes construction throw. The outcome, error or record, equals that of the input cut just after the path, so the paths after it cannot influence it. That nothing after it is looked at is stated by `Create`. |
| InstalledModules.SucceedsIff | CKAN/CKAN/Registry/InstalledModule.cs:117-126 | Construction succeeds if and only if every path is relative and its target is a directory or a readable file. |
| InstalledModules.FailsAtFirstBadPath | CKAN/CKAN/Registry/InstalledModule.cs:117-126 | Every failure is the failure of some path. Every path before that one was fingerprinted without error. |
| InstalledModules.FirstBadPathDecides | CKAN/CKAN/Registry/InstalledModule.cs:117-126 | Conversely, the first path that is rooted or unreadable decides the error that propagates: its `PathErrorKraken` or its access error. |
| InstalledModules.FileTableContents | CKAN/CKAN/Registry/InstalledModule.cs:115-126 | On success, the dictionary's keys are exactly the input paths, and each maps to the fingerprint of that path. |
| InstalledModules.NoRootedKeys | CKAN/CKAN/Registry/InstalledModule.cs:119-125 | On success, no key of the dictionary is a rooted path. |
| InstalledModules.LastWriteWins | CKAN/CKAN/Registry/InstalledModule.cs:125 | The entry for a path is the value written at the path's last occurrence, and later iterations leave it unchanged. |
| InstalledModules.DuplicatesCollapse | CKAN/CKAN/Registry/InstalledModule.cs:125 | The dictionary has one entry per distinct input path. It is as large as the input exactly when no path repeats. |
| InstalledModules.InstalledModule.Init | CKAN/CKAN/Registry/InstalledModule.cs:111-115 | Before the loop, the record holds the given time and module and an empty dictionary. |
| InstalledModules.InstalledModule.Files | CKAN/CKAN/Registry/InstalledModule.cs:87-93 | `Files` yields the dictionary's keys, and none of them is rooted. |
| InstalledModules.InstalledModule.Create | CKAN/CKAN/Registry/InstalledModule.cs:95-127 | Throws exactly when `FileTable` fails, with the same error, and then no record exists. Otherwise it yields a fresh record. That record's dictionary is what `FileTable` builds, and `Files` is the set of input paths. It holds the given time, `identifier` equals the module's identifier, and `Module` is the module passed in. The ghost trace `looked` lists the absolute paths examined on disk, in input order. On success it holds every input path. On failure at the first bad path, it holds every path before that one, plus the bad path itself when it was unreadable rather than rooted. No later path is ever looked at. |

## Left out

- JSON serialisation is not modelled: the `[JsonObject]` and `[JsonProperty]` attributes and the private `[JsonConstructor]` constructors. They are reflection-driven and hold no logic. The round trip through a registry document is therefore not covered.
- The SHA-1 algorithm is not modelled. It is a foreign cryptographic library, kept as an uninterpreted function whose only known property is its 20-byte result.
- Real file access is reduced to a lookup in the disk map: `Directory.Exists`, `File.OpenRead`, reading the stream, and closing the handle in `using`. The release of the handle on every path is not modelled. The disk is fixed while the record is built, so concurrent changes to files are not modelled.
- `KSP.ToAbsolute` belongs to a class that is not part of this model. It is an opaque function.
- `DateTime.Now` is wall-clock time. It is a parameter of `Create`, stored once.
- The log4net logger is declared but never used.
- `Module` and `PathErrorKraken` are defined elsewhere. `Module` is reduced to a record with an identifier and a version. `PathErrorKraken` is an error value carrying the path and the message.
- InstalledModules.InstalledModule.Identifier, InstalledModules.InstalledModule.Module and ModuleFiles.InstalledModuleFile.Sha1 are plain projections with no contract of their own. What they return is stated in the contracts of `Create` and `NewInstalledModuleFile`.
- Object identity is not modelled. Fingerprints and module metadata are values, so "the very module passed in" becomes equality of values. For the same reason, two writes for the same path store equal values.
- `Files` is a set, so the enumeration order of a .NET dictionary's keys is not modelled.
- `Path.IsPathRooted` is given one fixed definition: a leading `/` or `\`, or an ASCII letter followed by `:`. .NET Framework on Windows accepts any character before the `:`, and Mono on Unix only the leading separator. The exception that .NET throws for paths with invalid characters is not modelled. Null paths and null arguments cannot occur in the model.

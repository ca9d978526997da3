# A verified model of the mcp_file_system file store

`src/main.py` serves six file operations (read, write, list, delete, move,
copy) over one base directory, `BASE_DIR`. Each handler does the same things
in order:

1. joins the caller's path onto the base with pathlib's `/`;
2. keeps the request only if the joined path's string starts with the base's
   string;
3. checks that the target exists and has the right type;
4. calls `open`, `iterdir`, `unlink`, `rename` or `shutil.copy2`, creating
   the destination's parent with `mkdir(parents=True, exist_ok=True)` first
   where the handler does so.

Every exception raised inside a handler, its own 403, 404 and 400 included,
is caught by `except Exception` and raised again as status 500, with the
original message as detail.

The model has four modules:

- `PurePaths` (`paths.dfy`) is the lexical layer.
  - It covers pathlib's parsing, `/`, `.parent` and `str`, and the prefix
    check.
  - Empty and `.` parts are dropped and `..` is kept.
  - An absolute right operand replaces the base.
  - A leading `//` is kept as its own root.
- `FileSystem` (`filesystem.dfy`) is the physical layer.
  - The filesystem is a map from component lists to `File(content)` and `Dir`
    nodes, rooted at `/`.
  - `Walk` is the kernel's lookup: each directory looked into must exist, and
    `..` climbs one level.
  - Python refuses a NUL character before any system call.
  - On top of the lookup come `exists`, `is_dir`, `is_file`, `stat().st_size`,
    reading and writing text, `os.mkdir`, pathlib's recursive
    `mkdir(parents=True, exist_ok=True)` as CPython writes it, `unlink`,
    `rename` and `copy2`.
- `Containment` (`containment.dfy`) states what the prefix check does and does
  not guarantee once the kernel resolves a path.
- `FileServer` (`server.dfy`) is the store.
  - The class `FileStore` holds the base (a `const`) and the filesystem (a
    `map` field).
  - It has one method per handler. A method's postcondition gives its full
    new state and its response for every branch of the handler.
  - Every failure is `Failure(500, reason)`, and the reason says which check
    or which library call failed.

Facts about the code that the model keeps:

- The check compares strings. It does not reject `..` segments, and it does not
  resolve symlinks first. The lemmas in `Containment` show that a traversal
  passes.
- A listing holds entries in the order `iterdir` yields them, which is not
  sorted. The model proves that any two valid listings of a directory are
  permutations of each other.
- The HTTP errors 403, 404 and 400 that a handler raises never reach the
  caller, because the handler's own `except Exception` turns them into 500.
  The model keeps the inner reason.
- `read_file` checks only existence, not the type. Reading a directory fails
  inside `open` with `IsADirectoryError`, again as 500.
- `read_file` opens the file in text mode, so `"\r\n"` and a lone `"\r"` read
  back as `"\n"`. The size it reports is that of the stored file.

## Model

| member | source | states |
|---|---|---|
| PurePaths.JoinIdempotent | src/main.py:33-34 | joining `str(BASE_DIR / p)` onto the base again names the same path as `BASE_DIR / p`: the joined string is absolute and parses back to it |
| PurePaths.ParentOf | src/main.py:69 | `.parent` is the path without its last part, same root; the parent of a root is the root |
| PurePaths.ParseStr | src/main.py:34 | `str` of a path is absolute and parses back to the same path |
| PurePaths.PartsOfJoinSlash | src/main.py:34 | joining well-formed parts with `/` and splitting again gives the same parts |
| PurePaths.RelativeAlwaysPasses | src/main.py:33-34 | every relative request passes the prefix check, whatever it contains |
| PurePaths.AbsolutePasses | src/main.py:33-34 | an absolute request replaces the base; with one leading slash and a base of n >= 1 parts it passes exactly when its first n-1 parts are the base's and its n-th part begins with the base's last part; any such request passes when the base is `/`; with two leading slashes it passes only when the base is `/` |
| PurePaths.JoinSlashPrefix | src/main.py:34 | one `/`-joined list of names begins another exactly when all but its last name agree and its last name begins the other's next name |
| PurePaths.SiblingPasses | src/main.py:33-34 | `<base>` followed by separator-free text passes the check, yet names a sibling of the base, not something below it |
| PurePaths.TraversalParts | src/main.py:33 | pathlib keeps both `..` of `a/../../x` |
| Containment.PlainRelativeStaysInside | src/main.py:33-35 | a relative request without `..` passes, and where it resolves it lands at the base followed by its own parts, inside the base |
| Containment.TraversalEscapes | src/main.py:33-35 | `a/../../x` passes the check and, when `a` is a directory under the base, the kernel resolves it to `x` beside the base, outside it |
| Containment.SiblingEscapes | src/main.py:33-35 | `<base>_evil`-style absolute paths pass the check and resolve, when they resolve at all, outside the base |
| FileSystem.ResolveChild | src/main.py:105-109 | a child looked up through a directory lands at that directory's entry for the name |
| FileSystem.MakeDirsGrows | src/main.py:69 | `mkdir(parents=True, exist_ok=True)` only adds directories, keeps every entry, keeps the tree well formed, and on success leaves a directory at the path |
| FileSystem.MakeDirsPlain | src/main.py:69 | on a path without `..`, mkdir succeeds exactly when no prefix is a regular file; it then creates every missing prefix as a directory and nothing else, and on failure changes nothing |
| FileSystem.MakeDirsFound | src/main.py:69 | mkdir of a resolvable plain path creates it, accepts an existing directory, or fails with EEXIST on a file |
| FileSystem.WriteThenRead | src/main.py:71-77 | after a successful write the path holds the content, `st_size` is its length, and only the target entry changed |
| FileSystem.WritePlain | src/main.py:69-72 | on a plain target, mkdir then write succeed exactly when no ancestor is a file and the target is not a directory; then the ancestors exist and the target holds the content and nothing else changed; otherwise nothing changed |
| FileSystem.WriteUnderNewDirs | src/main.py:71-72 | writing below freshly made directories overwrites or creates the target, or fails with EISDIR on a directory |
| FileSystem.UnlinkRemoves | src/main.py:141 | `unlink` removes exactly the file's entry, the path no longer exists, and every other entry is as it was |
| FileSystem.RenameMoves | src/main.py:177 | after `rename` the destination holds the source's content; a rename onto itself changes nothing; otherwise the source is gone, the destination is added or overwritten, and the rest is unchanged |
| FileSystem.RenameOntoOwnDirectory | src/main.py:177 | renaming a file onto the directory that holds it fails with ENOTEMPTY, and onto that directory followed by `..` with EBUSY |
| FileSystem.Copy2Copies | src/main.py:216 | after `copy2` the target (the destination, or the destination followed by the source's name when the destination is a directory) holds the source's content, the source is untouched, and only the target changed |
| FileSystem.UniversalNewlines | src/main.py:40-41 | reading in text mode never makes text longer, leaves no `\r`, and changes nothing in text without `\r` |
| FileSystem.UniversalNewlinesEndings | src/main.py:40-41 | `\r\n` and a lone `\r` both read as `\n`, and `\n` stays as it is |
| FileSystem.WalkPlainFails | src/main.py:37 | a plain lookup fails only with ENOENT (some prefix missing) or ENOTDIR (some prefix a file) |
| FileServer.ChildrenMembers | src/main.py:105 | a name is a child of a directory exactly when the directory's entry for it exists |
| FileServer.DescribeChild | src/main.py:106-110 | an entry built through the listed path has the child's own type, with a size for a file and none for a directory |
| FileServer.ListingSize | src/main.py:104-110 | a listing has one entry per child, so an empty directory lists as empty |
| FileServer.ListingsArePermutations | src/main.py:105-110 | any two listings of the same directory are permutations of each other, whatever order `iterdir` uses |
| FileServer.MkdirKeepsSource | src/main.py:175 | the destination parent's mkdir leaves the source file where and as it was |
| FileServer.RenameEffects | src/main.py:175-182 | after mkdir and a successful rename, the destination holds the source's content with its size, the parent is a directory, the source is gone unless the rename was onto itself, and all else is unchanged |
| FileServer.CopyEffects | src/main.py:213-221 | after mkdir and a successful copy2, the outcome is the copy handler's, the source is untouched, and the copy holds the source's content |
| FileServer.FileStore.constructor | src/main.py:13-16 | the store starts over a tree where the base directory exists |
| FileServer.FileStore.ReadFile | src/main.py:32-49 | 500/AccessDenied outside the check, 500/NotFound when missing, 500/EISDIR for a directory; otherwise the file's content with its line endings translated, the joined path, and the stored length, which is never less than the text's length; no change |
| FileServer.FileStore.WriteFile | src/main.py:63-80 | the new tree and response are those of mkdir of the parent then the write, each failure with status 500 and its cause; on success the path holds the content, reads back as its translation, and has that size; on a plain path it succeeds exactly when no ancestor is a file and the target is not a directory |
| FileServer.FileStore.ListDirectory | src/main.py:83-117 | failures as the handler's checks give them; for a directory, the listing holds one entry per child, none twice, each with the child's type and file size; no change; the call without `dir_path` (default `""`, src/main.py:83) is `ListDirectory("")`, whose joined path is the base itself |
| FileServer.FileStore.DeleteFile | src/main.py:130-147 | only a regular file is removed: the path then does not exist, exactly its entry is gone, everything else is unchanged; every failure leaves the tree as it was |
| FileServer.FileStore.MoveFile | src/main.py:161-185 | both checks, existence and type of the source, then mkdir and rename (with rename's EBUSY, ENOTEMPTY and EISDIR cases); the new tree and response per branch; on success the destination holds the old content with that size and all else is unchanged |
| FileServer.FileStore.CopyFile | src/main.py:199-224 | both checks, existence and type of the source, then the copy's outcome; on success the source is untouched and the copy holds its content, and the reported size is the file's when the destination is not a directory |
| FileServer.FileStore.CopyChecked | src/main.py:212-224 | mkdir of the destination's parent then copy2, each failure with status 500 and its cause, with the copy's effects on success |
| FileServer.FileStore.WriteThenReadBack | src/main.py:32-80 | a read after a successful write of the same path returns what was written with its line endings translated and the written length as size: exactly what was written when it holds no `\r` |
| FileServer.FileStore.DeleteTwice | src/main.py:135-141 | after a delete that succeeds, deleting the same path again fails with 500/NotFound |

## Left out

- The FastAPI and MCP wiring (routes, request parsing, the `uvicorn` entry point) is not modelled. Each handler is a method taking the request's parameters.
- `BASE_DIR` comes from an environment variable and is created at import. The model takes the base as a constructor parameter and requires that it already exists as a directory. The base is taken as an absolute path written with one leading slash, without `..` parts and without NUL characters; the code accepts any setting, including relative ones, ones with `..`, and ones starting with `//`.
- Text encoding is not modelled. Contents are strings, and a file's `st_size` is taken as its length in characters rather than UTF-8 bytes. Decoding errors on read are not modelled. Newline translation on read is modelled; writing with `newline=None` translates nothing on POSIX.
- Permissions, a full disk, and other operating-system failures that do not depend on the tree's shape are not modelled.
- Symbolic links, hard links and special files are not modelled. The tree holds only regular files and directories.
- The metadata that `copy2` copies is not modelled, and neither is `rename` across filesystems.
- Concurrency between requests (the handlers are `async`) is not modelled. Each call runs alone.
- The order in which `iterdir` yields names is left open. The listing loop picks any remaining name.
- The `"status": "success"` fields are not modelled, and the detail strings of the handlers' own errors are replaced by the `Reason` values.
- FileServer.FileStore.CopyFile: when the destination is an existing directory, the reported size is the directory's own `st_size`, which the model leaves unconstrained.
- FileServer.FileStore.CopyChecked: same directory-size gap as CopyFile.

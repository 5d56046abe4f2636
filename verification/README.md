# GoogleBackuper core in Dafny

GoogleBackuper is a small script that zips a project directory, optionally
together with a PostgreSQL dump, and uploads the archive to Google Drive.
This project models the part of `main.py` that decides *what* goes where:

- `create_backup`: two pruned top-down walks of the source directory. The
  first counts the files to size the progress bar. The second writes one
  archive entry per kept file, named by its path relative to the parent of
  the source directory. The additional files follow, each stored under its
  base name. The archive is called `./temp/<name>-<DD-MM-YYYY-HH:MM>.zip`.
- `pg_backup`: the `pg_dump` command line, cut into arguments by
  `str.split()`, the child environment holding only `PGPASSWORD`, and the
  returned path `./temp/<filename>`.

The directory is an immutable value `Tree = File(name) | Dir(name, children)`.
Children are listed in the order the directory listing yields them. An
archive entry is the pair of arguments of one `zipf.write` call. The current
time is a `DateTime` parameter.

Modules, one per file:

| file | module | contents |
|---|---|---|
| decimal.dfy | Decimal | decimal digits, `%0<w>d` padding, `str(int)`, and a parser |
| posix_path.dfy | PosixPath | `posixpath.join` with two arguments, `posixpath.basename` |
| scratch.dfy | Scratch | the `./temp/` prefix shared by both operations |
| timestamp.dfy | Timestamp | `strftime("%d-%m-%Y-%H:%M")`, the archive path, its parser |
| py_split.dfy | PyStr | `str.split()` with no argument, over Python's whitespace set |
| pg_dump.dfy | PgDump | `pg_backup` |
| file_tree.dfy | FileTree | the tree, the `files`/`dirs` lists of `os.walk`, reachable paths |
| prune.dfy | Pruning | the `dirs.remove` pruning loop and a reference filter |
| archive.dfy | Archive | both walks, the additional files, `create_backup` |
| archive_selection.dfy | ArchiveSelection | which files are written, and under which names |
| archive_names.dfy | ArchiveNames | archive names are unique and laid out in order |
| scenarios.dfy | Scenarios | worked examples of whole runs |

## Model

| member | source | states |
|---|---|---|
| Archive.CreateBackup | main.py:105-133 | The returned path is `./temp/<name>-<stamp>.zip` for the start time. The progress bar's maximum equals the number of entries written; the last `len(additional_files)` entries are the additional files, in list order, each stored under its base name. |
| Archive.ReturnedPathNamesBackup | main.py:106-133 | For a valid start time, the label and the time can be read back from the returned path. |
| Archive.WritesMatchCount | main.py:110-128 | The writing walk writes exactly as many tree entries as the counting walk counted, for every tree and ignore list. |
| Archive.FilesMatchCount | main.py:114-116 | For one directory, the files written equal the files counted. |
| Archive.SubdirsMatchCount | main.py:119-128 | Over the surviving sub-directories of one directory, written entries equal counted files. |
| Archive.ExtraEntries | main.py:129-131 | One entry per additional file, in list order, with the file itself as source and its base name as archive name. |
| Pruning.RemoveFirst | main.py:112-113 | `if i in dirs: dirs.remove(i)` removes one directory named `i` when present, keeps every other directory, and changes nothing when no directory has that name. |
| Pruning.Prune | main.py:111-113 | After the pruning loop, every remaining directory was listed, and every listed directory whose name is not ignored remains. |
| Pruning.PruneIsFilter | main.py:111-113 | When sibling names are distinct, the pruning loop keeps exactly the directories whose names are not ignored, in listing order. |
| Pruning.KeptDirs | main.py:111-113 | Reference filter: a directory is kept if and only if it is listed and its name is not ignored. |
| FileTree.FileNames | main.py:114 | `files` holds the name `f` if and only if the directory has the regular file `f`. |
| FileTree.SubDirs | main.py:111-113 | `dirs` holds exactly the directory entries of the directory. |
| ArchiveSelection.WrittenIsSelected | main.py:119-127 | In a real tree, every entry written belongs to a file reachable along a path with no ignored component, directory or file. Its source is that path joined onto `fpath`, and its name is the source directory's name, `/` and the relative path. |
| ArchiveSelection.SelectedIsWritten | main.py:119-127 | Every file reachable along a path with no ignored component is written, under the source directory's name followed by its relative path. |
| ArchiveSelection.TreeEntriesExact | main.py:119-127 | Both directions at once: the tree entries are exactly the entries of the selected files. |
| ArchiveSelection.RootNeverPruned | main.py:110-116 | The source directory's own name is never compared with the ignore list, so every non-ignored file directly inside it is archived, wherever it is listed, even when that name is ignored. |
| ArchiveSelection.VisitedSubdir | main.py:111-113 | Every directory the walk descends into is a child directory whose name is not ignored. |
| ArchiveNames.ArcnameUnder | main.py:125-127 | Every name written below a directory starts with that directory's archive name and a separator. |
| ArchiveNames.TreeDistinct | main.py:119-128 | In a real tree, no two tree entries share an archive name. |
| ArchiveNames.WrittenExactlyOnce | main.py:119-128 | Every selected file is written at exactly one position, and no other tree entry carries its archive name. |
| ArchiveNames.BackupLayout | main.py:119-131 | Tree entries come first, each under the source directory's name, and none of the additional files that follow shares a name with a tree entry. |
| Scenarios.IgnoredDirExample | main.py:105-131 | Directory `p` with files `a`, `b` and an ignored directory `c`, plus the additional file `t/d`: entries `p/a`, `p/b`, then `t/d` stored as `d`; progress maximum 3. |
| Scenarios.NestedExample | main.py:110-128 | In `s` holding `i/{l, e}` and `h`, with `e` ignored, `s/h` is written before `s/i/l`, `e` is skipped, and the progress maximum is 2. |
| Scenarios.ArchivePathExample | main.py:106-108 | 5 March 2024, 09:07 with label `proj` gives `./temp/proj-05-03-2024-09:07.zip`. |
| Timestamp.FormatLayout | main.py:107 | For a valid time, day, month, hour and minute take exactly two digits and the year four. The stamp is 16 characters, with `-`, `-`, `-`, `:` at positions 2, 5, 10, 13. |
| Timestamp.TimestampRoundTrip | main.py:107 | Parsing the stamp gives back the time it was formatted from. |
| Timestamp.ArchivePathRoundTrip | main.py:106-108 | Parsing `./temp/<name>-<stamp>.zip` gives back exactly `name` and the time, for any label, including labels with dashes. |
| Timestamp.ArchivePathInjective | main.py:106-108 | Different labels, or times in different minutes, give different archive paths. |
| Timestamp.ParseTimestamp | main.py:107 | A stamp is accepted only if it is 16 characters long and denotes a valid date and time. |
| Decimal.ZeroPad | main.py:107 | The padded field is all digits, `max(width, digits)` long, and reads back as the number. |
| Decimal.DigitsFit | main.py:107 | For `w >= 1`, a number below `10^w` pads to exactly `w` characters. |
| Decimal.ParseDigits | main.py:107 | Reading the decimal spelling of `n` gives `n`. |
| Decimal.IntToString | main.py:138 | `str(port)` starts with a minus sign exactly when the port is negative, followed by the plain decimal spelling of its magnitude. |
| Decimal.IntToStringRoundTrip | main.py:138 | Reading the sign and the digits of `str(i)` gives back `i`. |
| PosixPath.Join | main.py:125 | `join(a, b)` equals `b` when `b` is absolute. Otherwise it is `a`, then `b`, with one separator added between them exactly when `a` is non-empty and does not already end in one. |
| PosixPath.Basename | main.py:130 | The base name has no separator. It is a suffix of the path, preceded by a separator whenever it is shorter than the path. |
| PosixPath.BasenameOfJoin | main.py:125-130 | The base name of a plain name joined onto any directory is that name. |
| Scratch.ScratchFile | main.py:108 | `./temp/<file>` is the prefix `./temp/` followed by exactly `file`. |
| PyStr.Split | main.py:140 | Every item `split()` produces is a non-empty run of non-whitespace characters. |
| PyStr.SplitAtSpace | main.py:140 | Splitting at any whitespace character yields the words to its left followed by the words to its right. |
| PyStr.SplitWord | main.py:140 | A string splits into just itself if and only if it is a non-empty run of non-whitespace characters. |
| PyStr.SplitBlank | main.py:140 | A string made only of whitespace splits into nothing. |
| PgDump.PgBackup | main.py:136-142 | argv is `pg_dump -U`, then the words of `user` and `database`, then `-p <port> -h`, then the words of `host`. The environment is exactly `{PGPASSWORD: password}`. Output goes to `./temp/<filename>`, and that path is returned. |
| PgDump.ArgvOfCommand | main.py:138-140 | Splitting the formatted command gives the fixed words unchanged, and each field contributes exactly its own words. |
| PgDump.PlainFieldsArgv | main.py:138-140 | With non-empty fields that contain no whitespace, argv is exactly `[pg_dump, -U, user, database, -p, str(port), -h, host]`. |
| PgDump.SpacedDatabaseSplits | main.py:138-140 | A database name made of two words around one whitespace character reaches `pg_dump` as those two arguments, so argv has nine items. |
| PgDump.PasswordOnlyInEnvironment | main.py:138-142 | The password changes neither argv, nor the output file, nor the returned path, nor the set of environment variables. |
| PgDump.DefaultCommand | main.py:136-138 | With the defaults, user `postgres` and database `app` give `pg_dump -U postgres app -p 5432 -h localhost`. |
| PgDump.DefaultInvocation | main.py:136-140 | With the defaults, argv is exactly the eight items of that command. |

## Left out

- `auth_service`, `upload_file`, `get_files` (main.py:24-102) are not modelled. They are an OAuth flow, token file I/O and Google Drive calls made through foreign libraries, and the cached folder id only has meaning against the remote service.
- Writing the zip container, compression and the `IncrementalBar` display (main.py:117-118, 128, 131) are not modelled. They are library I/O; the model keeps the sequence of `(source, arcname)` pairs and the bar's maximum.
- `os.walk` on a live filesystem is not modelled: symbolic links, permission errors, and a tree that changes between the two walks. The model walks one fixed tree value.
- Archive.WritesMatchCount: the script itself changes the tree between the walks. `zipfile.ZipFile(fname, 'w')` (main.py:118) creates `./temp/<name>-<stamp>.zip` before the second walk (main.py:119) starts. When `fpath` contains `./temp` (for example `fpath = '.'`), the second walk also writes that new archive, which the first walk never counted, so the equality of count and entries does not hold for that setup.
- PosixPath.Join, PosixPath.Basename: `from os import path` (main.py:1) is `posixpath` only on POSIX systems. On Windows it is `ntpath`: `join` inserts `\`, and `basename` also splits at `\` and after a drive colon, so `C:\x\dump.sql` is stored as `dump.sql`. The model covers the POSIX behaviour only.
- Archive.TreeEntries: the archive name is built as the source directory's name, a separator and the relative path, instead of calling `os.path.relpath` against `join(fpath, '..')`. The two agree whenever `fpath` ends in a real directory name, including paths with earlier `..` components such as `'../myproject/'` (main.py:155). The path `/`, and paths whose last component is `.` or `..`, normalise differently, and the source directory's name is taken as the tree root's name.
- Archive.ExtraEntries: `zipfile` normalises every archive name (`os.path.normpath`, a leading `/` or drive letter dropped, and `/` appended for a directory) and that is not modelled. Tree entries are unaffected, since the walk's names are already normal. An additional file's base name can be affected: an additional path ending in `/` has base name `""`, which `zipfile` stores as `./`, while the model records `""`.
- ArchiveSelection.WrittenIsSelected: soundness and exactly-once are stated for trees whose sibling names are distinct and free of separators, which every real directory satisfies. The pruning loop removes only the first directory with a given name, so for arbitrary trees it is weaker than a filter; Pruning.RemoveFirst models that first-match behaviour exactly.
- Timestamp.Format: `%Y` is modelled as four zero-padded digits. For years below 1000, the padding depends on the platform's C library and the Python version.
- Obtaining the current time (`datetime.now()`, main.py:106) is not modelled; the time is a parameter. Seconds and smaller units do not appear in the name.
- Running `pg_dump` (main.py:139-140) is not modelled: opening the output file, the exit status, and the command's output. The model records the argument vector, the environment, and the file that receives standard output. Because the environment holds only `PGPASSWORD`, the child inherits no `PATH`. Python's `subprocess` looks the program up itself, over `os.get_exec_path(env)`, which then falls back to `os.defpath` (`/bin:/usr/bin`); that lookup is not modelled.
- `print` output (main.py:132, 137) is not modelled; it does not affect the result.
- `makedirs`, `rmtree`, `clean_up` and `main` (main.py:145-162) are not modelled. They are filesystem side effects and a driver with no logic of its own.

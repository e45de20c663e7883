# Shell emulator: history log, soft delete and single-step undo

A Dafny model of the stateful core of a small Python shell emulator. The shell keeps every
command line in a history list (at most 100 entries when logged, persisted to `.history`). The
filesystem commands `cp`, `mv` and `rm` also append reversible records `cp|src|dst`,
`mv|src|dst` and `rm|original|trash`. `rm` is a soft delete into `.trash`. `undo` scans the
history from the newest entry, inverts the first entry that contains `|`, pops exactly that
entry and saves. `history` prints a numbered view of the last 100 entries with the records
hidden.

The model has one module per concern:

- `Text` (text.dfy): `str.strip`, `str.split()`, `str.split('|')`, `readlines`, `str(int)`.
- `Paths` (paths.dfy): `posixpath.join`, `basename`, `dirname`, `normpath`, `abspath`, and
  the "is this path the directory or below it" test of `shutil.move`.
- `Disk` (disk.dfy): the filesystem as a map from paths to items, with `shutil.move`. A
  directory is one opaque item under its own path; paths below it are separate keys, which do
  not follow it when it is copied, moved or deleted.
- `Base` (base.dfy, after src/commands/base.py): the shared session state,
  `add_to_history`, `save_history`, `load_history`, `resolve_path` and the start-up state.
- `FileCommands` (file_commands.dfy, after src/commands/filesystem.py): `cd`, and the record
  production in `cp`, `mv` and `rm`.
- `Advanced` (advanced.dfy, after src/commands/advanced.py): `show_history` and `undo`.
- `Commands` (commands.dfy): the class `ShellCommands`. Its fields are updated in place, and
  each method is proved equal to the session function of the same name.
- `ShellDriver` (shell.dfy, after src/shell.py): `parse_command`, the logging rule and
  dispatch of `execute_command`, and the class `Shell`.

The environment is explicit. The process working directory is the session's current directory,
because `cd` calls `os.chdir`. The names `.history` and `.trash` are relative, so they are
resolved against it (`Paths.At`). Whether a filesystem call succeeds (`ioOk`), whether the
history file can be written or read (`writeOk`, `readOk`), the answer typed at `rm`'s prompt
and `int(time.time())` are parameters. What `undo` prints is a `Report` value.

## Behaviour as written

The model follows the code, including these consequences of it.

- `show_history` numbers the entries of the window before it filters them. A printed line
  carries its position in the window, and the numbers have gaps where records were hidden
  (`Advanced.ShowHistory`).
- `cp`, `mv` and `rm` append their records with `history.append`, without the trim and the
  save of `add_to_history`. After a logged command and its record, the history holds 101
  entries (`ShellDriver.ExecuteKeepsHistoryBounded`). `load_history` does not trim either.
- `rm` tries the `.<seconds>` suffix once, not until the name is free. When that name is taken
  too, the item overwrites the file already there, or moves inside the directory there
  (`Advanced.RmTrashCollisionOverwrites`).
- `rm` records the trash path as written, relative (`.trash/name`). `undo` looks it up against
  the current directory, so after a `cd` it reports the item missing and still consumes the
  record (`Advanced.UndoConsumesMissingTarget`).
- `rm -r .`, answered `y`, targets the current directory, and the trash lies below it, so
  `shutil.move` refuses and nothing is recorded (`FileCommands.RmCurrentDirectoryRefused`).
- The history file name is relative too, so after a `cd` the history is saved in the new
  directory.
- `load_history` replaces the whole history or, on any read error, nothing.
- `mv` onto an existing directory moves the item inside it but records the directory. `undo`
  then moves the whole directory to the item's old name
  (`Advanced.MvIntoDirectoryUndoMovesDirectory`).
- `mv` appends its record before `shutil.move` runs. Moving a directory below itself is
  refused by `shutil.move`, but the record stays; `undo` then reports the destination missing
  and drops the record (`Advanced.MvIntoItselfOnlyRecords`).
- `cp` of a file onto a directory redirects the destination to `dir/name` and records that,
  but `shutil.copy2` redirects once more when `dir/name` is itself a directory and writes
  `dir/name/name`. `undo` then deletes the recorded `dir/name`: a directory that existed before
  the `cp`, with everything in it (`Advanced.CpIntoNestedDirectoryUndoDeletesIt`).
- `undo` takes the newest entry containing `|`, whatever it is. A logged command line such as
  `cat a|b` is consumed, with no filesystem effect (`Advanced.UndoUnknownTag`). A `cp`, `mv` or
  `rm` entry with fewer than three fields raises before the pop, so every later `undo` fails
  on it (`Advanced.ShortRecordBlocksUndo`).

## Model

| member | source | states |
|---|---|---|
| Base.LastN | src/commands/base.py:46 | the last min(n, len) elements, as a suffix of `xs` (`xs[-n:]` for n > 0) |
| Text.StripInfix | src/commands/base.py:38 | `line.strip()` leaves the infix between a blank prefix and a blank suffix |
| Base.StripAll | src/commands/base.py:38 | one stripped entry per line, position by position |
| Base.Deserialize | src/commands/base.py:37-38 | the loaded history has one entry per file line, each the stripped line |
| Base.SerializeSnoc | src/commands/base.py:46-47 | writing one more entry appends that entry and a newline to the file text |
| Base.LinesSerialize | src/commands/base.py:46-47 | reading the lines back gives the written entries when none holds a newline |
| Base.SerializeRoundTrip | src/commands/base.py:38-47 | load after save returns every entry that has no newline and no surrounding whitespace |
| Base.LoadHistory | src/commands/base.py:33-40 | the filesystem and directory never change; a readable history file replaces the history by its stripped lines; a missing file, a directory under that name or a read error leaves the session as it was |
| Base.AddToHistory | src/commands/base.py:51-61 | the history becomes the last 100 of old + [c] and is then saved; the directory never changes |
| Base.AddToHistoryBounded | src/commands/base.py:51-61 | the history becomes the last 100 of old + [c]: at most 100 entries, ending in c, a plain append while under 100 |
| Base.AddToHistorySaves | src/commands/base.py:58-61 | when the write succeeds the file holds exactly the in-memory history |
| Base.SaveLoadRoundTrip | src/commands/base.py:33-49 | saving and loading from the same directory gives the last 100 entries |
| Base.SaveWritesWindow | src/commands/base.py:42-49 | save writes the newest min(100, len) entries in order and touches no other path; a failed write changes nothing |
| Base.SaveHistory | src/commands/base.py:42-49 | only the history file may change; a successful write leaves a file there; a failed write (an I/O error, or a directory under that name) changes nothing |
| Base.ResolvePath | src/commands/base.py:63-78 | `~` gives the home directory, `..` the parent of the current directory, and an absolute argument its normalised self |
| Base.ResolveStaysAbsolute | src/commands/base.py:63-78 | `~`, `..` and relative arguments all resolve to absolute paths from an absolute current directory |
| Base.Initial | src/commands/base.py:13-40 | every existing path keeps its item and the trash directory exists afterwards; the history is the readable history file's stripped lines, otherwise empty |
| Disk.Move | src/commands/filesystem.py:183 | `shutil.move` succeeds exactly when the source exists and none of its refusals applies: an item of that name already inside a target directory, a directory over a non-directory, a directory into or below itself; the item is then at the target and gone from the source, nothing else changes, and moving an item onto itself changes nothing |
| Disk.MoveBack | src/commands/advanced.py:126 | moving an item to a free name and back restores the filesystem, when for a directory neither path lies below the other |
| Disk.MoveToFree | src/commands/filesystem.py:183 | `shutil.move` to a free name, other than one below a directory source, takes the item from the source and puts it at that name |
| Disk.MoveOntoFile | src/commands/filesystem.py:232 | `shutil.move` of a file onto an existing file replaces that file |
| FileCommands.Cd | src/commands/filesystem.py:65-92 | the directory changes to the resolved path exactly when it is an existing directory; history and filesystem never change |
| FileCommands.Cp | src/commands/filesystem.py:124-161 | the directory never changes; on the resolved paths, when the copy goes through (`CopyWorks`) the copy is written where copytree or copy2 puts it and the cp record with cp's own destination is appended, and otherwise nothing changes |
| FileCommands.CopyPaths | src/commands/filesystem.py:137-157 | exactly when the source exists, I/O works, a directory source has -r and a free destination, and a file source's final target (after copy2's own second redirect into a directory) is neither a directory nor the source: the copy is written at that one path and "cp\|src\|dst" is appended; in every other case the session is unchanged |
| FileCommands.CpOutcome | src/commands/filesystem.py:124-161 | cp changes the session if and only if the copy goes through; a change appends exactly one entry; the source is never altered |
| FileCommands.CpFileIntoDirectory | src/commands/filesystem.py:149-154 | a file copied onto an existing directory, with dir/basename(src) free or a file other than the source, is written at dir/basename(src) and recorded under that name |
| FileCommands.CpDirectoryToFree | src/commands/filesystem.py:142-154 | `cp -r` of a directory to a free name writes the directory there and records that destination |
| FileCommands.Mv | src/commands/filesystem.py:163-189 | the directory never changes; the history is as it was or followed by the mv record of the resolved paths |
| FileCommands.MovePaths | src/commands/filesystem.py:171-183 | a missing source changes nothing; an existing one gets its record appended whatever the move does; the filesystem changes if only by a successful move, and when I/O works and `shutil.move` succeeds the filesystem is its result |
| FileCommands.MvRecordsBeforeMove | src/commands/filesystem.py:171-183 | the mv record is appended exactly when the source exists, before and whatever the move does; the filesystem is the result of `shutil.move` exactly when that succeeds with working I/O |
| FileCommands.MvOntoFileReplaces | src/commands/filesystem.py:171-183 | mv of a file onto another existing file records the move, removes the source and leaves its content at the destination |
| FileCommands.RmRefusals | src/commands/filesystem.py:199-221 | a protected, missing, non-recursive or unconfirmed target changes nothing |
| FileCommands.TrashName | src/commands/filesystem.py:227-231 | the trash name is `.trash/<basename>` exactly when that path is free, and otherwise that name followed by `.<seconds>`; it always starts with `.trash/` |
| FileCommands.WithTrashDir | src/commands/filesystem.py:223-225 | afterwards the trash directory path is present and every other path keeps its item |
| FileCommands.Rm | src/commands/filesystem.py:191-242 | the directory never changes; the history is as it was or followed by the rm record of the resolved target and its trash name |
| FileCommands.RemovePath | src/commands/filesystem.py:202-235 | without a record the filesystem is as it was, apart from a created trash directory; with one, I/O worked and `shutil.move` of the target to the recorded trash name succeeded with the new filesystem as its result |
| FileCommands.RmMovesRemovable | src/commands/filesystem.py:202-235 | a target that is protected, missing, or a directory without -r and confirmation leaves the session as it was; a removable target whose move to its trash name succeeds with working I/O is moved there and recorded |
| FileCommands.Dispose | src/commands/filesystem.py:223-235 | once the target passed its checks: without a record only the trash directory was created; with one, I/O worked and the item was moved to the recorded trash name; when I/O works and that move succeeds, the record is made and the filesystem is the move's result |
| FileCommands.RmSoftDeletes | src/commands/filesystem.py:223-235 | when rm records, the item is unchanged at the recorded trash name under `.trash/`, and the record is the last entry |
| FileCommands.RmCurrentDirectoryRefused | src/commands/filesystem.py:223-235 | `rm -r` of the current directory, confirmed, records nothing and only creates the trash directory, because the trash lies below the target |
| FileCommands.RmAppendsAtMostOne | src/commands/filesystem.py:234-235 | rm leaves the history as it was or appends one entry |
| Advanced.ShownExactly | src/commands/advanced.py:92 | the filter hides exactly the entries starting with `cp\|`, `mv\|` or `rm\|` |
| Advanced.Numbered | src/commands/advanced.py:91-93 | each printed line is a shown entry with its window position; positions increase |
| Advanced.ShowHistory | src/commands/advanced.py:86-99 | every printed line is an entry of the last 100 with its 1-based window position, never a record, in increasing order |
| Advanced.ShowHistoryComplete | src/commands/advanced.py:91-93 | every non-record entry of the window is printed with its position |
| Advanced.ShowHistoryPlain | src/commands/advanced.py:91-93 | without records every entry of the window is printed once, numbered 1..count |
| Advanced.RecordDecodes | src/commands/advanced.py:107-108 | a record whose parts hold no `\|` splits back into tag and both paths |
| Advanced.CopyRecordFields | src/commands/advanced.py:107-111 | a cp record always splits into at least three fields headed by `cp` |
| Advanced.LastRecordIndex | src/commands/advanced.py:104-106 | the index found is the newest entry containing `\|`; none is found only when no entry contains it |
| Advanced.Invert | src/commands/advanced.py:106-141 | inverting an entry: a raised error, an unknown tag or a missing item leaves the filesystem unchanged; undoing a copy deletes exactly the recorded path |
| Advanced.InvertFields | src/commands/advanced.py:108-141 | a raised error, an unknown tag or a missing item leaves the filesystem unchanged; undoing a copy deletes exactly the recorded path |
| Advanced.Undo | src/commands/advanced.py:101-150 | the directory never changes; a failure or nothing to undo leaves the session as it was; otherwise exactly one entry is gone; when there is a record, the report is that of inverting the newest entry containing '\|', and on success that entry alone is removed and the saved filesystem is the inversion's |
| Advanced.UndoNothing | src/commands/advanced.py:146 | undo reports nothing to undo exactly when no entry contains `\|`, and then changes nothing |
| Advanced.UndoPopsExactlyTarget | src/commands/advanced.py:104-144 | a successful undo removes exactly the newest entry containing `\|`, keeping all others in order |
| Advanced.UndoFailureChangesNothing | src/commands/advanced.py:148-150 | when the inversion raises, the whole session is unchanged |
| Advanced.ShortRecordBlocksUndo | src/commands/advanced.py:111-134 | a cp/mv/rm target with fewer than three fields makes undo fail whatever the filesystem |
| Advanced.UndoConsumesMissingTarget | src/commands/advanced.py:119-144 | a record whose target is missing is reported not found and still popped |
| Advanced.UndoUnknownTag | src/commands/advanced.py:106-144 | an entry with `\|` and another tag is popped with no filesystem effect |
| Advanced.UndoCopyDeletesOnlyDestination | src/commands/advanced.py:110-118 | undoing cp deletes only the destination, file or whole tree; the source is untouched |
| Advanced.UndoMovesBack | src/commands/advanced.py:122-138 | undoing mv or rm moves the recorded item back to its old path |
| Advanced.NoPipeInTrashName | src/commands/filesystem.py:227-234 | a target without `\|` gives a trash name without `\|`, so the rm record decodes |
| Advanced.UndoNewestRecord | src/commands/advanced.py:104-144 | undo with a well-formed newest record inverts it and, unless that raised, pops it and saves |
| Advanced.UndoBuriedRecord | src/commands/advanced.py:104-144 | with plain entries logged after the newest well-formed record, undo still inverts that record and, unless that raised, removes it alone, keeps the later entries and saves |
| Advanced.UndoNewestCopyRecord | src/commands/advanced.py:104-144 | with working I/O, undo pops a newest cp record whatever its paths contain |
| Advanced.RmThenUndoRestores | src/commands/advanced.py:132-144 | rm to a free trash name, then undo, restores the filesystem and the history, for a directory when the trash name is not below it and it is not below the trash name |
| Advanced.RmToFreeTrashName | src/commands/filesystem.py:223-235 | rm of a target whose trash name is free, and for a directory not below it, moves it to `.trash/<basename>` and records exactly that name |
| Advanced.RmToTakenTrashName | src/commands/filesystem.py:223-235 | rm of a target whose `.trash/<basename>` is taken and whose `.trash/<basename>.<seconds>` is free moves it to the suffixed name and records that name |
| Advanced.UndoRestoresSession | src/commands/advanced.py:104-144 | when inverting the newest record gives back the earlier filesystem, undo gives back the earlier session and saves it |
| Advanced.MvThenUndoRestores | src/commands/advanced.py:122-144 | mv to a free name, then undo, restores the filesystem and the history, for a directory when neither path lies below the other |
| Advanced.CpThenUndoRemovesCopy | src/commands/advanced.py:110-144 | cp of a file to a free name, then undo, restores the filesystem and the history |
| Advanced.CpIntoNestedDirectoryUndoDeletesIt | src/commands/filesystem.py:149-157 | cp of a file onto a directory holding a directory of the file's name records dir/name but writes dir/name/name; undo then reports a removed directory and dir/name, which existed before the cp, is gone |
| Advanced.MvIntoDirectoryUndoMovesDirectory | src/commands/filesystem.py:180-183 | after mv into a directory, undo moves the directory itself to the item's old name and the directory's own name is free |
| Advanced.MvIntoItselfOnlyRecords | src/commands/filesystem.py:171-183 | mv of a directory to a free path below itself only appends the record; undo then reports the destination missing and drops it, leaving the earlier session |
| Advanced.RmTrashCollisionOverwrites | src/commands/filesystem.py:227-232 | when both trash names are taken by files, rm overwrites the item at the suffixed name |
| Commands.ShellCommands.constructor | src/commands/base.py:13-31 | the new object is in the start-up state |
| Commands.ShellCommands.LoadHistory | src/commands/base.py:33-40 | the line loop computes load_history's result |
| Commands.ShellCommands.SaveHistory | src/commands/base.py:42-49 | the write loop produces save_history's file and nothing else changes |
| Commands.ShellCommands.AddToHistory | src/commands/base.py:51-61 | append, trim and save give add_to_history's state |
| Commands.ShellCommands.Cd | src/commands/filesystem.py:65-92 | the fields change as cd does |
| Commands.ShellCommands.Cp | src/commands/filesystem.py:124-161 | the fields change as cp does, including copy2's second redirect into a directory |
| Commands.ShellCommands.Mv | src/commands/filesystem.py:163-189 | the fields change as mv does, including the refusals of `shutil.move` |
| Commands.ShellCommands.Rm | src/commands/filesystem.py:191-242 | the fields change as rm does, including the one-shot suffix and the refusals of `shutil.move`, after resolving the argument to an absolute path |
| Commands.ShellCommands.RemovePath | src/commands/filesystem.py:202-235 | the fields change as rm does once its argument is resolved |
| Commands.ShellCommands.ShowHistory | src/commands/advanced.py:86-99 | the enumerate loop prints exactly the lines of the history view |
| Commands.ShellCommands.Undo | src/commands/advanced.py:101-150 | the reverse scan gives undo's new state and report |
| Commands.ShellCommands.UndoEntry | src/commands/advanced.py:106-144 | inverting the entry undo picked, and popping it and saving unless that raised, gives undo's new state and report |
| ShellDriver.Parse | src/shell.py:29-31 | a line parses to nothing exactly when it is blank |
| ShellDriver.ArgumentsExactly | src/shell.py:39-48 | a token is an argument exactly when it appears and does not start with `-` |
| ShellDriver.ArgumentsAppend | src/shell.py:47-48 | arguments keep their original order |
| ShellDriver.OptionsExactly | src/shell.py:39-46 | each of detailed, recursive and ignore_case is set exactly when -l, -r or -i appears; repeats change nothing |
| ShellDriver.ExecuteBlank | src/shell.py:60-63 | a blank line changes nothing and logs nothing |
| ShellDriver.Dispatch | src/shell.py:70-151 | only exit stops the shell, only cd can move the current directory, commands other than cd, cp, mv, rm and undo leave the session as it was, and cp or mv with fewer than two arguments, or cd or rm with none, leave it too |
| ShellDriver.Execute | src/shell.py:53-151 | a line that parses to nothing changes nothing; the shell stops exactly on `exit`; only `cd` moves the current directory |
| ShellDriver.ExecuteLogsFirst | src/shell.py:67-68 | a logged line is added before dispatch; the command can then add one record after it |
| ShellDriver.ExecuteKeepsHistoryBounded | src/shell.py:67-140 | the history never grows past 101 entries |
| ShellDriver.HistoryCommandChangesNothing | src/shell.py:136-137 | `history` is not logged and changes nothing |
| ShellDriver.ExecuteUndo | src/shell.py:139-140 | `undo` is not logged and runs undo on the session as it is |
| ShellDriver.CpRecorded | src/shell.py:86-90 | a cp line that recorded leaves the logged history followed by one cp record |
| ShellDriver.CpThenUndoKeepsCommandLine | src/shell.py:67-90 | after a recorded cp line and an undo line, the history is the logged one, ending in the cp command line |
| ShellDriver.Shell.constructor | src/shell.py:13-17 | a new shell runs, with its command object in the start-up state |
| ShellDriver.Shell.ParseCommand | src/shell.py:19-51 | the token loop computes the parse |
| ShellDriver.Shell.ExecuteCommand | src/shell.py:53-151 | the object's state changes as execute_command does; running becomes false only on exit |

## Left out

- Archive commands (`zip`, `unzip`, `tar`, `untar`), `grep`, `ls`, `cat` and `pwd`: the dispatch
  treats them as leaving the session unchanged. Their archive files, file reads and output
  are not modelled, so their argument checks have no visible effect here.
- Logging, and the exact texts printed. `undo` returns a `Report` naming its outcome instead.
- `Shell.run`, the interactive loop with its `input()` prompt and its interrupt handling.
- src/main.py and the inheritance composition of src/commands/__init__.py, which become one
  class.
- Directory contents: a directory is one opaque item. Paths below a directory are separate keys,
  so copying, moving or deleting a directory does not copy, move or delete keys below it.
- Advanced.MvIntoDirectoryUndoMovesDirectory: does not state where the moved item ends up after
  the undo (in the program, inside the directory at its new name), because keys below a
  directory do not move with it.
- Disk.Move: whether two paths name the same item, or one lies below the other, is decided on
  the path text as given; `.` and `..` components, symbolic links and case-insensitive names are
  not resolved.
- Partial failure: each filesystem call either succeeds completely or changes nothing, under
  `ioOk`. Missing parent directories and permission errors are folded into `ioOk`.
- `os.makedirs` for the trash directory is assumed to succeed.
- FileCommands.Cd: `os.chdir` failing after `current_dir` was set is not modelled. The model
  keeps one current directory for the object and the process.
- Text.Strip and Text.Words: whitespace is the ASCII and Latin-1 set Python uses. Other
  Unicode spaces are not treated as whitespace.
- Text.Lines: universal-newline translation of `\r` and `\r\n` is not modelled; only `\n`
  ends a line.
- ShellDriver.Parse: `strip()` before `split()` is not modelled separately, because `split()`
  already ignores the same leading and trailing whitespace.
- `os.path.expanduser('~')` is the constant `home` of the command object.

/** The command object of src/commands/__init__.py: ShellCommands combines the base state
    (history list, current directory, history file and trash directory), the filesystem
    commands and the advanced commands. Its fields are updated in place, so it is a class; each
    method is proved against the session function of the same name in Base, FileCommands or
    Advanced, which is where the properties of the commands are proved. The filesystem and the
    outcomes of I/O are explicit: the fs field is the disk as the object sees it, and ioOk,
    writeOk, readOk, answer and now stand for the calls that may fail, for input() and for
    time.time(). */
module Commands {
  import opened Text
  import opened Paths
  import opened Wrappers
  import opened Disk
  import opened Base
  import opened FileCommands
  import opened Advanced

  class ShellCommands {
    var history: seq<string>
    var fs: FS
    var currentDir: Path
    /** What os.path.expanduser('~') returns. */
    const home: Path

    /** The object's state as a session value. */
    function State(): Session
      reads this
    {
      Session(history, fs, currentDir)
    }

    /** BaseCommands.__init__: start in the process working directory with an empty history,
        create the trash directory when its name is free, then load the history file. */
    constructor(disk: FS, cwd: Path, home: Path, readOk: bool)
      ensures State() == Initial(disk, cwd, readOk) && this.home == home
    {
      this.home := home;
      history := [];
      currentDir := cwd;
      var trash := At(cwd, TRASH_DIR);
      fs := if trash in disk then disk else disk[trash := Dir([])];
      new;
      LoadHistory(readOk);
    }

    /** load_history: replace the history by the stripped lines of the file, when it exists
        and can be read. */
    method LoadHistory(readOk: bool)
      modifies this
      ensures State() == Base.LoadHistory(old(State()), readOk)
    {
      var f := At(currentDir, HISTORY_FILE);
      if f !in fs || !readOk || !fs[f].File? {
        return;
      }
      var content := fs[f].content;
      var lines := Lines(content);
      var loaded: seq<string> := [];
      for k := 0 to |lines|
        invariant loaded == StripAll(lines[..k])
        invariant unchanged(this)
      {
        assert lines[..k + 1][..k] == lines[..k];
        loaded := loaded + [Strip(lines[k])];
      }
      assert lines[..|lines|] == lines;
      history := loaded;
    }

    /** save_history: write the newest MAX_HISTORY_SIZE entries, one per line. */
    method SaveHistory(writeOk: bool)
      modifies this
      ensures State() == old(State()).(fs := Base.SaveHistory(old(State()), writeOk))
    {
      var f := At(currentDir, HISTORY_FILE);
      if !writeOk || IsDir(fs, f) {
        assert Base.SaveHistory(State(), writeOk) == fs;
        return;
      }
      var window := LastN(history, MAX_HISTORY_SIZE);
      var text := "";
      for k := 0 to |window|
        invariant text == Serialize(window[..k])
        invariant unchanged(this)
      {
        assert window[..k + 1] == window[..k] + [window[k]];
        SerializeSnoc(window[..k], window[k]);
        text := text + window[k] + "\n";
      }
      assert window[..|window|] == window;
      assert text == Serialize(LastN(old(State()).history, MAX_HISTORY_SIZE));
      fs := fs[f := File(text)];
    }

    /** add_to_history: append, keep the newest MAX_HISTORY_SIZE, save. */
    method AddToHistory(command: string, writeOk: bool)
      modifies this
      ensures State() == Base.AddToHistory(old(State()), command, writeOk)
    {
      history := history + [command];
      if |history| > MAX_HISTORY_SIZE {
        history := history[|history| - MAX_HISTORY_SIZE..];
      }
      SaveHistory(writeOk);
    }

    /** cd: move to the resolved path when it names a directory. */
    method Cd(path: Path)
      modifies this
      ensures State() == FileCommands.Cd(home, old(State()), path)
    {
      var resolved := ResolvePath(home, currentDir, path);
      if !IsDir(fs, At(currentDir, resolved)) {
        return;
      }
      currentDir := resolved;
    }

    /** cp: copy a file, or with -r a directory tree, and record "cp|src|dst". */
    method Cp(source: Path, destination: Path, recursive: bool, ioOk: bool)
      modifies this
      ensures State() == FileCommands.Cp(old(State()), source, destination, recursive, ioOk)
    {
      var cwd, disk := currentDir, fs;
      var src := Abspath(cwd, source);
      var dst := Abspath(cwd, destination);
      var from := At(cwd, src);
      if from !in disk {
        return;
      }
      if IsDir(disk, from) {
        if !recursive || At(cwd, dst) in disk || !ioOk {
          return;
        }
        disk := disk[At(cwd, dst) := disk[from]];
      } else {
        if IsDir(disk, At(cwd, dst)) {
          dst := Join(dst, Basename(src));
        }
        // copy2 redirects into a directory once more
        var written := dst;
        if IsDir(disk, At(cwd, written)) {
          written := Join(written, Basename(src));
        }
        if IsDir(disk, At(cwd, written)) || At(cwd, written) == from || !ioOk {
          return;
        }
        disk := disk[At(cwd, written) := disk[from]];
      }
      fs, history := disk, history + [Record("cp", src, dst)];
    }

    /** mv: record "mv|src|dst" first, then move. */
    method Mv(source: Path, destination: Path, ioOk: bool)
      modifies this
      ensures State() == FileCommands.Mv(old(State()), source, destination, ioOk)
    {
      var src := Abspath(currentDir, source);
      var dst := Abspath(currentDir, destination);
      if At(currentDir, src) !in fs {
        return;
      }
      history := history + [Record("mv", src, dst)];
      var moved := Move(fs, At(currentDir, src), At(currentDir, dst));
      if ioOk && moved.Some? {
        fs := moved.value;
      }
    }

    /** rm: soft delete into the trash directory and record "rm|target|trash". */
    method Rm(path: Path, recursive: bool, answer: string, now: nat, ioOk: bool)
      modifies this
      ensures State() == FileCommands.Rm(old(State()), path, recursive, answer, now, ioOk)
    {
      RemovePath(Abspath(currentDir, path), recursive, answer, now, ioOk);
    }

    /** rm once its argument is resolved to an absolute path. */
    method RemovePath(target: Path, recursive: bool, answer: string, now: nat, ioOk: bool)
      modifies this
      ensures State() == FileCommands.RemovePath(old(State()), target, recursive, answer, now, ioOk)
    {
      var cwd, disk := currentDir, fs;
      var key := At(cwd, target);
      if Protected(cwd, target) || key !in disk {
        return;
      }
      if IsDir(disk, key) && (!recursive || !Confirmed(answer)) {
        return;
      }
      var trashDir := At(cwd, Join(cwd, TRASH_DIR));
      if trashDir !in disk {
        disk := disk[trashDir := Dir([])];
      }
      var trash := Join(TRASH_DIR, Basename(target));
      if At(cwd, trash) in disk {
        trash := trash + "." + NatToString(now);
      }
      var moved := Move(disk, key, At(cwd, trash));
      if !ioOk || moved.None? {
        fs := disk;
        return;
      }
      fs, history := moved.value, history + [Record("rm", target, trash)];
    }

    /** show_history: the numbered lines printed for the last 100 entries, records hidden. */
    method ShowHistory() returns (lines: seq<Line>)
      ensures lines == Advanced.ShowHistory(history)
    {
      var window := if |history| <= 100 then history else history[|history| - 100..];
      assert window == LastN(history, 100);
      lines := [];
      for k := 0 to |window|
        invariant lines + Numbered(window, k) == Numbered(window, 0)
      {
        var cmd := window[k];
        assert Numbered(window, k)
            == (if Shown(cmd) then [Line(k + 1, cmd)] else []) + Numbered(window, k + 1);
        if '|' !in cmd || !HasRecordPrefix(cmd) {
          assert lines + Numbered(window, k) == (lines + [Line(k + 1, cmd)]) + Numbered(window, k + 1);
          lines := lines + [Line(k + 1, cmd)];
        }
      }
      assert lines + Numbered(window, |window|) == lines;
    }

    /** undo: scan from the newest entry for one containing '|', invert it, and unless that
        raised, pop it and save. */
    method Undo(ioOk: bool, writeOk: bool) returns (report: Report)
      modifies this
      ensures var r := Advanced.Undo(old(State()), ioOk, writeOk);
        State() == r.session && report == r.report
    {
      var i := |history|;
      while i > 0
        invariant 0 <= i <= |history|
        invariant forall k :: i <= k < |history| ==> '|' !in history[k]
        invariant State() == old(State())
      {
        i := i - 1;
        if '|' in history[i] {
          assert LastRecordIndex(history) == Some(i);
          report := UndoEntry(i, ioOk, writeOk);
          return;
        }
      }
      assert LastRecordIndex(history) == None;
      report := NothingToUndo;
    }

    /** The entry undo picked: invert it and, unless that raised, pop it and save. */
    method UndoEntry(i: nat, ioOk: bool, writeOk: bool) returns (report: Report)
      requires LastRecordIndex(history) == Some(i)
      modifies this
      ensures var r := Advanced.Undo(old(State()), ioOk, writeOk);
        State() == r.session && report == r.report
    {
      var inv := Invert(fs, currentDir, history[i], ioOk);
      report := inv.report;
      if inv.report.Failed? {
        return;
      }
      fs, history := inv.fs, history[..i] + history[i + 1..];
      SaveHistory(writeOk);
    }
  }
}

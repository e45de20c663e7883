/** The shared state of every command group (src/commands/base.py): the history list, its
    persisted file, the trash location and the current directory, with the operations that
    append to, save, load and trim the history and resolve user paths. */
module Base {
  import opened Text
  import opened Paths
  import opened Disk

  const MAX_HISTORY_SIZE: nat := 100
  /** Both names are relative: the operating system resolves them against the working directory. */
  const HISTORY_FILE: Path := ".history"
  const TRASH_DIR: Path := ".trash"

  /** What the command groups share: the history in memory, the filesystem (which also holds the
      persisted history file) and the current directory. */
  datatype Session = Session(history: seq<string>, fs: FS, cwd: Path)

  /** The last n items of xs, all of them when there are fewer (xs[-n:] for n > 0). */
  function LastN<T>(xs: seq<T>, n: nat): (r: seq<T>)
    ensures |r| == if |xs| < n then |xs| else n
    ensures r == xs[|xs| - |r|..]
  {
    if |xs| <= n then xs else xs[|xs| - n..]
  }

  /** The file text save_history writes: each entry followed by a newline. */
  function Serialize(entries: seq<string>): string {
    if entries == [] then [] else entries[0] + "\n" + Serialize(entries[1..])
  }

  /** [line.strip() for line in lines] */
  function StripAll(lines: seq<string>): (entries: seq<string>)
    ensures |entries| == |lines|
    ensures forall k :: 0 <= k < |entries| ==> entries[k] == Strip(lines[k])
  {
    if lines == [] then [] else StripAll(lines[..|lines| - 1]) + [Strip(lines[|lines| - 1])]
  }

  /** The history load_history reads from a file text: one stripped entry per line. */
  function Deserialize(text: string): (entries: seq<string>)
    ensures |entries| == |Lines(text)|
    ensures forall k :: 0 <= k < |entries| ==> entries[k] == Strip(Lines(text)[k])
  {
    StripAll(Lines(text))
  }

  /** Writing one more entry appends its line: the loop in save_history builds Serialize. */
  lemma {:induction false} SerializeSnoc(entries: seq<string>, entry: string)
    ensures Serialize(entries + [entry]) == Serialize(entries) + entry + "\n"
    decreases |entries|
  {
    if entries == [] {
      assert [entry][1..] == [];
    } else {
      assert (entries + [entry])[1..] == entries[1..] + [entry];
      SerializeSnoc(entries[1..], entry);
    }
  }

  /** An entry the file format carries unchanged: no line break and nothing strip() removes. */
  predicate Persistable(entry: string) {
    '\n' !in entry && IsStripped(entry)
  }

  lemma {:induction false} LinesSerialize(entries: seq<string>)
    requires forall k :: 0 <= k < |entries| ==> '\n' !in entries[k]
    ensures Lines(Serialize(entries)) == entries
  {
    if entries != [] {
      var head, rest := entries[0], Serialize(entries[1..]);
      var s := head + "\n" + rest;
      assert s[|head|] == '\n';
      assert IndexOf(s, '\n') == |head| by {
        assert forall k :: 0 <= k < |head| ==> s[k] == head[k];
      }
      assert s[..|head|] == head;
      assert s[|head| + 1..] == rest;
      LinesSerialize(entries[1..]);
    }
  }

  /** Reading back what was written gives the entries back, when each one is persistable. */
  lemma SerializeRoundTrip(entries: seq<string>)
    requires forall k :: 0 <= k < |entries| ==> Persistable(entries[k])
    ensures Deserialize(Serialize(entries)) == entries
  {
    LinesSerialize(entries);
    forall k | 0 <= k < |entries| ensures Strip(entries[k]) == entries[k] {
      StripStripped(entries[k]);
    }
  }

  /** save_history: when the write succeeds, the history file holds the last MAX_HISTORY_SIZE
      entries; a failed write (writeOk false, or the name taken by a directory) is only logged. */
  function SaveHistory(s: Session, writeOk: bool): (r: FS)
    ensures Unchanged(s.fs, r, At(s.cwd, HISTORY_FILE), At(s.cwd, HISTORY_FILE))
    ensures writeOk && !IsDir(s.fs, At(s.cwd, HISTORY_FILE)) ==>
      At(s.cwd, HISTORY_FILE) in r && r[At(s.cwd, HISTORY_FILE)].File?
    ensures !writeOk || IsDir(s.fs, At(s.cwd, HISTORY_FILE)) ==> r == s.fs
  {
    var f := At(s.cwd, HISTORY_FILE);
    if writeOk && !IsDir(s.fs, f) then s.fs[f := File(Serialize(LastN(s.history, MAX_HISTORY_SIZE)))]
    else s.fs
  }

  /** load_history: a missing file, or one that cannot be read (an I/O error, or a directory
      under that name), leaves the history as it was; otherwise the history becomes the file's
      stripped lines, every one of them. */
  function LoadHistory(s: Session, readOk: bool): (r: Session)
    ensures r.fs == s.fs && r.cwd == s.cwd
    ensures var f := At(s.cwd, HISTORY_FILE);
      f in s.fs && s.fs[f].File? && readOk ==> r.history == Deserialize(s.fs[f].content)
    ensures var f := At(s.cwd, HISTORY_FILE);
      !(f in s.fs && s.fs[f].File? && readOk) ==> r == s
  {
    var f := At(s.cwd, HISTORY_FILE);
    if f in s.fs && readOk && s.fs[f].File? then s.(history := Deserialize(s.fs[f].content))
    else s
  }

  /** add_to_history: append, trim to the newest MAX_HISTORY_SIZE entries, save. */
  function AddToHistory(s: Session, command: string, writeOk: bool): (r: Session)
    ensures r.cwd == s.cwd
    ensures r.history == LastN(s.history + [command], MAX_HISTORY_SIZE)
    ensures r.fs == SaveHistory(r.(fs := s.fs), writeOk)
  {
    var appended := s.history + [command];
    var h := if |appended| > MAX_HISTORY_SIZE then LastN(appended, MAX_HISTORY_SIZE) else appended;
    var t := s.(history := h);
    t.(fs := SaveHistory(t, writeOk))
  }

  /** After add_to_history(c) the history is the last 100 of old + [c]: bounded, ending in c,
      and a plain append while there was room. */
  lemma AddToHistoryBounded(s: Session, command: string, writeOk: bool)
    ensures var h := AddToHistory(s, command, writeOk).history;
      h == LastN(s.history + [command], MAX_HISTORY_SIZE)
      && 1 <= |h| <= MAX_HISTORY_SIZE && h[|h| - 1] == command
      && (|s.history| < MAX_HISTORY_SIZE ==> h == s.history + [command])
  {
  }

  /** After add_to_history the file, when written, holds exactly the in-memory history. */
  lemma AddToHistorySaves(s: Session, command: string)
    requires !IsDir(s.fs, At(s.cwd, HISTORY_FILE))
    ensures var r := AddToHistory(s, command, true);
      At(s.cwd, HISTORY_FILE) in r.fs && r.fs[At(s.cwd, HISTORY_FILE)] == File(Serialize(r.history))
  {
    var r := AddToHistory(s, command, true);
    assert |r.history| <= MAX_HISTORY_SIZE;
    assert LastN(r.history, MAX_HISTORY_SIZE) == r.history;
  }

  /** Saving and loading again, from the same directory, keeps the last 100 entries, provided no
      entry has a line break or surrounding whitespace. */
  lemma SaveLoadRoundTrip(s: Session)
    requires forall k :: 0 <= k < |s.history| ==> Persistable(s.history[k])
    requires !IsDir(s.fs, At(s.cwd, HISTORY_FILE))
    ensures LoadHistory(s.(fs := SaveHistory(s, true)), true).history == LastN(s.history, MAX_HISTORY_SIZE)
  {
    var window := LastN(s.history, MAX_HISTORY_SIZE);
    assert forall k :: 0 <= k < |window| ==> window[k] == s.history[|s.history| - |window| + k];
    SerializeRoundTrip(window);
  }

  /** save_history writes the newest min(100, len) entries, in order, one per line, and touches
      no other path; a failed write changes nothing. */
  lemma SaveWritesWindow(s: Session, writeOk: bool)
    requires forall k :: 0 <= k < |s.history| ==> '\n' !in s.history[k]
    ensures var fs := SaveHistory(s, writeOk);
      var f := At(s.cwd, HISTORY_FILE);
      && (forall p :: p != f ==> (p in fs <==> p in s.fs) && (p in fs ==> fs[p] == s.fs[p]))
      && (writeOk && !IsDir(s.fs, f) ==>
            f in fs && fs[f].File? && Lines(fs[f].content) == LastN(s.history, MAX_HISTORY_SIZE)
            && |Lines(fs[f].content)| == if |s.history| < MAX_HISTORY_SIZE then |s.history| else MAX_HISTORY_SIZE)
      && (!writeOk ==> fs == s.fs)
  {
    var window := LastN(s.history, MAX_HISTORY_SIZE);
    assert forall k :: 0 <= k < |window| ==> window[k] == s.history[|s.history| - |window| + k];
    LinesSerialize(window);
  }

  /** resolve_path: '~' is the home directory, '..' the parent of cwd, anything else is joined
      to cwd and normalised. */
  function ResolvePath(home: Path, cwd: Path, path: Path): (r: Path)
    ensures path == "~" ==> r == home
    ensures path == ".." ==> r == Dirname(cwd)
    ensures IsAbs(path) ==> r == Normpath(path)
  {
    if path == "~" then home
    else if path == ".." then Dirname(cwd)
    else Abspath(cwd, path)
  }

  /** A relative argument stays under an absolute current directory. */
  lemma ResolveStaysAbsolute(home: Path, cwd: Path, path: Path)
    requires IsAbs(cwd) && IsAbs(home)
    ensures IsAbs(ResolvePath(home, cwd, path))
  {
    if path == ".." {
      var i := AfterLastSlash(cwd);
      assert i >= 1;
      var head := cwd[..i];
      if !AllSlashes(head) {
        var r := StripTrailingSlashes(head);
        assert head[|r|..] == head ==> AllSlashes(head);
      }
    }
  }

  /** The session a fresh shell starts with: empty history, the trash directory created when
      missing, then the history file loaded. */
  function Initial(fs: FS, cwd: Path, readOk: bool): (s: Session)
    ensures s.cwd == cwd && At(cwd, TRASH_DIR) in s.fs
    ensures forall p :: p in fs ==> p in s.fs && s.fs[p] == fs[p]
    ensures var f := At(cwd, HISTORY_FILE);
      f in fs && fs[f].File? && readOk ==> s.history == Deserialize(fs[f].content)
    ensures var f := At(cwd, HISTORY_FILE);
      !(f in fs && fs[f].File? && readOk) ==> s.history == []
  {
    var t := At(cwd, TRASH_DIR);
    var fs1 := if t in fs then fs else fs[t := Dir([])];
    LoadHistory(Session([], fs1, cwd), readOk)
  }
}

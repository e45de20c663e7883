/** The filesystem commands of src/commands/filesystem.py that change state: cd moves the
    current directory; cp, mv and rm change the filesystem and append a reversible record
    "<tag>|<path>|<path>" straight onto the history list (no trimming, no save). rm is a soft
    delete into the trash directory. */
module FileCommands {
  import opened Text
  import opened Paths
  import opened Wrappers
  import opened Disk
  import opened Base

  /** The reversible record a command appends: tag, then the two paths undo needs. */
  function Record(tag: string, first: Path, second: Path): string {
    tag + "|" + first + "|" + second
  }

  /** cd: the current directory becomes the resolved path when it names an existing directory;
      nothing else ever changes. */
  function Cd(home: Path, s: Session, path: Path): (r: Session)
    ensures r.history == s.history && r.fs == s.fs
    ensures var target := ResolvePath(home, s.cwd, path);
      if IsDir(s.fs, At(s.cwd, target)) then r.cwd == target else r.cwd == s.cwd
  {
    var target := ResolvePath(home, s.cwd, path);
    if IsDir(s.fs, At(s.cwd, target)) then s.(cwd := target) else s
  }

  /** The destination cp records: a file copied onto a directory is recorded as going inside it. */
  function CopyDestination(s: Session, src: Path, dst: Path): Path {
    if !IsDir(s.fs, At(s.cwd, src)) && IsDir(s.fs, At(s.cwd, dst)) then Join(dst, Basename(src)) else dst
  }

  /** Where shutil.copy2(src, d) writes: it redirects into a directory once more, so when the
      recorded d is itself a directory the copy lands at d/basename(src). */
  function CopyTarget(s: Session, src: Path, d: Path): Path {
    if IsDir(s.fs, At(s.cwd, d)) then Join(d, Basename(src)) else d
  }

  /** Whether cp's copy goes through: the source exists, I/O works, and neither copytree (a
      directory needs -r and a free destination) nor copy2 (the path it writes must be neither
      a directory nor the source itself) raises. */
  predicate CopyWorks(s: Session, src: Path, dst: Path, recursive: bool, ioOk: bool) {
    var from := At(s.cwd, src);
    && from in s.fs && ioOk
    && (IsDir(s.fs, from) ==> recursive && At(s.cwd, dst) !in s.fs)
    && (!IsDir(s.fs, from) ==>
          var t := At(s.cwd, CopyTarget(s, src, CopyDestination(s, src, dst)));
          !IsDir(s.fs, t) && t != from)
  }

  /** cp: a missing source, a directory without -r, or a failed copy (copytree onto an existing
      path, copy2 onto a directory or onto the source itself, any I/O failure) changes nothing;
      otherwise the copy is written and "cp|src|dst" is appended. */
  function Cp(s: Session, source: Path, destination: Path, recursive: bool, ioOk: bool): (r: Session)
    ensures r.cwd == s.cwd
    ensures var src := Abspath(s.cwd, source);
      var dst := Abspath(s.cwd, destination);
      !CopyWorks(s, src, dst, recursive, ioOk) ==> r == s
    ensures var src := Abspath(s.cwd, source);
      var dst := Abspath(s.cwd, destination);
      var d := CopyDestination(s, src, dst);
      CopyWorks(s, src, dst, recursive, ioOk) ==>
        && r.history == s.history + [Record("cp", src, d)]
        && r.fs == s.fs[At(s.cwd, CopyTarget(s, src, d)) := s.fs[At(s.cwd, src)]]
  {
    CopyPaths(s, Abspath(s.cwd, source), Abspath(s.cwd, destination), recursive, ioOk)
  }

  /** cp once both arguments are resolved. When the copy goes through, the one path written is
      where copytree or copy2 put the copy, and the record names cp's own destination; otherwise
      nothing changes. */
  function CopyPaths(s: Session, src: Path, dst: Path, recursive: bool, ioOk: bool): (r: Session)
    ensures r.cwd == s.cwd
    ensures !CopyWorks(s, src, dst, recursive, ioOk) ==> r == s
    ensures CopyWorks(s, src, dst, recursive, ioOk) ==>
      var d := CopyDestination(s, src, dst);
      && r.history == s.history + [Record("cp", src, d)]
      && r.fs == s.fs[At(s.cwd, CopyTarget(s, src, d)) := s.fs[At(s.cwd, src)]]
  {
    var from := At(s.cwd, src);
    if from !in s.fs then s
    else if IsDir(s.fs, from) then
      if !recursive || At(s.cwd, dst) in s.fs || !ioOk then s
      else s.(fs := s.fs[At(s.cwd, dst) := s.fs[from]], history := s.history + [Record("cp", src, dst)])
    else
      var d := CopyDestination(s, src, dst);
      var t := CopyTarget(s, src, d);
      if IsDir(s.fs, At(s.cwd, t)) || At(s.cwd, t) == from || !ioOk then s
      else s.(fs := s.fs[At(s.cwd, t) := s.fs[from]], history := s.history + [Record("cp", src, d)])
  }

  /** cp changes something exactly when the copy goes through, and it never touches the source. */
  lemma CpOutcome(s: Session, source: Path, destination: Path, recursive: bool, ioOk: bool)
    ensures var r := Cp(s, source, destination, recursive, ioOk);
      var src := Abspath(s.cwd, source);
      var dst := Abspath(s.cwd, destination);
      var from := At(s.cwd, src);
      && (r != s <==> CopyWorks(s, src, dst, recursive, ioOk))
      && (r != s ==> |r.history| == |s.history| + 1)
      && (from in s.fs ==> from in r.fs && r.fs[from] == s.fs[from])
  {
    var src := Abspath(s.cwd, source);
    var dst := Abspath(s.cwd, destination);
    var from := At(s.cwd, src);
    if CopyWorks(s, src, dst, recursive, ioOk) && IsDir(s.fs, from) {
      assert CopyTarget(s, src, CopyDestination(s, src, dst)) == dst;
    }
  }

  /** Copying a file onto an existing directory, when the name inside it is free or a file other
      than the source, writes the copy there and records dir/basename(src). */
  lemma CpFileIntoDirectory(s: Session, source: Path, destination: Path)
    requires var src := Abspath(s.cwd, source);
      At(s.cwd, src) in s.fs && s.fs[At(s.cwd, src)].File?
    requires IsDir(s.fs, At(s.cwd, Abspath(s.cwd, destination)))
    requires var src := Abspath(s.cwd, source);
      var d := Join(Abspath(s.cwd, destination), Basename(src));
      !IsDir(s.fs, At(s.cwd, d)) && At(s.cwd, d) != At(s.cwd, src)
    ensures var r := Cp(s, source, destination, false, true);
      var src := Abspath(s.cwd, source);
      var d := Join(Abspath(s.cwd, destination), Basename(src));
      && r.history == s.history + [Record("cp", src, d)]
      && r.fs == s.fs[At(s.cwd, d) := s.fs[At(s.cwd, src)]]
  {
  }

  /** cp -r of a directory to a free name copies the whole item there and records it. */
  lemma CpDirectoryToFree(s: Session, source: Path, destination: Path)
    requires var src := Abspath(s.cwd, source);
      IsDir(s.fs, At(s.cwd, src)) && At(s.cwd, Abspath(s.cwd, destination)) !in s.fs
    ensures var r := Cp(s, source, destination, true, true);
      var src := Abspath(s.cwd, source);
      var dst := Abspath(s.cwd, destination);
      && r.history == s.history + [Record("cp", src, dst)]
      && r.fs == s.fs[At(s.cwd, dst) := s.fs[At(s.cwd, src)]]
  {
  }

  /** mv: a missing source changes nothing; otherwise "mv|src|dst" is appended BEFORE
      shutil.move runs, so the record stays even when the move fails. */
  function Mv(s: Session, source: Path, destination: Path, ioOk: bool): (r: Session)
    ensures r.cwd == s.cwd
    ensures r.history == s.history
      || r.history == s.history + [Record("mv", Abspath(s.cwd, source), Abspath(s.cwd, destination))]
  {
    MovePaths(s, Abspath(s.cwd, source), Abspath(s.cwd, destination), ioOk)
  }

  /** mv once both arguments are resolved: the record goes in exactly when the source exists,
      and the filesystem changes only by a move that succeeded. */
  function MovePaths(s: Session, src: Path, dst: Path, ioOk: bool): (r: Session)
    ensures r.cwd == s.cwd
    ensures At(s.cwd, src) !in s.fs ==> r == s
    ensures At(s.cwd, src) in s.fs ==> r.history == s.history + [Record("mv", src, dst)]
    ensures r.fs != s.fs ==> ioOk && Move(s.fs, At(s.cwd, src), At(s.cwd, dst)) == Some(r.fs)
    ensures var moved := Move(s.fs, At(s.cwd, src), At(s.cwd, dst));
      At(s.cwd, src) in s.fs && ioOk && moved.Some? ==> r.fs == moved.value
  {
    if At(s.cwd, src) !in s.fs then s
    else
      var moved := Move(s.fs, At(s.cwd, src), At(s.cwd, dst));
      var fs := if ioOk && moved.Some? then moved.value else s.fs;
      s.(fs := fs, history := s.history + [Record("mv", src, dst)])
  }

  /** mv records exactly when the source exists, whether or not the move then succeeds. */
  lemma MvRecordsBeforeMove(s: Session, source: Path, destination: Path, ioOk: bool)
    ensures var r := Mv(s, source, destination, ioOk);
      var src := Abspath(s.cwd, source);
      var dst := Abspath(s.cwd, destination);
      && (At(s.cwd, src) !in s.fs ==> r == s)
      && (At(s.cwd, src) in s.fs ==> r.history == s.history + [Record("mv", src, dst)])
      && (r.fs != s.fs ==> ioOk && Move(s.fs, At(s.cwd, src), At(s.cwd, dst)) == Some(r.fs))
      && (At(s.cwd, src) in s.fs && ioOk && Move(s.fs, At(s.cwd, src), At(s.cwd, dst)).Some? ==>
            r.fs == Move(s.fs, At(s.cwd, src), At(s.cwd, dst)).value)
  {
  }

  /** mv of a file onto another existing file replaces it: the destination now holds the
      source's content, the source is gone, and the move is recorded. */
  lemma MvOntoFileReplaces(s: Session, source: Path, destination: Path)
    requires var src := At(s.cwd, Abspath(s.cwd, source));
      var dst := At(s.cwd, Abspath(s.cwd, destination));
      src in s.fs && s.fs[src].File? && dst in s.fs && s.fs[dst].File? && src != dst
    ensures var r := Mv(s, source, destination, true);
      var src := Abspath(s.cwd, source);
      var dst := Abspath(s.cwd, destination);
      && r.history == s.history + [Record("mv", src, dst)]
      && r.fs == Move(s.fs, At(s.cwd, src), At(s.cwd, dst)).value
      && At(s.cwd, src) !in r.fs
      && r.fs[At(s.cwd, dst)] == s.fs[At(s.cwd, src)]
  {
    var src := At(s.cwd, Abspath(s.cwd, source));
    var dst := At(s.cwd, Abspath(s.cwd, destination));
    assert !MoveRefused(s.fs, src, dst);
  }

  /** rm's confirmation: input().lower() == 'y'. */
  predicate Confirmed(answer: string) {
    answer == "y" || answer == "Y"
  }

  /** The paths rm refuses: '/', '..' and the parent of the current directory. */
  predicate Protected(cwd: Path, target: Path) {
    target == "/" || target == ".." || target == Dirname(cwd)
  }

  /** The trash name rm picks: .trash/<basename>, with ".<seconds>" appended once when that name
      is taken. It is relative, like TRASH_DIR. */
  function TrashName(fs: FS, cwd: Path, target: Path, now: nat): (r: Path)
    ensures StartsWith(r, TRASH_DIR + "/")
    ensures var first := TRASH_DIR + "/" + Basename(target);
      && (r == first <==> At(cwd, first) !in fs)
      && (r != first ==> r == first + "." + NatToString(now))
  {
    BasenameRelative(target);
    TrashJoin(Basename(target));
    var first := Join(TRASH_DIR, Basename(target));
    if At(cwd, first) in fs then first + "." + NatToString(now) else first
  }

  /** rm: refuses protected paths, missing paths, directories without -r and unconfirmed
      directory removals; otherwise creates the trash directory when missing, moves the item to
      its trash name and then appends "rm|target|trash". A failed move leaves only the trash
      directory created. */
  function Rm(s: Session, path: Path, recursive: bool, answer: string, now: nat, ioOk: bool): (r: Session)
    ensures r.cwd == s.cwd
    ensures var target := Abspath(s.cwd, path);
      r.history == s.history
      || r.history == s.history + [Record("rm", target, TrashName(WithTrashDir(s), s.cwd, target, now))]
  {
    RemovePath(s, Abspath(s.cwd, path), recursive, answer, now, ioOk)
  }

  /** os.makedirs(trash_dir, exist_ok=True), with trash_dir = join(cwd, TRASH_DIR): the
      filesystem with the trash directory present. */
  function WithTrashDir(s: Session): (fs: FS)
    ensures forall p :: p in s.fs ==> p in fs && fs[p] == s.fs[p]
    ensures var trashDir := At(s.cwd, Join(s.cwd, TRASH_DIR));
      trashDir in fs && Unchanged(s.fs, fs, trashDir, trashDir)
  {
    var trashDir := At(s.cwd, Join(s.cwd, TRASH_DIR));
    if trashDir in s.fs then s.fs else s.fs[trashDir := Dir([])]
  }

  /** The targets rm goes on to dispose of: not protected, present, and, for a directory, with -r
      and a confirming answer. */
  predicate Removable(s: Session, target: Path, recursive: bool, answer: string) {
    var key := At(s.cwd, target);
    && !Protected(s.cwd, target) && key in s.fs
    && (IsDir(s.fs, key) ==> recursive && Confirmed(answer))
  }

  /** rm once its argument is resolved. Without a record the filesystem is as it was, apart
      from a trash directory created on the way; with one, the item was moved to the recorded
      trash name. */
  function RemovePath(s: Session, target: Path, recursive: bool, answer: string, now: nat, ioOk: bool): (r: Session)
    ensures r.cwd == s.cwd
    ensures r.history == s.history ==> r.fs == s.fs || r.fs == WithTrashDir(s)
    ensures r.history != s.history ==>
      var trash := TrashName(WithTrashDir(s), s.cwd, target, now);
      && ioOk && Move(WithTrashDir(s), At(s.cwd, target), At(s.cwd, trash)) == Some(r.fs)
      && r.history == s.history + [Record("rm", target, trash)]
  {
    var key := At(s.cwd, target);
    if Protected(s.cwd, target) || key !in s.fs then s
    else if IsDir(s.fs, key) && (!recursive || !Confirmed(answer)) then s
    else Dispose(s, target, now, ioOk)
  }

  /** rm's disposal once the target passed its checks: create the trash directory, pick the
      trash name, move the item there and, when that worked, record it. */
  function Dispose(s: Session, target: Path, now: nat, ioOk: bool): (r: Session)
    ensures r.cwd == s.cwd
    ensures r.history == s.history ==> r.fs == WithTrashDir(s)
    ensures r.history != s.history ==>
      var trash := TrashName(WithTrashDir(s), s.cwd, target, now);
      && ioOk && Move(WithTrashDir(s), At(s.cwd, target), At(s.cwd, trash)) == Some(r.fs)
      && r.history == s.history + [Record("rm", target, trash)]
    ensures var trash := TrashName(WithTrashDir(s), s.cwd, target, now);
      var moved := Move(WithTrashDir(s), At(s.cwd, target), At(s.cwd, trash));
      ioOk && moved.Some? ==> r.fs == moved.value && r.history == s.history + [Record("rm", target, trash)]
  {
    var fs1 := WithTrashDir(s);
    var trash := TrashName(fs1, s.cwd, target, now);
    var moved := Move(fs1, At(s.cwd, target), At(s.cwd, trash));
    if !ioOk || moved.None? then s.(fs := fs1)
    else s.(fs := moved.value, history := s.history + [Record("rm", target, trash)])
  }

  /** rm disposes of exactly the removable targets: any other target leaves the session as it
      was, and a removable one whose move to its trash name works is moved there and recorded. */
  lemma RmMovesRemovable(s: Session, target: Path, recursive: bool, answer: string, now: nat, ioOk: bool)
    ensures var r := RemovePath(s, target, recursive, answer, now, ioOk);
      !Removable(s, target, recursive, answer) ==> r == s
    ensures var r := RemovePath(s, target, recursive, answer, now, ioOk);
      var trash := TrashName(WithTrashDir(s), s.cwd, target, now);
      var moved := Move(WithTrashDir(s), At(s.cwd, target), At(s.cwd, trash));
      Removable(s, target, recursive, answer) && ioOk && moved.Some? ==>
        r.fs == moved.value && r.history == s.history + [Record("rm", target, trash)]
  {
  }

  /** rm records nothing and removes nothing in each of its refusal cases. */
  lemma RmRefusals(s: Session, path: Path, recursive: bool, answer: string, now: nat, ioOk: bool)
    ensures var r := Rm(s, path, recursive, answer, now, ioOk);
      var target := Abspath(s.cwd, path);
      var key := At(s.cwd, target);
      && (Protected(s.cwd, target) ==> r == s)
      && (key !in s.fs ==> r == s)
      && (IsDir(s.fs, key) && !recursive ==> r == s)
      && (IsDir(s.fs, key) && !Confirmed(answer) ==> r == s)
      && r.cwd == s.cwd
  {
  }

  /** rm leaves the history as it was or appends exactly one entry. */
  lemma RmAppendsAtMostOne(s: Session, path: Path, recursive: bool, answer: string, now: nat, ioOk: bool)
    ensures var h := Rm(s, path, recursive, answer, now, ioOk).history;
      h == s.history || (|h| == |s.history| + 1 && h[..|s.history|] == s.history)
  {
  }

  /** When rm records, the item sits, unchanged, where shutil.move put it under the recorded
      trash name (at that name, or inside it when the name is a directory already), and the
      record is the last history entry. */
  lemma RmSoftDeletes(s: Session, target: Path, recursive: bool, answer: string, now: nat, ioOk: bool)
    requires IsAbs(target)
    ensures var r := RemovePath(s, target, recursive, answer, now, ioOk);
      var fs1 := WithTrashDir(s);
      var trash := TrashName(fs1, s.cwd, target, now);
      var t := MoveTarget(fs1, target, At(s.cwd, trash));
      |r.history| == |s.history| + 1 ==>
        && target in s.fs && ioOk
        && r.history == s.history + [Record("rm", target, trash)]
        && StartsWith(trash, TRASH_DIR + "/")
        && t in r.fs && r.fs[t] == s.fs[target]
  {
    var r := RemovePath(s, target, recursive, answer, now, ioOk);
    if |r.history| == |s.history| + 1 {
      assert At(s.cwd, target) == target;
      var fs1 := WithTrashDir(s);
      var trash := TrashName(fs1, s.cwd, target, now);
      var moved := Move(fs1, target, At(s.cwd, trash));
      assert target in s.fs && ioOk && moved.Some?;
      assert r.fs == moved.value;
    }
  }

  /** rm -r of the current directory itself (as "rm -r ." gives), answered y: the trash name lies
      below the directory, so shutil.move refuses and nothing is recorded; only the trash
      directory may have been created on the way. */
  lemma RmCurrentDirectoryRefused(s: Session, answer: string, now: nat, ioOk: bool)
    requires IsAbs(s.cwd) && IsDir(s.fs, s.cwd) && Confirmed(answer) && !Protected(s.cwd, s.cwd)
    ensures RemovePath(s, s.cwd, true, answer, now, ioOk) == s.(fs := WithTrashDir(s))
  {
    var fs1 := WithTrashDir(s);
    var trash := TrashName(fs1, s.cwd, s.cwd, now);
    assert trash != [] && !IsAbs(trash) by {
      assert trash[..|TRASH_DIR + "/"|] == TRASH_DIR + "/";
    }
    JoinWithin(s.cwd, trash);
    assert MoveRefused(fs1, s.cwd, At(s.cwd, trash));
  }

  lemma TrashJoin(b: Path)
    requires !IsAbs(b)
    ensures Join(TRASH_DIR, b) == TRASH_DIR + "/" + b
  {
  }
}

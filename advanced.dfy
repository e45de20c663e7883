/** The history view and the single-step undo of src/commands/advanced.py. Undo scans the raw
    history strings from newest to oldest, takes the first one containing '|', inverts it by its
    tag against the current filesystem, pops exactly that entry and saves. */
module Advanced {
  import opened Text
  import opened Paths
  import opened Wrappers
  import opened Disk
  import opened Base
  import opened FileCommands

  // ---------------------------------------------------------------------------------------
  // history

  predicate HasRecordPrefix(cmd: string) {
    StartsWith(cmd, "cp|") || StartsWith(cmd, "mv|") || StartsWith(cmd, "rm|")
  }

  /** The filter show_history applies to each entry of its window. */
  predicate Shown(cmd: string) {
    '|' !in cmd || !HasRecordPrefix(cmd)
  }

  /** The filter hides exactly the entries that start with a record tag and '|'. */
  lemma ShownExactly(cmd: string)
    ensures Shown(cmd) <==> !HasRecordPrefix(cmd)
  {
    if HasRecordPrefix(cmd) {
      assert cmd[2] == '|';
    }
  }

  /** One printed line "<number>: <text>". */
  datatype Line = Line(number: nat, text: string)

  /** The lines printed for window[from..], each numbered by its 1-based window position. */
  function Numbered(window: seq<string>, from: nat): (lines: seq<Line>)
    requires from <= |window|
    ensures forall i :: 0 <= i < |lines| ==>
      from < lines[i].number <= |window| && lines[i].text == window[lines[i].number - 1] && Shown(lines[i].text)
    ensures forall i, j :: 0 <= i < j < |lines| ==> lines[i].number < lines[j].number
    decreases |window| - from
  {
    if from == |window| then []
    else
      var rest := Numbered(window, from + 1);
      if Shown(window[from]) then [Line(from + 1, window[from])] + rest else rest
  }

  /** show_history: the lines printed under the header, for the last 100 entries. */
  function ShowHistory(history: seq<string>): (lines: seq<Line>)
    ensures var window := LastN(history, 100);
      forall i :: 0 <= i < |lines| ==>
        1 <= lines[i].number <= |window| && lines[i].text == window[lines[i].number - 1]
        && !HasRecordPrefix(lines[i].text)
    ensures forall i, j :: 0 <= i < j < |lines| ==> lines[i].number < lines[j].number
  {
    var lines := Numbered(LastN(history, 100), 0);
    forall i | 0 <= i < |lines| ensures !HasRecordPrefix(lines[i].text) {
      ShownExactly(lines[i].text);
    }
    lines
  }

  lemma {:induction false} NumberedComplete(window: seq<string>, from: nat, k: nat) returns (i: nat)
    requires from <= k < |window| && Shown(window[k])
    ensures i < |Numbered(window, from)| && Numbered(window, from)[i] == Line(k + 1, window[k])
    decreases k - from
  {
    var lines := Numbered(window, from);
    var rest := Numbered(window, from + 1);
    var head := if Shown(window[from]) then [Line(from + 1, window[from])] else [];
    assert lines == head + rest;
    if k == from {
      i := 0;
    } else {
      var j := NumberedComplete(window, from + 1, k);
      i := |head| + j;
      assert lines[i] == rest[j];
    }
  }

  /** Every entry of the window that is not a record is printed, with its window position. */
  lemma ShowHistoryComplete(history: seq<string>, k: nat)
    requires var window := LastN(history, 100); k < |window| && !HasRecordPrefix(window[k])
    ensures var window := LastN(history, 100);
      exists i :: 0 <= i < |ShowHistory(history)| && ShowHistory(history)[i] == Line(k + 1, window[k])
  {
    var window := LastN(history, 100);
    ShownExactly(window[k]);
    var i := NumberedComplete(window, 0, k);
    assert ShowHistory(history) == Numbered(window, 0);
  }

  lemma {:induction false} NumberedAllShown(window: seq<string>, from: nat)
    requires from <= |window|
    requires forall k :: from <= k < |window| ==> Shown(window[k])
    ensures |Numbered(window, from)| == |window| - from
    ensures forall i :: 0 <= i < |window| - from ==> Numbered(window, from)[i] == Line(from + i + 1, window[from + i])
    decreases |window| - from
  {
    if from < |window| {
      NumberedAllShown(window, from + 1);
    }
  }

  /** With no records in the window, every entry is printed once, numbered 1..count. */
  lemma ShowHistoryPlain(history: seq<string>)
    requires forall k :: 0 <= k < |history| ==> !HasRecordPrefix(history[k])
    ensures var window := LastN(history, 100);
      |ShowHistory(history)| == |window|
      && forall i :: 0 <= i < |window| ==> ShowHistory(history)[i] == Line(i + 1, window[i])
  {
    var window := LastN(history, 100);
    AllShown(history, window);
    NumberedAllShown(window, 0);
    var lines := ShowHistory(history);
    assert lines == Numbered(window, 0);
    forall i | 0 <= i < |window| ensures lines[i] == Line(i + 1, window[i]) {
      assert lines[i] == Numbered(window, 0)[0 + i];
    }
  }

  lemma AllShown(history: seq<string>, window: seq<string>)
    requires forall k :: 0 <= k < |history| ==> !HasRecordPrefix(history[k])
    requires window == LastN(history, 100)
    ensures forall k :: 0 <= k < |window| ==> Shown(window[k])
  {
    forall k | 0 <= k < |window| ensures Shown(window[k]) {
      assert window[k] == history[|history| - |window| + k];
      ShownExactly(window[k]);
    }
  }

  // ---------------------------------------------------------------------------------------
  // undo

  /** A record with a known tag splits back into its tag and its two paths when no part
      contains the separator. */
  lemma RecordDecodes(tag: string, first: Path, second: Path)
    requires '|' !in tag && '|' !in first && '|' !in second
    ensures SplitOn(Record(tag, first, second), '|') == [tag, first, second]
  {
    assert JoinWith([first, second], '|') == first + "|" + second by {
      assert [first, second][1..] == [second];
    }
    assert [tag, first, second][1..] == [first, second];
    assert Record(tag, first, second) == JoinWith([tag, first, second], '|');
    SplitJoin([tag, first, second], '|');
  }

  /** The newest entry containing '|', if any: undo's target. */
  function LastRecordIndex(history: seq<string>): (r: Option<nat>)
    ensures r.Some? ==> (r.value < |history| && '|' in history[r.value]
      && forall k :: r.value < k < |history| ==> '|' !in history[k])
    ensures r.None? ==> forall k :: 0 <= k < |history| ==> '|' !in history[k]
  {
    if history == [] then None
    else if '|' in history[|history| - 1] then Some(|history| - 1)
    else LastRecordIndex(history[..|history| - 1])
  }

  /** The newest entry containing '|' is the one undo picks. */
  lemma LastRecordIndexIs(history: seq<string>, i: nat)
    requires i < |history| && '|' in history[i]
    requires forall k :: i < k < |history| ==> '|' !in history[k]
    ensures LastRecordIndex(history) == Some(i)
  {
  }

  datatype Failure = MissingField | IoError

  /** What undo prints. */
  datatype Report =
    | NothingToUndo
    | RemovedCopy(path: Path, wasDir: bool)
    | MovedBack(from: Path, to: Path)
    | Restored(original: Path)
    | CopyNotFound(path: Path)
    | MoveNotFound(path: Path)
    | TrashNotFound(path: Path)
    | UnknownKind(tag: string)
    | Failed(failure: Failure)

  datatype Inversion = Inversion(fs: FS, report: Report)

  /** Inverting one entry, dispatched on the text before its first '|'. A cp/mv/rm entry with
      fewer than three fields raises (IndexError), as does a failed delete or move: those leave
      the filesystem as it was and report Failed. */
  function Invert(fs: FS, cwd: Path, entry: string, ioOk: bool): (inv: Inversion)
    requires '|' in entry
    ensures inv.report.Failed? || inv.report.UnknownKind? ==> inv.fs == fs
    ensures inv.report.CopyNotFound? || inv.report.MoveNotFound? || inv.report.TrashNotFound? ==> inv.fs == fs
    ensures inv.report.RemovedCopy? ==> inv.fs == fs - {At(cwd, inv.report.path)}
  {
    InvertFields(fs, cwd, SplitOn(entry, '|'), ioOk)
  }

  /** Invert on the fields of the split entry. */
  function InvertFields(fs: FS, cwd: Path, parts: seq<string>, ioOk: bool): (inv: Inversion)
    requires |parts| >= 1
    ensures inv.report.Failed? || inv.report.UnknownKind? ==> inv.fs == fs
    ensures inv.report.CopyNotFound? || inv.report.MoveNotFound? || inv.report.TrashNotFound? ==> inv.fs == fs
    ensures inv.report.RemovedCopy? ==> inv.fs == fs - {At(cwd, inv.report.path)}
  {
    var tag := parts[0];
    if tag == "cp" then
      if |parts| < 3 then Inversion(fs, Failed(MissingField))
      else
        var dst := parts[2];
        var key := At(cwd, dst);
        if key !in fs then Inversion(fs, CopyNotFound(dst))
        else if !ioOk then Inversion(fs, Failed(IoError))
        else Inversion(fs - {key}, RemovedCopy(dst, IsDir(fs, key)))
    else if tag == "mv" || tag == "rm" then
      if |parts| < 3 then Inversion(fs, Failed(MissingField))
      else
        var back, away := parts[1], parts[2];
        if At(cwd, away) !in fs then
          Inversion(fs, if tag == "mv" then MoveNotFound(away) else TrashNotFound(away))
        else
          var moved := Move(fs, At(cwd, away), At(cwd, back));
          if !ioOk || moved.None? then Inversion(fs, Failed(IoError))
          else Inversion(moved.value, if tag == "mv" then MovedBack(away, back) else Restored(back))
    else Inversion(fs, UnknownKind(tag))
  }

  datatype UndoResult = UndoResult(session: Session, report: Report)

  /** undo: nothing to do without an entry containing '|'; a raised error leaves everything as
      it was; otherwise the inverted entry is popped, whatever the report, and the history is
      saved. */
  function Undo(s: Session, ioOk: bool, writeOk: bool): (r: UndoResult)
    ensures r.session.cwd == s.cwd
    ensures r.report.Failed? || r.report == NothingToUndo ==> r.session == s
    ensures !r.report.Failed? && r.report != NothingToUndo ==> |r.session.history| == |s.history| - 1
    ensures LastRecordIndex(s.history).Some? ==>
      var i := LastRecordIndex(s.history).value;
      var inv := Invert(s.fs, s.cwd, s.history[i], ioOk);
      && r.report == inv.report
      && (!r.report.Failed? ==>
            && r.session.history == s.history[..i] + s.history[i + 1..]
            && r.session.fs == SaveHistory(Session(r.session.history, inv.fs, s.cwd), writeOk))
  {
    match LastRecordIndex(s.history)
    case None => UndoResult(s, NothingToUndo)
    case Some(i) =>
      var inv := Invert(s.fs, s.cwd, s.history[i], ioOk);
      if inv.report.Failed? then UndoResult(s, inv.report)
      else
        var t := Session(s.history[..i] + s.history[i + 1..], inv.fs, s.cwd);
        UndoResult(t.(fs := SaveHistory(t, writeOk)), inv.report)
  }

  /** Without an entry containing '|', undo reports "Nothing to undo" and changes nothing; this
      is the only way to get that report. */
  lemma UndoNothing(s: Session, ioOk: bool, writeOk: bool)
    ensures Undo(s, ioOk, writeOk).report == NothingToUndo
        <==> forall k :: 0 <= k < |s.history| ==> '|' !in s.history[k]
    ensures Undo(s, ioOk, writeOk).report == NothingToUndo ==> Undo(s, ioOk, writeOk).session == s
  {
  }

  /** When undo does not fail, it removes exactly one entry: the newest one containing '|',
      keeping every other entry in order, and the newer plain entries in place. */
  lemma UndoPopsExactlyTarget(s: Session, ioOk: bool, writeOk: bool)
    requires exists k :: 0 <= k < |s.history| && '|' in s.history[k]
    ensures var r := Undo(s, ioOk, writeOk);
      !r.report.Failed? ==>
        exists i :: 0 <= i < |s.history| && '|' in s.history[i]
          && (forall k :: i < k < |s.history| ==> '|' !in s.history[k])
          && r.session.history == s.history[..i] + s.history[i + 1..]
          && |r.session.history| == |s.history| - 1
          && r.session.history[i..] == s.history[i + 1..]
  {
    var k :| 0 <= k < |s.history| && '|' in s.history[k];
    var i := LastRecordIndex(s.history);
    assert i.Some?;
  }

  /** A failed undo (a short record, a failed delete or move) leaves the whole session as it was,
      so undo stops at that entry: repeating it never gets past it. */
  lemma UndoFailureChangesNothing(s: Session, ioOk: bool, writeOk: bool)
    ensures Undo(s, ioOk, writeOk).report.Failed? ==> Undo(s, ioOk, writeOk).session == s
  {
  }

  /** A cp/mv/rm record with fewer than three fields makes every undo fail, however the
      filesystem looks. */
  lemma ShortRecordBlocksUndo(s: Session, ioOk: bool, writeOk: bool, i: nat)
    requires i < |s.history| && '|' in s.history[i]
    requires forall k :: i < k < |s.history| ==> '|' !in s.history[k]
    requires var parts := SplitOn(s.history[i], '|');
      |parts| < 3 && parts[0] in {"cp", "mv", "rm"}
    ensures Undo(s, ioOk, writeOk) == UndoResult(s, Failed(MissingField))
  {
  }

  /** The target is consumed even when the thing to restore is gone: the report says so and the
      filesystem is untouched apart from the saved history file. */
  lemma UndoConsumesMissingTarget(s: Session, ioOk: bool, writeOk: bool, i: nat)
    requires i < |s.history| && '|' in s.history[i]
    requires forall k :: i < k < |s.history| ==> '|' !in s.history[k]
    requires var parts := SplitOn(s.history[i], '|');
      |parts| >= 3 && parts[0] in {"cp", "mv", "rm"} && At(s.cwd, parts[2]) !in s.fs
    ensures var r := Undo(s, ioOk, writeOk);
      var parts := SplitOn(s.history[i], '|');
      && r.session.history == s.history[..i] + s.history[i + 1..]
      && r.report in {CopyNotFound(parts[2]), MoveNotFound(parts[2]), TrashNotFound(parts[2])}
      && r.session.fs == SaveHistory(r.session.(fs := s.fs), writeOk)
  {
    LastRecordIndexIs(s.history, i);
  }

  /** An entry with an unknown tag is popped with no filesystem effect. */
  lemma UndoUnknownTag(s: Session, ioOk: bool, writeOk: bool, i: nat)
    requires i < |s.history| && '|' in s.history[i]
    requires forall k :: i < k < |s.history| ==> '|' !in s.history[k]
    requires SplitOn(s.history[i], '|')[0] !in {"cp", "mv", "rm"}
    ensures var r := Undo(s, ioOk, writeOk);
      && r.report == UnknownKind(SplitOn(s.history[i], '|')[0])
      && r.session.history == s.history[..i] + s.history[i + 1..]
      && r.session.fs == SaveHistory(r.session.(fs := s.fs), writeOk)
  {
    LastRecordIndexIs(s.history, i);
  }

  /** Inverting a record inverts its three fields. */
  lemma InvertRecord(fs: FS, cwd: Path, tag: string, first: Path, second: Path, ioOk: bool)
    requires '|' !in tag && '|' !in first && '|' !in second
    ensures '|' in Record(tag, first, second)
    ensures Invert(fs, cwd, Record(tag, first, second), ioOk) == InvertFields(fs, cwd, [tag, first, second], ioOk)
  {
    var entry := Record(tag, first, second);
    RecordDecodes(tag, first, second);
    assert entry[|tag|] == '|';
  }

  /** Undoing cp deletes the destination (a whole subtree when it is a directory) and touches no
      other path before the save; the source is never touched. */
  lemma UndoCopyDeletesOnlyDestination(fs: FS, cwd: Path, src: Path, dst: Path, ioOk: bool)
    requires '|' !in src && '|' !in dst
    requires At(cwd, dst) in fs && ioOk
    ensures var inv := Invert(fs, cwd, Record("cp", src, dst), ioOk);
      && inv.report == RemovedCopy(dst, IsDir(fs, At(cwd, dst)))
      && inv.fs == fs - {At(cwd, dst)}
      && (At(cwd, src) != At(cwd, dst) ==> At(cwd, src) in fs ==> inv.fs[At(cwd, src)] == fs[At(cwd, src)])
  {
    InvertRecord(fs, cwd, "cp", src, dst, ioOk);
  }

  /** Undoing mv moves the destination back to the source; undoing rm moves the trash item back
      to the original path. */
  lemma UndoMovesBack(fs: FS, cwd: Path, tag: string, back: Path, away: Path)
    requires tag == "mv" || tag == "rm"
    requires '|' !in back && '|' !in away
    requires At(cwd, away) in fs && Move(fs, At(cwd, away), At(cwd, back)).Some?
    ensures var inv := Invert(fs, cwd, Record(tag, back, away), true);
      && inv.fs == Move(fs, At(cwd, away), At(cwd, back)).value
      && inv.report == (if tag == "mv" then MovedBack(away, back) else Restored(back))
  {
    InvertRecord(fs, cwd, tag, back, away, true);
    InvertMoveFields(fs, cwd, tag, back, away);
  }

  lemma InvertMoveFields(fs: FS, cwd: Path, tag: string, back: Path, away: Path)
    requires tag == "mv" || tag == "rm"
    requires At(cwd, away) in fs && Move(fs, At(cwd, away), At(cwd, back)).Some?
    ensures InvertFields(fs, cwd, [tag, back, away], true)
      == Inversion(Move(fs, At(cwd, away), At(cwd, back)).value, if tag == "mv" then MovedBack(away, back) else Restored(back))
  {
  }

  // ---------------------------------------------------------------------------------------
  // a command followed by undo

  lemma NoPipeInTrashName(fs: FS, cwd: Path, target: Path, now: nat)
    requires '|' !in target
    ensures '|' !in TrashName(fs, cwd, target, now)
  {
    var base := Basename(target);
    NoPipeInBasename(target);
    BasenameRelative(target);
    TrashJoin(base);
    var digits := NatToString(now);
    assert '|' !in digits by {
      forall k | 0 <= k < |digits| ensures digits[k] != '|' {
      }
    }
    assert '|' !in TRASH_DIR + "/" + base;
    assert '|' !in TRASH_DIR + "/" + base + "." + digits;
  }

  /** A path without '|' joined with the basename of another has none either. */
  lemma NoPipeInJoinBasename(a: Path, p: Path)
    requires '|' !in a && '|' !in p
    ensures '|' !in Join(a, Basename(p))
  {
    var base := Basename(p);
    NoPipeInBasename(p);
    BasenameRelative(p);
    if a == [] || a[|a| - 1] == '/' {
      assert Join(a, base) == a + base;
    } else {
      assert Join(a, base) == a + "/" + base;
    }
  }

  lemma NoPipeInBasename(p: Path)
    requires '|' !in p
    ensures '|' !in Basename(p)
  {
    var base := Basename(p);
    forall k | 0 <= k < |base| ensures base[k] != '|' {
      assert base[k] == p[|p| - |base| + k];
    }
  }

  /** Undo inverts the newest well-formed record even when plain entries (ones without '|',
      such as "ls" or "cd x") were logged after it: unless the inversion raised, that record
      alone is dropped, the later plain entries stay in place, and the history is saved. */
  lemma UndoBuriedRecord(t: Session, older: seq<string>, tag: string, first: Path, second: Path, newer: seq<string>, ioOk: bool, writeOk: bool)
    requires '|' !in tag && '|' !in first && '|' !in second
    requires forall k :: 0 <= k < |newer| ==> '|' !in newer[k]
    requires t.history == older + [Record(tag, first, second)] + newer
    ensures var inv := InvertFields(t.fs, t.cwd, [tag, first, second], ioOk);
      var u := Session(older + newer, inv.fs, t.cwd);
      Undo(t, ioOk, writeOk)
        == if inv.report.Failed? then UndoResult(t, inv.report) else UndoResult(u.(fs := SaveHistory(u, writeOk)), inv.report)
  {
    var i := |older|;
    InvertRecord(t.fs, t.cwd, tag, first, second, ioOk);
    assert t.history[i] == Record(tag, first, second);
    assert forall k :: i < k < |t.history| ==> t.history[k] == newer[k - i - 1];
    LastRecordIndexIs(t.history, i);
    assert t.history[..i] + t.history[i + 1..] == older + newer by {
      assert t.history[..i] == older;
      assert t.history[i + 1..] == newer;
    }
  }

  /** Undo of a session whose newest entry is a well-formed record: invert that record's fields
      and, unless that raised, drop it and save. */
  lemma UndoNewestRecord(t: Session, older: seq<string>, tag: string, first: Path, second: Path, ioOk: bool, writeOk: bool)
    requires '|' !in tag && '|' !in first && '|' !in second
    requires t.history == older + [Record(tag, first, second)]
    ensures var inv := InvertFields(t.fs, t.cwd, [tag, first, second], ioOk);
      var u := Session(older, inv.fs, t.cwd);
      Undo(t, ioOk, writeOk)
        == if inv.report.Failed? then UndoResult(t, inv.report) else UndoResult(u.(fs := SaveHistory(u, writeOk)), inv.report)
  {
    assert t.history == older + [Record(tag, first, second)] + [];
    UndoBuriedRecord(t, older, tag, first, second, [], ioOk, writeOk);
    assert older + [] == older;
  }

  /** When inverting the newest record gives back the earlier filesystem, undo gives back the
      earlier session, apart from the saved history file. */
  lemma UndoRestoresSession(s: Session, t: Session, tag: string, first: Path, second: Path, report: Report, writeOk: bool)
    requires '|' !in tag && '|' !in first && '|' !in second
    requires t.history == s.history + [Record(tag, first, second)] && t.cwd == s.cwd
    requires InvertFields(t.fs, t.cwd, [tag, first, second], true) == Inversion(s.fs, report)
    requires !report.Failed?
    ensures Undo(t, true, writeOk) == UndoResult(s.(fs := SaveHistory(s, writeOk)), report)
  {
    UndoNewestRecord(t, s.history, tag, first, second, true, writeOk);
    assert Session(s.history, s.fs, t.cwd) == s;
  }

  /** Undo right after a successful soft delete puts the item back where it was and drops the
      record: the session is as before, apart from the saved history file. */
  lemma RmThenUndoRestores(s: Session, target: Path, recursive: bool, answer: string, now: nat, writeOk: bool)
    requires IsAbs(s.cwd) && IsDir(s.fs, Join(s.cwd, TRASH_DIR))
    requires IsAbs(target) && '|' !in target && target in s.fs && !Protected(s.cwd, target)
    requires IsDir(s.fs, target) ==> recursive && Confirmed(answer)
    requires var away := At(s.cwd, Join(TRASH_DIR, Basename(target)));
      away !in s.fs && (IsDir(s.fs, target) ==> !Within(away, target) && !Within(target, away))
    ensures var r := Undo(RemovePath(s, target, recursive, answer, now, true), true, writeOk);
      r.report == Restored(target) && r.session == s.(fs := SaveHistory(s, writeOk))
  {
    RmToFreeTrashName(s, target, recursive, answer, now);
    NoPipeInTrashName(s.fs, s.cwd, target, now);
    UndoFreeTrashMove(s, target, Join(TRASH_DIR, Basename(target)), writeOk);
  }

  /** Undo of the record of an item moved to a free trash name restores the session. */
  lemma UndoFreeTrashMove(s: Session, target: Path, trash: Path, writeOk: bool)
    requires IsAbs(target) && '|' !in target && '|' !in trash
    requires target in s.fs && At(s.cwd, trash) !in s.fs
    requires s.fs[target].Dir? ==> !Within(At(s.cwd, trash), target) && !Within(target, At(s.cwd, trash))
    ensures Move(s.fs, target, At(s.cwd, trash)).Some?
    ensures var t := s.(fs := Move(s.fs, target, At(s.cwd, trash)).value, history := s.history + [Record("rm", target, trash)]);
      Undo(t, true, writeOk) == UndoResult(s.(fs := SaveHistory(s, writeOk)), Restored(target))
  {
    RestoreFromTrash(s.fs, s.cwd, target, trash);
    var t := s.(fs := Move(s.fs, target, At(s.cwd, trash)).value, history := s.history + [Record("rm", target, trash)]);
    UndoRestoresSession(s, t, "rm", target, trash, Restored(target), writeOk);
  }

  /** rm of an absolute target whose trash name is free moves it there and records it. */
  lemma RmToFreeTrashName(s: Session, target: Path, recursive: bool, answer: string, now: nat)
    requires IsAbs(s.cwd) && IsDir(s.fs, Join(s.cwd, TRASH_DIR))
    requires IsAbs(target) && target in s.fs && !Protected(s.cwd, target)
    requires IsDir(s.fs, target) ==> recursive && Confirmed(answer)
    requires var away := At(s.cwd, Join(TRASH_DIR, Basename(target)));
      away !in s.fs && (IsDir(s.fs, target) ==> !Within(away, target))
    ensures var trash := Join(TRASH_DIR, Basename(target));
      && Move(s.fs, target, At(s.cwd, trash)).Some?
      && RemovePath(s, target, recursive, answer, now, true)
         == s.(fs := Move(s.fs, target, At(s.cwd, trash)).value, history := s.history + [Record("rm", target, trash)])
  {
    var trash := Join(TRASH_DIR, Basename(target));
    assert WithTrashDir(s) == s.fs;
    assert TrashName(s.fs, s.cwd, target, now) == trash;
    MoveToFree(s.fs, target, At(s.cwd, trash));
    RmMovesRemovable(s, target, recursive, answer, now, true);
  }

  /** rm of an absolute target whose trash name .trash/<base> is taken while
      .trash/<base>.<now> is free moves it to the suffixed name and records that name. */
  lemma RmToTakenTrashName(s: Session, target: Path, recursive: bool, answer: string, now: nat)
    requires IsAbs(s.cwd) && IsDir(s.fs, Join(s.cwd, TRASH_DIR))
    requires IsAbs(target) && target in s.fs && !Protected(s.cwd, target)
    requires IsDir(s.fs, target) ==> recursive && Confirmed(answer)
    requires var first := TRASH_DIR + "/" + Basename(target);
      var away := At(s.cwd, first + "." + NatToString(now));
      && At(s.cwd, first) in s.fs
      && away !in s.fs && (IsDir(s.fs, target) ==> !Within(away, target))
    ensures var trash := TRASH_DIR + "/" + Basename(target) + "." + NatToString(now);
      && Move(s.fs, target, At(s.cwd, trash)).Some?
      && RemovePath(s, target, recursive, answer, now, true)
         == s.(fs := Move(s.fs, target, At(s.cwd, trash)).value, history := s.history + [Record("rm", target, trash)])
  {
    var trash := TRASH_DIR + "/" + Basename(target) + "." + NatToString(now);
    assert WithTrashDir(s) == s.fs;
    assert TrashName(s.fs, s.cwd, target, now) == trash;
    MoveToFree(s.fs, target, At(s.cwd, trash));
    RmMovesRemovable(s, target, recursive, answer, now, true);
  }

  /** Undoing the rm record of an item moved to a free trash name puts it back. */
  lemma RestoreFromTrash(fs: FS, cwd: Path, target: Path, trash: Path)
    requires IsAbs(target) && target in fs && At(cwd, trash) !in fs
    requires fs[target].Dir? ==> !Within(At(cwd, trash), target) && !Within(target, At(cwd, trash))
    ensures Move(fs, target, At(cwd, trash)).Some?
    ensures InvertFields(Move(fs, target, At(cwd, trash)).value, cwd, ["rm", target, trash], true)
      == Inversion(fs, Restored(target))
  {
    MoveBack(fs, target, At(cwd, trash));
    assert At(cwd, target) == target;
  }

  /** Undo right after a successful move to a free name moves the item back and drops the
      record. */
  lemma MvThenUndoRestores(s: Session, src: Path, dst: Path, writeOk: bool)
    requires IsAbs(src) && IsAbs(dst) && '|' !in src && '|' !in dst
    requires src in s.fs && dst !in s.fs
    requires s.fs[src].Dir? ==> !Within(dst, src) && !Within(src, dst)
    ensures var r := Undo(MovePaths(s, src, dst, true), true, writeOk);
      r.report == MovedBack(dst, src) && r.session == s.(fs := SaveHistory(s, writeOk))
  {
    var r1 := MovePaths(s, src, dst, true);
    MoveBack(s.fs, src, dst);
    var fs1 := Move(s.fs, src, dst).value;
    assert r1 == s.(fs := fs1, history := s.history + [Record("mv", src, dst)]);
    InvertMoveFields(fs1, s.cwd, "mv", src, dst);
    UndoRestoresSession(s, r1, "mv", src, dst, MovedBack(dst, src), writeOk);
  }

  /** Undo right after copying a file to a free name deletes the copy and drops the record; the
      source is untouched. */
  lemma CpThenUndoRemovesCopy(s: Session, src: Path, dst: Path, writeOk: bool)
    requires IsAbs(src) && IsAbs(dst) && '|' !in src && '|' !in dst
    requires src in s.fs && s.fs[src].File? && dst !in s.fs
    ensures var r := Undo(CopyPaths(s, src, dst, false, true), true, writeOk);
      r.report == RemovedCopy(dst, false) && r.session == s.(fs := SaveHistory(s, writeOk))
  {
    var r1 := CopyPaths(s, src, dst, false, true);
    assert CopyDestination(s, src, dst) == dst;
    var fs1 := s.fs[dst := s.fs[src]];
    assert r1 == s.(fs := fs1, history := s.history + [Record("cp", src, dst)]);
    InvertFreshCopy(s.fs, s.cwd, src, dst);
    UndoRestoresSession(s, r1, "cp", src, dst, RemovedCopy(dst, false), writeOk);
  }

  /** Inverting the record of a copy to a free absolute name removes just that copy. */
  lemma InvertFreshCopy(fs: FS, cwd: Path, src: Path, dst: Path)
    requires IsAbs(dst) && src in fs && fs[src].File? && dst !in fs
    ensures InvertFields(fs[dst := fs[src]], cwd, ["cp", src, dst], true) == Inversion(fs, RemovedCopy(dst, false))
  {
    assert At(cwd, dst) == dst;
    assert fs[dst := fs[src]] - {dst} == fs;
  }

  /** cp of a file onto a directory that already holds a directory of the file's name: cp records
      dir/name, but copy2 redirects once more and writes dir/name/name. Undo then deletes the
      recorded path, which is the directory that was there before the cp, contents and all. */
  lemma CpIntoNestedDirectoryUndoDeletesIt(s: Session, src: Path, dir: Path, writeOk: bool)
    requires IsAbs(src) && IsAbs(dir) && '|' !in src && '|' !in dir
    requires src in s.fs && s.fs[src].File? && IsDir(s.fs, dir)
    requires var d := Join(dir, Basename(src));
      IsDir(s.fs, d) && Join(d, Basename(src)) !in s.fs && d != At(s.cwd, HISTORY_FILE)
    ensures var d := Join(dir, Basename(src));
      var copied := CopyPaths(s, src, dir, false, true);
      var r := Undo(copied, true, writeOk);
      && copied.history == s.history + [Record("cp", src, d)]
      && copied.fs == s.fs[Join(d, Basename(src)) := s.fs[src]]
      && r.report == RemovedCopy(d, true)
      && d !in r.session.fs
  {
    var base := Basename(src);
    var d := Join(dir, base);
    BasenameRelative(src);
    assert IsAbs(d) && At(s.cwd, d) == d;
    assert At(s.cwd, src) == src && At(s.cwd, dir) == dir;
    assert CopyDestination(s, src, dir) == d;
    var written := Join(d, base);
    assert IsAbs(written) && At(s.cwd, written) == written;
    assert CopyTarget(s, src, d) == written;
    var copied := CopyPaths(s, src, dir, false, true);
    assert copied == s.(fs := s.fs[written := s.fs[src]], history := s.history + [Record("cp", src, d)]);
    NoPipeInJoinBasename(dir, src);
    UndoNewestRecord(copied, s.history, "cp", src, d, true, writeOk);
  }

  /** mv of a directory to a free path below itself: the record is appended first and then
      shutil.move refuses, so only the record remains; undo finds nothing at the recorded
      destination, says so and drops the record. */
  lemma MvIntoItselfOnlyRecords(s: Session, src: Path, dst: Path, writeOk: bool)
    requires IsAbs(src) && IsAbs(dst) && '|' !in src && '|' !in dst
    requires IsDir(s.fs, src) && dst !in s.fs && Within(dst, src)
    ensures var moved := MovePaths(s, src, dst, true);
      var r := Undo(moved, true, writeOk);
      && moved == s.(history := s.history + [Record("mv", src, dst)])
      && r.report == MoveNotFound(dst)
      && r.session == s.(fs := SaveHistory(s, writeOk))
  {
    assert At(s.cwd, src) == src && At(s.cwd, dst) == dst;
    assert Move(s.fs, src, dst).None?;
    var moved := MovePaths(s, src, dst, true);
    UndoRestoresSession(s, moved, "mv", src, dst, MoveNotFound(dst), writeOk);
  }

  /** mv onto an existing directory puts the item inside it but records the directory itself;
      undo then moves the whole directory, under its own name, to the item's old name. */
  lemma MvIntoDirectoryUndoMovesDirectory(s: Session, src: Path, dir: Path, writeOk: bool)
    requires IsAbs(src) && IsAbs(dir) && '|' !in src && '|' !in dir
    requires src in s.fs && IsDir(s.fs, dir) && src != dir && Join(dir, Basename(src)) !in s.fs
    requires s.fs[src].Dir? ==> !Within(dir, src)
    requires !Within(src, dir)
    requires src != At(s.cwd, HISTORY_FILE) && dir != At(s.cwd, HISTORY_FILE)
    ensures var r := Undo(MovePaths(s, src, dir, true), true, writeOk);
      && r.report == MovedBack(dir, src)
      && dir !in r.session.fs
      && src in r.session.fs && r.session.fs[src] == s.fs[dir]
  {
    var inside := Join(dir, Basename(src));
    var fs1 := Relocate(s.fs, src, inside);
    MvIntoDirectoryMoves(s, src, dir);
    var r1 := MovePaths(s, src, dir, true);
    UndoNewestRecord(r1, s.history, "mv", src, dir, true, writeOk);
    MoveToFree(fs1, dir, src);
    InvertMoveFields(fs1, s.cwd, "mv", src, dir);
  }

  /** mv of a file or directory onto another directory relocates it inside and records the
      directory, unless a directory would go below itself. */
  lemma MvIntoDirectoryMoves(s: Session, src: Path, dir: Path)
    requires IsAbs(src) && IsAbs(dir)
    requires src in s.fs && IsDir(s.fs, dir) && src != dir && Join(dir, Basename(src)) !in s.fs
    requires s.fs[src].Dir? ==> !Within(dir, src)
    ensures MovePaths(s, src, dir, true)
      == s.(fs := Relocate(s.fs, src, Join(dir, Basename(src))), history := s.history + [Record("mv", src, dir)])
  {
    assert At(s.cwd, src) == src && At(s.cwd, dir) == dir;
  }

  /** The ".<seconds>" suffix is tried once only: when both trash names are taken by files, rm
      of a file overwrites the item already in the trash at the suffixed name. */
  lemma RmTrashCollisionOverwrites(s: Session, target: Path, now: nat, ioOk: bool)
    requires IsAbs(s.cwd) && IsDir(s.fs, Join(s.cwd, TRASH_DIR))
    requires IsAbs(target) && target in s.fs && s.fs[target].File? && !Protected(s.cwd, target)
    requires var first := Join(TRASH_DIR, Basename(target));
      At(s.cwd, first) in s.fs
      && var second := At(s.cwd, first + "." + NatToString(now));
      second in s.fs && s.fs[second].File? && second != target
    requires ioOk
    ensures var r := RemovePath(s, target, false, "", now, ioOk);
      var second := At(s.cwd, Join(TRASH_DIR, Basename(target)) + "." + NatToString(now));
      second in r.fs && r.fs[second] == s.fs[target] && target !in r.fs && |r.history| == |s.history| + 1
  {
    var name := Join(TRASH_DIR, Basename(target)) + "." + NatToString(now);
    var second := At(s.cwd, name);
    assert WithTrashDir(s) == s.fs;
    assert TrashName(s.fs, s.cwd, target, now) == name;
    MoveOntoFile(s.fs, target, second);
    var fs1 := (s.fs - {target})[second := s.fs[target]];
    assert RemovePath(s, target, false, "", now, ioOk) == s.(fs := fs1, history := s.history + [Record("rm", target, name)]);
  }

  /** A cp record splits into at least three fields headed by "cp", whatever its paths hold. */
  lemma CopyRecordFields(first: Path, second: Path)
    ensures var parts := SplitOn(Record("cp", first, second), '|');
      |parts| >= 3 && parts[0] == "cp"
  {
    var r := Record("cp", first, second);
    var rest := first + "|" + second;
    assert r == "cp|" + rest;
    assert IndexOf(r, '|') == 2 by {
      assert r[0] == 'c' && r[1] == 'p' && r[2] == '|';
    }
    assert r[..2] == "cp";
    assert r[3..] == rest;
    assert rest[|first|] == '|';
  }

  /** With working I/O, undo of a session whose newest entry is a cp record pops exactly that
      record, even when a path in it contains '|'. */
  lemma UndoNewestCopyRecord(t: Session, older: seq<string>, first: Path, second: Path, writeOk: bool)
    requires t.history == older + [Record("cp", first, second)]
    ensures Undo(t, true, writeOk).session.history == older
    ensures Undo(t, true, writeOk).report.RemovedCopy? || Undo(t, true, writeOk).report.CopyNotFound?
  {
    var entry := Record("cp", first, second);
    CopyRecordFields(first, second);
    assert '|' in entry by { assert entry[2] == '|'; }
    assert LastRecordIndex(t.history) == Some(|older|);
    assert t.history[..|older|] + t.history[|older| + 1..] == older;
  }
}


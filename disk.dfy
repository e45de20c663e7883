/** The filesystem as the shell sees it: a map from paths to items. A directory is one opaque
    value under its own path; paths below it are separate keys that do not follow it when it is
    copied, moved or deleted. The primitives follow shutil and os: copy2/copytree, move, remove/rmtree, makedirs. */
module Disk {
  import opened Wrappers
  import opened Paths

  datatype Node = File(content: string) | Dir(subtree: string)

  type FS = map<Path, Node>

  predicate IsDir(fs: FS, p: Path) {
    p in fs && fs[p].Dir?
  }

  /** Where shutil.move(src, dst) puts the item: inside dst when dst is another directory. */
  function MoveTarget(fs: FS, src: Path, dst: Path): Path {
    if IsDir(fs, dst) && dst != src then Join(dst, Basename(src)) else dst
  }

  /** The ways shutil.move raises for an existing source: an item of that name already inside
      the target directory, a directory over something that is not a directory, and a directory
      into itself or below itself (the rename fails and _destinsrc holds). */
  predicate MoveRefused(fs: FS, src: Path, dst: Path)
    requires src in fs
  {
    || (IsDir(fs, dst) && dst != src && Join(dst, Basename(src)) in fs)
    || (fs[src].Dir? && dst in fs && !IsDir(fs, dst))
    || (fs[src].Dir? && dst != src && Within(dst, src))
  }

  /** shutil.move(src, dst): None when it raises; otherwise the item is gone from src and sits
      at the target, and no other path changes. Moving an item onto itself changes nothing. */
  function Move(fs: FS, src: Path, dst: Path): (r: Option<FS>)
    ensures r.Some? <==> src in fs && !MoveRefused(fs, src, dst)
    ensures r.Some? ==> MoveTarget(fs, src, dst) in r.value && r.value[MoveTarget(fs, src, dst)] == fs[src]
    ensures r.Some? && src != MoveTarget(fs, src, dst) ==> src !in r.value
    ensures r.Some? ==> Unchanged(fs, r.value, src, MoveTarget(fs, src, dst))
    ensures src in fs && dst == src ==> r == Some(fs)
  {
    if src !in fs || MoveRefused(fs, src, dst) then None
    else Some(Relocate(fs, src, MoveTarget(fs, src, dst)))
  }

  /** The item at src taken away and put at t, over whatever was there. */
  function Relocate(fs: FS, src: Path, t: Path): (r: FS)
    requires src in fs
    ensures t in r && r[t] == fs[src]
    ensures src != t ==> src !in r
    ensures Unchanged(fs, r, src, t)
    ensures src == t ==> r == fs
  {
    (fs - {src})[t := fs[src]]
  }

  /** Every path other than a and b is present in after exactly when in before, with the same item. */
  ghost predicate Unchanged(before: FS, after: FS, a: Path, b: Path) {
    forall p :: p != a && p != b ==> (p in after <==> p in before) && (p in before ==> after[p] == before[p])
  }

  /** Moving an item and moving it back restores the filesystem, when the target was free and,
      for a directory, neither path lies below the other. */
  lemma MoveBack(fs: FS, src: Path, dst: Path)
    requires src in fs && dst !in fs && src != dst
    requires fs[src].Dir? ==> !Within(dst, src) && !Within(src, dst)
    ensures Move(fs, src, dst).Some?
    ensures Move(Move(fs, src, dst).value, dst, src) == Some(fs)
  {
    var fs1 := Move(fs, src, dst).value;
    assert MoveTarget(fs, src, dst) == dst;
    assert MoveTarget(fs1, dst, src) == src;
    assert (fs1 - {dst})[src := fs1[dst]] == fs;
  }

  /** shutil.move to a free name relocates the item there, unless a directory would go below
      itself. */
  lemma MoveToFree(fs: FS, src: Path, dst: Path)
    requires src in fs && dst !in fs
    requires fs[src].Dir? ==> !Within(dst, src)
    ensures Move(fs, src, dst) == Some(Relocate(fs, src, dst))
  {
  }

  /** shutil.move onto an existing file replaces it. */
  lemma MoveOntoFile(fs: FS, src: Path, dst: Path)
    requires src in fs && fs[src].File? && dst in fs && fs[dst].File? && src != dst
    ensures Move(fs, src, dst) == Some((fs - {src})[dst := fs[src]])
  {
  }
}

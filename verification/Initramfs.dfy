/** The recursive delete that frees the RAM of the initramfs behind the switch to the real root. */
module Initramfs {
  import opened Common

  type Path = seq<string>

  datatype Meta = Meta(dev: nat, isDir: bool)

  type Tree = map<Path, Meta>

  ghost predicate Under(dir: Path, q: Path) {
    |dir| < |q| && q[..|dir|] == dir
  }

  ghost predicate IsChild(dir: Path, q: Path) {
    |q| == |dir| + 1 && q[..|dir|] == dir
  }

  /** q is the entry e or below it. */
  ghost predicate Within(e: Path, q: Path) {
    |e| <= |q| && q[..|e|] == e
  }

  /** Everything sits in a directory. */
  ghost predicate WellFormed(t: Tree) {
    forall q :: q in t && q != [] ==> q[..|q| - 1] in t && t[q[..|q| - 1]].isDir
  }

  /** On the way from dir down to q, q included, every node is on the device. */
  ghost predicate Reached(t: Tree, dir: Path, dev: nat, q: Path) {
    Under(dir, q) && forall k :: |dir| < k <= |q| ==> q[..k] in t && t[q[..k]].dev == dev
  }

  /** On the way from dir down to q, q included, the walk lost something. */
  ghost predicate Behind(lost: set<Path>, dir: Path, q: Path) {
    exists k :: |dir| < k <= |q| && q[..k] in lost
  }

  ghost function Children(t: Tree, dir: Path): set<Path> {
    set q | q in t && |q| == |dir| + 1 && q[..|dir|] == dir
  }

  class DeleteCount {
    var deleted: nat
    var failed: nat

    constructor ()
      ensures deleted == 0 && failed == 0
    {
      deleted, failed := 0, 0;
    }
  }

  class Fs {
    var nodes: Tree
    // The nodes whose removal was attempted.
    ghost var tried: set<Path>
    // Directories that could not be read and entries without metadata.
    ghost var unread: nat
    // Attempts to list what is no directory.
    ghost var misread: nat
    // The nodes that the walk lost by that: what was not listed, and what had no metadata.
    ghost var lost: set<Path>
    // The nodes whose removal failed although they were files or empty directories.
    ghost var refused: set<Path>

    /** The entries may be listed in any order, and some may be lost to errors. */
    method ReadDir(dir: Path) returns (r: Option<set<Path>>)
      modifies this`unread, this`misread, this`lost
      ensures misread == old(misread) + if dir in nodes && nodes[dir].isDir then 0 else 1
      ensures unread == old(unread) + if r.Some? then 0 else 1
      ensures lost == old(lost) + (Children(nodes, dir) - if r.Some? then r.value else {})
      ensures r.Some? ==> r.value <= Children(nodes, dir) && dir in nodes && nodes[dir].isDir
    {
      var fails: bool := *;
      misread := misread + if dir in nodes && nodes[dir].isDir then 0 else 1;
      if fails || dir !in nodes || !nodes[dir].isDir {
        unread, lost := unread + 1, lost + Children(nodes, dir);
        return None;
      }
      var all := set q | q in nodes && |q| == |dir| + 1 && q[..|dir|] == dir;
      var listed: set<Path> := *;
      listed := listed * all;
      lost := lost + (all - listed);
      r := Some(listed);
    }

    method SymlinkMetadata(p: Path) returns (r: Option<Meta>)
      modifies this`unread, this`lost
      ensures unread == old(unread) + if r.Some? then 0 else 1
      ensures lost == old(lost) + if r.Some? then {} else {p}
      ensures r.Some? ==> p in nodes && nodes[p] == r.value
    {
      var fails: bool := *;
      if fails || p !in nodes {
        unread, lost := unread + 1, lost + {p};
        return None;
      }
      r := Some(nodes[p]);
    }

    /** unlink(2) or rmdir(2); a directory with an entry stays. */
    method Remove(p: Path) returns (ok: bool)
      requires p in nodes
      modifies this`nodes, this`tried, this`refused
      ensures tried == old(tried) + {p}
      ensures nodes == if ok then old(nodes) - {p} else old(nodes)
      ensures ok ==> forall q :: q in old(nodes) ==> !IsChild(p, q)
      ensures old(refused) <= refused
      ensures !ok ==> p in refused || exists q :: q in nodes && IsChild(p, q)
      ensures p in refused && p !in old(refused) ==> !ok && forall q :: q in nodes ==> !IsChild(p, q)
      ensures forall q :: q in refused && q != p ==> q in old(refused)
    {
      tried := tried + {p};
      if q :| q in nodes && |q| == |p| + 1 && q[..|p|] == p {
        assert IsChild(p, q);
        return false;
      }
      ok := *;
      if !ok {
        refused := refused + {p};
        return;
      }
      nodes := nodes - {p};
    }
  }

  // ---- what one entry of a directory has to do with the directory ----

  lemma ReachedBelow(t: Tree, dir: Path, e: Path, dev: nat, q: Path)
    requires IsChild(dir, e) && e in t && t[e].dev == dev && Under(e, q)
    ensures Reached(t, e, dev, q) <==> Reached(t, dir, dev, q)
  {
    assert q[..|e|][..|dir|] == q[..|dir|];
    assert q[..|e|] == e;
  }

  /** Two trees that agree on an entry agree on what is reached there. */
  lemma EntryDecides(t: Tree, t': Tree, dir: Path, e: Path, dev: nat, q: Path)
    requires IsChild(dir, e) && Within(e, q)
    requires forall r :: Within(e, r) ==> (r in t <==> r in t') && (r in t ==> t[r] == t'[r])
    ensures Reached(t, dir, dev, q) <==> Reached(t', dir, dev, q)
  {
    assert q[..|e|][..|dir|] == q[..|dir|];
    forall k | |dir| < k <= |q|
      ensures Within(e, q[..k])
    {
      assert q[..k][..|e|] == q[..|e|];
    }
  }

  /** With a node, its ancestors are there. */
  lemma {:induction false} AncestorsStay(t: Tree, p: Path, k: nat)
    requires WellFormed(t) && p in t && k <= |p|
    ensures p[..k] in t && (k < |p| ==> t[p[..k]].isDir)
    decreases |p| - k
  {
    if k == |p| {
      assert p[..k] == p;
    } else {
      AncestorsStay(t, p, k + 1);
      assert p[..k + 1][..k] == p[..k];
    }
  }

  /** Only what is reached from dir is gone. */
  ghost predicate Pruned(t: Tree, t': Tree, dir: Path, dev: nat) {
    && (forall q :: q in t' ==> q in t && t'[q] == t[q])
    && (forall q :: q in t && q !in t' ==> Reached(t, dir, dev, q))
  }

  /** q is still there only if its removal was refused, or something in it is still there. */
  ghost predicate StaysForAReason(t': Tree, refused: set<Path>, q: Path) {
    q in refused || exists r :: r in t' && IsChild(q, r)
  }

  /**
   A delete below dir that took the tree t to t', whatever failed: what the walk did not lose was tried, and what was
   tried stays only for a reason of its own.
   */
  ghost predicate ContentsDone(t: Tree, t': Tree, tried: set<Path>, tried': set<Path>, lost: set<Path>,
                               refused: set<Path>, dir: Path, dev: nat) {
    && WellFormed(t') && Pruned(t, t', dir, dev)
    && tried <= tried' && (forall q :: q in tried' && q !in tried ==> Reached(t, dir, dev, q))
    && (forall q :: q in t && q !in t' ==> q in tried')
    && (forall q :: Reached(t, dir, dev, q) && !Behind(lost, dir, q) ==> q in tried')
    && (forall q :: q in tried' && q !in tried && q in t' ==> StaysForAReason(t', refused, q))
  }

  /** The same for one entry e of dir. */
  ghost predicate EntryDone(t: Tree, t': Tree, tried: set<Path>, tried': set<Path>, lost: set<Path>,
                            refused: set<Path>, dir: Path, e: Path, dev: nat) {
    && WellFormed(t') && Pruned(t, t', dir, dev)
    && (forall q :: q in t && q !in t' ==> Within(e, q) && q in tried')
    && tried <= tried' && (forall q :: q in tried' && q !in tried ==> Within(e, q) && Reached(t, dir, dev, q))
    && (forall q :: Within(e, q) && Reached(t, dir, dev, q) && !Behind(lost, dir, q) ==> q in tried')
    && (forall q :: q in tried' && q !in tried && q in t' ==> StaysForAReason(t', refused, q))
  }

  lemma NothingBelowAFile(t: Tree, e: Path, tried: set<Path>, lost: set<Path>, refused: set<Path>, dev: nat)
    requires WellFormed(t) && e in t && !t[e].isDir
    ensures ContentsDone(t, t, tried, tried, lost, refused, e, dev)
  {
    forall q | Under(e, q)
      ensures q !in t && !Reached(t, e, dev, q)
    {
      if q in t {
        AncestorsStay(t, q, |e|);
      }
      assert q[..|q|] == q;
    }
  }

  /** A node with something below it has a child. */
  lemma SomethingBelowMeansAChild(t: Tree, e: Path, r: Path)
    requires WellFormed(t) && r in t && Under(e, r)
    ensures exists q :: q in t && IsChild(e, q)
  {
    AncestorsStay(t, r, |e| + 1);
    assert r[..|e| + 1][..|e|] == e;
    assert IsChild(e, r[..|e| + 1]);
  }

  /** Below e all is done; then e itself is removed, or stays because of what is left below it. */
  lemma ThenTheEntry(t: Tree, t1: Tree, t2: Tree, tried: set<Path>, tried1: set<Path>, lost: set<Path>,
                     refused1: set<Path>, refused2: set<Path>, dir: Path, e: Path, dev: nat, ok: bool)
    requires WellFormed(t) && IsChild(dir, e) && e in t && t[e].dev == dev
    requires ContentsDone(t, t1, tried, tried1, lost, refused1, e, dev) && refused1 <= refused2
    requires t2 == if ok then t1 - {e} else t1
    requires ok ==> forall q :: q in t1 ==> !IsChild(e, q)
    requires !ok ==> StaysForAReason(t1, refused2, e)
    ensures EntryDone(t, t2, tried, tried1 + {e}, lost, refused2, dir, e, dev)
  {
    hide Reached, WellFormed, Behind;
    EntryIsReached(t, dir, e, dev);
    forall q
      ensures Under(e, q) ==> (Reached(t, e, dev, q) <==> Reached(t, dir, dev, q))
      ensures Under(e, q) ==> (Behind(lost, e, q) ==> Behind(lost, dir, q))
      ensures Reached(t, e, dev, q) ==> Under(e, q)
      ensures Within(e, q) <==> q == e || Under(e, q)
    {
      EntryAndBelow(t, lost, dir, e, dev, q);
    }
    if ok {
      RemovalKeepsTheTree(t1, e);
    }
    hide StaysForAReason;
    if !ok {
      assert t1 == t2;
    }
    forall q | q in tried1 && q !in tried && q in t2
      ensures StaysForAReason(t2, refused2, q)
    {
      StillForAReason(t1, t2, refused1, refused2, e, q);
    }
  }

  lemma StillForAReason(t1: Tree, t2: Tree, refused1: set<Path>, refused2: set<Path>, e: Path, q: Path)
    requires StaysForAReason(t1, refused1, q) && refused1 <= refused2 && Under(e, q)
    requires forall r :: r in t1 && r != e ==> r in t2
    ensures StaysForAReason(t2, refused2, q)
  {
  }

  lemma EntryIsReached(t: Tree, dir: Path, e: Path, dev: nat)
    requires IsChild(dir, e) && e in t && t[e].dev == dev
    ensures Reached(t, dir, dev, e)
  {
    assert e[..|e|] == e;
  }

  lemma EntryAndBelow(t: Tree, lost: set<Path>, dir: Path, e: Path, dev: nat, q: Path)
    requires IsChild(dir, e) && e in t && t[e].dev == dev
    ensures Under(e, q) ==> (Reached(t, e, dev, q) <==> Reached(t, dir, dev, q))
    ensures Under(e, q) ==> (Behind(lost, e, q) ==> Behind(lost, dir, q))
    ensures Reached(t, e, dev, q) ==> Under(e, q)
    ensures Within(e, q) <==> q == e || Under(e, q)
  {
    if Under(e, q) {
      ReachedBelow(t, dir, e, dev, q);
    }
    assert e[..|e|] == e && q[..|q|] == q;
  }

  lemma RemovalKeepsTheTree(t: Tree, e: Path)
    requires WellFormed(t) && forall q :: q in t ==> !IsChild(e, q)
    ensures WellFormed(t - {e})
  {
    forall q | q in t && q != []
      ensures q[..|q| - 1] != e
    {
      assert !IsChild(e, q);
    }
  }

  /** The entry of dir that q belongs to. */
  ghost function Entry(dir: Path, q: Path): Path {
    if |dir| < |q| then q[..|dir| + 1] else q
  }

  /** A delete below dir with some of its entries behind it. */
  ghost predicate Underway(t: Tree, t': Tree, tried: set<Path>, tried': set<Path>, lost: set<Path>,
                           refused: set<Path>, dir: Path, dev: nat, done: set<Path>) {
    && WellFormed(t') && Pruned(t, t', dir, dev)
    && (forall q :: q in t && q !in t' ==> Entry(dir, q) in done && q in tried')
    && tried <= tried' && (forall q :: q in tried' && q !in tried ==> Reached(t, dir, dev, q) && Entry(dir, q) in done)
    && (forall q :: Reached(t, dir, dev, q) && Entry(dir, q) in done && !Behind(lost, dir, q) ==> q in tried')
    && (forall q :: q in tried' && q !in tried && q in t' ==> StaysForAReason(t', refused, q))
  }

  lemma EntryOf(dir: Path, e: Path, q: Path)
    requires IsChild(dir, e)
    ensures Within(e, q) <==> Entry(dir, q) == e
    ensures Entry(dir, e) == e
  {
    assert e[..|e|] == e && q[..|q|] == q;
  }

  lemma OneMoreEntry(t: Tree, t1: Tree, t2: Tree, tried: set<Path>, tried1: set<Path>, tried2: set<Path>,
                     lost1: set<Path>, lost2: set<Path>, refused1: set<Path>, refused2: set<Path>,
                     dir: Path, e: Path, dev: nat, done: set<Path>)
    requires Underway(t, t1, tried, tried1, lost1, refused1, dir, dev, done)
    requires IsChild(dir, e) && e !in done && lost1 <= lost2 && refused1 <= refused2
    requires EntryDone(t1, t2, tried1, tried2, lost2, refused2, dir, e, dev)
    ensures Underway(t, t2, tried, tried2, lost2, refused2, dir, dev, done + {e})
  {
    hide Reached, WellFormed, Within, Entry, IsChild, Behind;
    forall q
      ensures Within(e, q) <==> Entry(dir, q) == e
      ensures Behind(lost1, dir, q) ==> Behind(lost2, dir, q)
    {
      EntryOf(dir, e, q);
      MoreIsLost(lost1, lost2, dir, q);
    }
    forall q | Within(e, q)
      ensures Reached(t, dir, dev, q) <==> Reached(t1, dir, dev, q)
    {
      EntryDecides(t, t1, dir, e, dev, q);
    }
    forall q | q in tried1 && q !in tried && q in t2
      ensures StaysForAReason(t2, refused2, q)
    {
      assert StaysForAReason(t1, refused1, q);
      if r :| r in t1 && IsChild(q, r) {
        ReachedIsBelow(t, dir, dev, q);
        SameEntry(dir, q, r);
      }
    }
  }

  lemma MoreIsLost(lost: set<Path>, lost': set<Path>, dir: Path, q: Path)
    requires lost <= lost'
    ensures Behind(lost, dir, q) ==> Behind(lost', dir, q)
  {
  }

  lemma ReachedIsBelow(t: Tree, dir: Path, dev: nat, q: Path)
    requires Reached(t, dir, dev, q)
    ensures |dir| < |q| && q in t
  {
    assert q[..|q|] == q;
  }

  lemma SameEntry(dir: Path, q: Path, r: Path)
    requires |dir| < |q| && IsChild(q, r)
    ensures Entry(dir, r) == Entry(dir, q)
  {
    assert r[..|q|][..|dir| + 1] == r[..|dir| + 1];
  }

  lemma AllEntries(t: Tree, t': Tree, tried: set<Path>, tried': set<Path>, lost: set<Path>, refused: set<Path>,
                   dir: Path, dev: nat, done: set<Path>)
    requires Underway(t, t', tried, tried', lost, refused, dir, dev, done)
    requires forall q :: q in Children(t, dir) ==> q in done || q in lost
    ensures ContentsDone(t, t', tried, tried', lost, refused, dir, dev)
  {
    hide WellFormed, StaysForAReason;
    forall q | Reached(t, dir, dev, q) && !Behind(lost, dir, q)
      ensures Entry(dir, q) in done
    {
      assert q[..|dir| + 1][..|dir|] == q[..|dir|];
      assert q[..|dir| + 1] in Children(t, dir);
    }
    hide Reached, Behind;
  }

  ghost predicate NoLongerThan(t: Tree, depth: nat) {
    forall q :: q in t ==> |q| <= depth
  }

  /** The nodes there were: those left and those counted as deleted. */
  ghost function Total(t: Tree, deleted: nat): nat {
    |t| + deleted
  }

  /** What was counted beyond the attempted removals, the unreadable directories and the entries without metadata. */
  ghost function Uncounted(tried: set<Path>, unread: nat, deleted: nat, failed: nat): int {
    deleted + failed - |tried| - unread
  }

  lemma RemovalIsCounted(t: Tree, tried: set<Path>, e: Path, unread: nat, deleted: nat, failed: nat)
    requires e in t && e !in tried
    ensures Total(t - {e}, deleted + 1) == Total(t, deleted)
    ensures Uncounted(tried + {e}, unread, deleted + 1, failed) == Uncounted(tried, unread, deleted, failed)
    ensures Uncounted(tried + {e}, unread, deleted, failed + 1) == Uncounted(tried, unread, deleted, failed)
  {
    assert (t - {e}).Keys == t.Keys - {e};
    assert |t| == |t.Keys| && |t - {e}| == |(t - {e}).Keys|;
  }

  lemma FailureIsCounted(tried: set<Path>, unread: nat, deleted: nat, failed: nat)
    ensures Uncounted(tried, unread + 1, deleted, failed + 1) == Uncounted(tried, unread, deleted, failed)
  {
  }

  /** One entry of dir and what is below it. */
  method DeleteEntry(fs: Fs, dir: Path, e: Path, dev: nat, count: DeleteCount, ghost depth: nat)
    requires IsChild(dir, e) && e in fs.nodes
    requires WellFormed(fs.nodes) && NoLongerThan(fs.nodes, depth)
    requires forall q :: Within(e, q) ==> q !in fs.tried
    modifies fs, count
    ensures fs.misread == old(fs.misread)
    ensures old(fs.lost) <= fs.lost && old(fs.refused) <= fs.refused
    ensures EntryDone(old(fs.nodes), fs.nodes, old(fs.tried), fs.tried, fs.lost, fs.refused, dir, e, dev)
    ensures Total(fs.nodes, count.deleted) == old(Total(fs.nodes, count.deleted))
    ensures Uncounted(fs.tried, fs.unread, count.deleted, count.failed)
             == old(Uncounted(fs.tried, fs.unread, count.deleted, count.failed))
    decreases depth - |dir|, 0
  {
    hide Reached, WellFormed, ContentsDone, EntryDone, Within, IsChild, Total, Uncounted;
    EntryOf(dir, e, e);
    WithinItself(dir, e);
    ghost var t, tried := fs.nodes, fs.tried;
    var meta := fs.SymlinkMetadata(e);
    if meta.None? {
      count.failed := count.failed + 1;
      FailureIsCounted(tried, old(fs.unread), count.deleted, old(count.failed));
      NothingDone(t, tried, fs.lost, fs.refused, dir, e, dev);
      return;
    }
    if meta.value.dev != dev {
      NothingDone(t, tried, fs.lost, fs.refused, dir, e, dev);
      return;
    }
    if meta.value.isDir {
      DeleteContents(fs, e, dev, count, depth);
    } else {
      NothingBelowAFile(t, e, tried, fs.lost, fs.refused, dev);
    }
    ghost var t1, tried1, refused1 := fs.nodes, fs.tried, fs.refused;
    StillThere(t, t1, tried, tried1, fs.lost, refused1, dir, e, dev);
    RemovalIsCounted(t1, tried1, e, fs.unread, count.deleted, count.failed);
    var ok := fs.Remove(e);
    ThenTheEntry(t, t1, fs.nodes, tried, tried1, fs.lost, refused1, fs.refused, dir, e, dev, ok);
    if ok {
      count.deleted := count.deleted + 1;
    } else {
      count.failed := count.failed + 1;
    }
  }

  /** Everything below dir on the device `dev`, as far as it can be removed. */
  method DeleteContents(fs: Fs, dir: Path, dev: nat, count: DeleteCount, ghost depth: nat)
    requires WellFormed(fs.nodes) && NoLongerThan(fs.nodes, depth)
    requires forall q :: Under(dir, q) ==> q !in fs.tried
    modifies fs, count
    ensures dir in old(fs.nodes) && old(fs.nodes)[dir].isDir ==> fs.misread == old(fs.misread)
    ensures old(fs.lost) <= fs.lost && old(fs.refused) <= fs.refused
    ensures ContentsDone(old(fs.nodes), fs.nodes, old(fs.tried), fs.tried, fs.lost, fs.refused, dir, dev)
    ensures Total(fs.nodes, count.deleted) == old(Total(fs.nodes, count.deleted))
    ensures Uncounted(fs.tried, fs.unread, count.deleted, count.failed)
             == old(Uncounted(fs.tried, fs.unread, count.deleted, count.failed))
    decreases depth - |dir|, 1
  {
    hide Reached, WellFormed, Within, Entry, IsChild, EntryDone, ContentsDone, Underway, NoLongerThan, Total,
         Uncounted, Children;
    ghost var t, tried := fs.nodes, fs.tried;
    var listed := fs.ReadDir(dir);
    StillAtTheStart(t, tried, fs.lost, fs.refused, dir, dev);
    if listed.None? {
      count.failed := count.failed + 1;
      FailureIsCounted(tried, old(fs.unread), count.deleted, old(count.failed));
      AllEntries(t, t, tried, tried, fs.lost, fs.refused, dir, dev, {});
      return;
    }
    ghost var unlisted := Children(t, dir) - listed.value;
    ghost var done: set<Path> := {};
    var todo := listed.value;
    while todo != {}
      invariant done + todo == listed.value && done !! todo && unlisted <= fs.lost
      invariant dir in t && t[dir].isDir ==> fs.misread == old(fs.misread)
      invariant old(fs.lost) <= fs.lost && old(fs.refused) <= fs.refused
      invariant Underway(t, fs.nodes, tried, fs.tried, fs.lost, fs.refused, dir, dev, done)
      invariant Total(fs.nodes, count.deleted) == old(Total(fs.nodes, count.deleted))
      invariant Uncounted(fs.tried, fs.unread, count.deleted, count.failed)
             == old(Uncounted(fs.tried, fs.unread, count.deleted, count.failed))
      decreases todo
    {
      var e :| e in todo;
      todo := todo - {e};
      ghost var t1, tried1, lost1, refused1 := fs.nodes, fs.tried, fs.lost, fs.refused;
      ChildIsChild(t, dir, e);
      UntouchedYet(t, t1, tried, tried1, lost1, refused1, dir, e, dev, done, depth);
      DeleteEntry(fs, dir, e, dev, count, depth);
      OneMoreEntry(t, t1, fs.nodes, tried, tried1, fs.tried, lost1, fs.lost, refused1, fs.refused, dir, e, dev, done);
      done := done + {e};
    }
    assert done == listed.value;
    AllEntries(t, fs.nodes, tried, fs.tried, fs.lost, fs.refused, dir, dev, done);
  }

  lemma ChildIsChild(t: Tree, dir: Path, e: Path)
    requires e in Children(t, dir)
    ensures IsChild(dir, e) && e in t
  {
  }

  lemma WithinItself(dir: Path, e: Path)
    requires IsChild(dir, e)
    ensures |e| == |dir| + 1
    ensures Within(e, e) && forall q :: Under(e, q) ==> Within(e, q)
  {
    assert e[..|e|] == e;
  }

  /** An entry on another device, or one without metadata, is left as it is. */
  lemma NothingDone(t: Tree, tried: set<Path>, lost: set<Path>, refused: set<Path>, dir: Path, e: Path, dev: nat)
    requires WellFormed(t) && IsChild(dir, e) && e in t && (t[e].dev != dev || e in lost)
    ensures EntryDone(t, t, tried, tried, lost, refused, dir, e, dev)
  {
    forall q | Within(e, q)
      ensures !Reached(t, dir, dev, q) || Behind(lost, dir, q)
    {
      assert q[..|e|] == e;
    }
  }

  /** What is done below a directory leaves the directory. */
  lemma StillThere(t: Tree, t1: Tree, tried: set<Path>, tried1: set<Path>, lost: set<Path>, refused: set<Path>,
                   dir: Path, e: Path, dev: nat)
    requires IsChild(dir, e) && e in t && e !in tried && ContentsDone(t, t1, tried, tried1, lost, refused, e, dev)
    ensures e in t1 && e !in tried1
  {
  }

  lemma StillAtTheStart(t: Tree, tried: set<Path>, lost: set<Path>, refused: set<Path>, dir: Path, dev: nat)
    requires WellFormed(t)
    ensures Underway(t, t, tried, tried, lost, refused, dir, dev, {})
  {
    hide Entry, Reached;
  }

  /** The next entry is as it was at the start. */
  lemma UntouchedYet(t: Tree, t1: Tree, tried: set<Path>, tried1: set<Path>, lost: set<Path>, refused: set<Path>,
                     dir: Path, e: Path, dev: nat, done: set<Path>, depth: nat)
    requires Underway(t, t1, tried, tried1, lost, refused, dir, dev, done)
    requires IsChild(dir, e) && e in t && e !in done && NoLongerThan(t, depth)
    requires forall q :: Under(dir, q) ==> q !in tried
    ensures e in t1 && (forall q :: Within(e, q) ==> q !in tried1) && WellFormed(t1) && NoLongerThan(t1, depth)
  {
    hide Reached, WellFormed, Entry, StaysForAReason;
    EntryOf(dir, e, e);
    forall q | Within(e, q)
      ensures q !in tried1
    {
      EntryOf(dir, e, q);
      assert q[..|e|][..|dir|] == q[..|dir|];
    }
  }

  /** q or a directory on the way to it is on another device. */
  ghost predicate OffDevice(t: Tree, dir: Path, dev: nat, q: Path) {
    exists k :: |dir| < k <= |q| && q[..k] in t && t[q[..k]].dev != dev
  }

  lemma OffDeviceIsNotReached(t: Tree, dir: Path, dev: nat, q: Path)
    requires WellFormed(t) && q in t && Under(dir, q)
    ensures Reached(t, dir, dev, q) <==> !OffDevice(t, dir, dev, q)
  {
    forall k | |dir| < k <= |q|
      ensures q[..k] in t
    {
      AncestorsStay(t, q, k);
    }
  }

  lemma LongestPath(t: Tree) returns (depth: nat)
    ensures NoLongerThan(t, depth)
    decreases |t.Keys|
  {
    if t.Keys == {} {
      depth := 0;
    } else {
      var q :| q in t.Keys;
      assert (t - {q}).Keys == t.Keys - {q};
      depth := LongestPath(t - {q});
      assert forall r :: r in t && r != q ==> r in t - {q};
      depth := Max(depth, |q|);
    }
  }

  /**
   Nothing on another device goes, nor anything below it, and the counters are right whatever fails. What the walk did
   not lose was tried, and what was tried stays only if it was refused or has something in it. Without faults just what
   is on another device is left, with the directories on the way to it.
   */
  method FreeInitramfs(fs: Fs, dir: Path, dev: nat) returns (count: DeleteCount)
    requires WellFormed(fs.nodes) && fs.tried == fs.lost == fs.refused == {}
    modifies fs
    ensures forall q :: q in fs.nodes ==> q in old(fs.nodes) && fs.nodes[q] == old(fs.nodes)[q]
    ensures forall q :: q in old(fs.nodes) && (!Under(dir, q) || OffDevice(old(fs.nodes), dir, dev, q)) ==>
              q in fs.nodes
    ensures dir in old(fs.nodes) && old(fs.nodes)[dir].isDir ==> fs.misread == old(fs.misread)
    ensures count.deleted == |old(fs.nodes)| - |fs.nodes|
    ensures count.deleted + count.failed == |fs.tried| + (fs.unread - old(fs.unread))
    ensures forall q :: q in fs.tried ==>
              q in old(fs.nodes) && Under(dir, q) && !OffDevice(old(fs.nodes), dir, dev, q)
    ensures forall q :: q in old(fs.nodes) && Under(dir, q) && !OffDevice(old(fs.nodes), dir, dev, q) ==>
              q in fs.tried || Behind(fs.lost, dir, q)
    ensures forall q :: q in fs.tried && q in fs.nodes ==> StaysForAReason(fs.nodes, fs.refused, q)
    ensures fs.lost == fs.refused == {} ==>
              forall q :: q in old(fs.nodes) && Under(dir, q) ==>
                (q in fs.nodes <==>
                 exists r :: r in old(fs.nodes) && Within(q, r) && OffDevice(old(fs.nodes), dir, dev, r))
  {
    count := new DeleteCount();
    ghost var depth := LongestPath(fs.nodes);
    DeleteContents(fs, dir, dev, count, depth);
    WhatIsLeft(old(fs.nodes), fs.nodes, fs.tried, fs.lost, fs.refused, dir, dev, depth);
  }

  lemma WhatIsLeft(t: Tree, t': Tree, tried: set<Path>, lost: set<Path>, refused: set<Path>, dir: Path, dev: nat,
                   depth: nat)
    requires WellFormed(t) && NoLongerThan(t, depth) && ContentsDone(t, t', {}, tried, lost, refused, dir, dev)
    ensures forall q :: q in t && (!Under(dir, q) || OffDevice(t, dir, dev, q)) ==> q in t'
    ensures forall q :: q in tried ==> q in t && Under(dir, q) && !OffDevice(t, dir, dev, q)
    ensures forall q :: q in t && Under(dir, q) && !OffDevice(t, dir, dev, q) ==> q in tried || Behind(lost, dir, q)
    ensures lost == refused == {} ==> forall q :: q in t && Under(dir, q) ==>
              (q in t' <==> exists r :: r in t && Within(q, r) && OffDevice(t, dir, dev, r))
  {
    forall q
      ensures q in t && Under(dir, q) ==> (Reached(t, dir, dev, q) <==> !OffDevice(t, dir, dev, q))
      ensures Reached(t, dir, dev, q) ==> q in t && Under(dir, q)
    {
      if q in t && Under(dir, q) {
        OffDeviceIsNotReached(t, dir, dev, q);
      }
      assert q[..|q|] == q;
    }
    hide Reached, OffDevice, WellFormed, Within, Behind, StaysForAReason, NoLongerThan, Under;
    if lost == refused == {} {
      forall q | q in t && Under(dir, q)
        ensures q in t' <==> exists r :: r in t && Within(q, r) && OffDevice(t, dir, dev, r)
      {
        if q in t' {
          var r := SomethingOffDeviceBelow(t, t', tried, dir, dev, q, depth);
        } else if r :| r in t && Within(q, r) && OffDevice(t, dir, dev, r) {
          AncestorOf(t', q, r);
          assert false;
        }
      }
    }
  }

  lemma AncestorOf(t: Tree, q: Path, r: Path)
    requires WellFormed(t) && r in t && Within(q, r)
    ensures q in t
  {
    AncestorsStay(t, r, |q|);
  }

  /** Without faults, what is left has something on another device on the way to it, or in it. */
  lemma {:induction false} SomethingOffDeviceBelow(t: Tree, t': Tree, tried: set<Path>, dir: Path, dev: nat, q: Path,
                                                   depth: nat) returns (r: Path)
    requires WellFormed(t) && NoLongerThan(t, depth) && ContentsDone(t, t', {}, tried, {}, {}, dir, dev)
    requires q in t && q in t' && Under(dir, q)
    ensures r in t && Within(q, r) && OffDevice(t, dir, dev, r)
    decreases depth - |q|
  {
    hide WellFormed, NoLongerThan, ContentsDone, OffDevice;
    assert q[..|q|] == q;
    if OffDevice(t, dir, dev, q) {
      r := q;
    } else {
      var child := SomethingStays(t, t', tried, dir, dev, q);
      NotTooLong(t, child, depth);
      assert child[..|q|][..|dir|] == child[..|dir|];
      r := SomethingOffDeviceBelow(t, t', tried, dir, dev, child, depth);
      assert r[..|child|][..|q|] == r[..|q|];
    }
  }

  lemma NotTooLong(t: Tree, q: Path, depth: nat)
    requires q in t && NoLongerThan(t, depth)
    ensures |q| <= depth
  {
  }

  lemma SomethingStays(t: Tree, t': Tree, tried: set<Path>, dir: Path, dev: nat, q: Path) returns (child: Path)
    requires WellFormed(t) && ContentsDone(t, t', {}, tried, {}, {}, dir, dev)
    requires q in t && q in t' && Under(dir, q) && !OffDevice(t, dir, dev, q)
    ensures child in t && child in t' && IsChild(q, child)
  {
    hide WellFormed, OffDevice, Reached;
    OffDeviceIsNotReached(t, dir, dev, q);
    assert !Behind({}, dir, q);
    assert q in tried && StaysForAReason(t', {}, q);
    child :| child in t' && IsChild(q, child);
  }
}

/** What requests do to the tree, entry by entry and link by link. */
module Effects {
  import opened Blocks
  import opened Hierarchy

  // ---------- entries ----------

  /** From t to u, entry `name` of `dir` is gone, and its file has lost it: a directory has
      no entries and no links any more, another file has one link less, unless it had none. */
  ghost predicate IsRemoved(t: Tree, u: Tree, dir: nat, name: Name, c: nat)
  {
    && dir in t && name in t[dir].entries && t[dir].entries[name] == c && c in t && c != dir && u.Keys == t.Keys
    && (forall d :: d in t ==> u[d].isDir == t[d].isDir)
    && (forall n :: n in u[dir].entries <==> n in t[dir].entries && n != name)
    && (forall n :: n in u[dir].entries ==> u[dir].entries[n] == t[dir].entries[n])
    && (if t[c].isDir then u[c].nlink == 0 && u[c].entries == map[]
        else
          && u[c].entries == t[c].entries
          && (u[c].nlink + 1 == t[c].nlink || u[c].nlink == t[c].nlink == 0))
    && forall d :: d in t && d != dir && d != c ==> u[d] == t[d]
  }

  /** Removing a file succeeds exactly if it is not a directory, or an empty one not named
      "." or ".."; then it is removed, and otherwise nothing changes, and the error says why. */
  lemma RemovalByEntries(t: Tree, u: Tree, dir: nat, name: Name, error: Status)
    requires IsTree(t) && Live(t, dir) && DeallocateOutcome(t, u, dir, name, error)
    ensures error != Ok ==> u == t
    ensures error == Ok ==> name in t[dir].entries && IsRemoved(t, u, dir, name, t[dir].entries[name])
    ensures error == Ok <==>
              && name in t[dir].entries && t[dir].entries[name] in t
              && var c := t[dir].entries[name];
                 t[c].isDir ==> name != DOT && name != DOTDOT && t[c].entries.Keys == {DOT, DOTDOT}
    ensures error == ENOENT <==> name !in t[dir].entries
    ensures error == EINVAL ==> name == DOT || name == DOTDOT
    ensures error != Ok && error != ENOENT && error != EINVAL ==> error == ENOTEMPTY && name != DOT && name != DOTDOT
  {
    assert EntriesAreSound(t, dir);
  }

  lemma UnlinkIsRemoval(t: Tree, dir: nat, name: Name)
    requires dir in t && name in t[dir].entries && t[dir].entries[name] in t && t[dir].entries[name] != dir
    ensures IsRemoved(t, Unlink(t, dir, name), dir, name, t[dir].entries[name])
  {
  }

  /** Entry n of directory d is neither the old one nor the new one, nor the ".." of a
      directory that changed its parent. */
  predicate IsOther(pf: nat, from: Name, pt: nat, to: Name, ino: nat, d: nat, n: Name)
  {
    (d, n) != (pf, from) && (d, n) != (pt, to) && !(d == ino && n == DOTDOT && pf != pt)
  }

  /** Entry n of directory d is the same in two trees, or in neither. */
  predicate SameEntry(t: Tree, u: Tree, d: nat, n: Name)
    requires d in t && d in u
  {
    if n in t[d].entries then n in u[d].entries && u[d].entries[n] == t[d].entries[n] else n !in u[d].entries
  }

  /** A file has been taken away by its entry. */
  predicate IsReplaced(t: Tree, pt: nat, to: Name, d: nat)
    requires pt in t
  {
    to in t[pt].entries && t[pt].entries[to] == d
  }

  /** From t to u, entry `from` of `pf`, of file `ino`, has become entry `to` of `pt`, and
      the file that had this entry before has lost it. */
  ghost predicate IsRenamed(t: Tree, u: Tree, pf: nat, from: Name, pt: nat, to: Name, ino: nat)
    requires pf in t && pt in t
  {
    && u.Keys == t.Keys && (forall d :: d in t ==> u[d].isDir == t[d].isDir)
    && from !in u[pf].entries
    && ((pf, from) != (pt, to) ==> to in u[pt].entries && u[pt].entries[to] == ino)
    && (ino in t && t[ino].isDir && pf != pt ==> DOTDOT in u[ino].entries && u[ino].entries[DOTDOT] == pt)
    && (forall d, n :: d in t && IsOther(pf, from, pt, to, ino, d, n) && !(IsReplaced(t, pt, to, d) && t[d].isDir) ==>
          SameEntry(t, u, d, n))
    && (forall d :: d in t && IsReplaced(t, pt, to, d) && t[d].isDir ==> u[d].entries == map[])
    && (forall d :: d in t && !t[d].isDir ==>
          if IsReplaced(t, pt, to, d) then u[d].nlink + 1 == t[d].nlink || u[d].nlink == t[d].nlink == 0
          else u[d].nlink == t[d].nlink)
  }

  /** Where there is no other entry in the way. */
  lemma RelinkedByEntries(t: Tree, pf: nat, from: Name, pt: nat, to: Name, ino: nat)
    requires pf in t && pt in t && t[pf].isDir && t[pt].isDir && ino in t && StillThere(t, pf, from, pt, to, ino)
    requires to !in t[pt].entries && !(ino == pf && from == DOTDOT)
    requires from in t[pf].entries ==> t[pf].entries[from] == ino
    ensures IsRenamed(t, Relinked(t, pf, from, pt, to, ino), pf, from, pt, to, ino)
  {
    forall d, n | d in t && IsOther(pf, from, pt, to, ino, d, n)
      ensures SameEntry(t, Relinked(t, pf, from, pt, to, ino), d, n)
    {
      RelinkedEntry(t, pf, from, pt, to, ino, d, n);
    }
  }

  lemma RelinkedEntry(t: Tree, pf: nat, from: Name, pt: nat, to: Name, ino: nat, d: nat, n: Name)
    requires pf in t && pt in t && d in t && ino in t && StillThere(t, pf, from, pt, to, ino)
    requires IsOther(pf, from, pt, to, ino, d, n)
    ensures d in Relinked(t, pf, from, pt, to, ino) && SameEntry(t, Relinked(t, pf, from, pt, to, ino), d, n)
  {
  }

  /** A rename that succeeds renames this entry, of a file or a directory, and takes the
      file away that stood in its place; all other entries stay. */
  lemma RenameByEntries(t: Tree, rank: map<nat, nat>, u: Tree, pf: nat, from: Name, pt: nat, to: Name, room: bool,
                        error: Status)
    requires IsSound(t) && IsRanked(t, rank) && Live(t, pf) && Live(t, pt) && error == Ok
    requires RenameOutcome(t, rank, u, pf, from, pt, to, room, error)
    ensures from in t[pf].entries && IsRenamed(t, u, pf, from, pt, to, t[pf].entries[from])
  {
    RemovableIsOwn(t, pt, to);
    ClearedIsTree(t, rank, pt, to);
    ClearedEntries(t, pf, from, pt, to);
    var t1, ino := Cleared(t, pt, to), t[pf].entries[from];
    if t[ino].isDir {
      NotRefusedIsNotRoot(t1, rank, pt, ino);
      ParentIsOther(t, rank, pf);
    }
    RelinkedByEntries(t1, pf, from, pt, to, ino);
    if to in t[pt].entries {
      UnlinkIsRemoval(t, pt, to);
      if to in SubDirs(t, pt) && t[pt].entries[to] == ino {
        ReplacedIsOther(t, pf, from, pt, to);
      }
      RenamedAfterRemoval(t, t1, u, pf, from, pt, to, ino, t[pt].entries[to]);
    }
  }

  /** Only the root is its own parent. */
  lemma ParentIsOther(t: Tree, rank: map<nat, nat>, d: nat)
    requires IsSound(t) && IsRanked(t, rank) && Live(t, d)
    ensures ParentOf(t, d) == d ==> d == ROOT_INODE
  {
  }

  /** An empty directory that is replaced is the renamed one only if the entries are of
      the same directory, or the old entry is its own. */
  lemma ReplacedIsOther(t: Tree, pf: nat, from: Name, pt: nat, to: Name)
    requires IsSound(t) && Live(t, pf) && Live(t, pt) && from in t[pf].entries && to in SubDirs(t, pt)
    requires t[pt].entries[to] == t[pf].entries[from] && IsEmptyDir(t, t[pt].entries[to])
    ensures pf == pt || pf == t[pt].entries[to]
  {
    assert EntriesAreSound(t, pf) && EntriesAreSound(t, pt);
    ParentIsNotEmpty(t, pf);
  }

  lemma RenamedAfterRemoval(t: Tree, t1: Tree, u: Tree, pf: nat, from: Name, pt: nat, to: Name, ino: nat, c: nat)
    requires pf in t && pt in t && t[pt].isDir && IsRemoved(t, t1, pt, to, c) && IsRenamed(t1, u, pf, from, pt, to, ino)
    requires t[c].isDir && ino == c ==> pf == pt
    ensures IsRenamed(t, u, pf, from, pt, to, ino)
  {
    forall d, n | d in t && IsOther(pf, from, pt, to, ino, d, n) && !(IsReplaced(t, pt, to, d) && t[d].isDir)
      ensures SameEntry(t, u, d, n)
    {
      assert SameEntry(t1, u, d, n);
    }
    if t[c].isDir {
      assert forall n :: n in u[c].entries ==> (c, n) == (pf, from) || SameEntry(t1, u, c, n);
    }
  }

  /** A rename that fails leaves the tree, or has taken the file in the way away: when the
      hierarchy check refused it, or when that file was the directory of the old entry. */
  lemma FailedRenameByEntries(t: Tree, rank: map<nat, nat>, u: Tree, pf: nat, from: Name, pt: nat, to: Name, room: bool,
                              error: Status)
    requires IsSound(t) && IsRanked(t, rank) && Live(t, pf) && Live(t, pt) && error != Ok
    requires RenameOutcome(t, rank, u, pf, from, pt, to, room, error)
    ensures || u == t
            || (error == EINVAL && to in t[pt].entries && IsRemoved(t, u, pt, to, t[pt].entries[to]))
            || (error == ENOENT && IsReplaced(t, pt, to, pf) && (from == DOT || from == DOTDOT))
  {
    if from in t[pf].entries && IsRemovable(t, pt, to) {
      ClearedIsTree(t, rank, pt, to);
      ClearedEntries(t, pf, from, pt, to);
      if to in t[pt].entries {
        UnlinkIsRemoval(t, pt, to);
      }
    }
  }

  /** Directory `a` is `d` or above it, climbing at most k steps. */
  predicate IsAbove(t: Tree, a: nat, d: nat, k: nat)
    decreases k
  {
    d == a || (k > 0 && Live(t, d) && d != ROOT_INODE && IsAbove(t, a, ParentOf(t, d), k - 1))
  }

  /** Climbing from `d` comes to directory `a`. */
  ghost predicate HasAbove(t: Tree, a: nat, d: nat)
  {
    exists k :: IsAbove(t, a, d, k)
  }

  lemma {:induction false} BelowIsAbove(t: Tree, rank: map<nat, nat>, a: nat, d: nat, k: nat)
    requires IsSound(t) && IsRanked(t, rank) && Live(t, d)
    ensures IsAbove(t, a, d, k) ==> IsBelow(t, rank, a, d)
    ensures k >= rank[d] ==> IsBelow(t, rank, a, d) ==> IsAbove(t, a, d, k)
    decreases k
  {
    if d != a && d != ROOT_INODE && k > 0 {
      assert EntriesAreSound(t, d);
      BelowIsAbove(t, rank, a, ParentOf(t, d), k - 1);
    }
  }

  /** Climbing is the same where no parent has changed. */
  lemma {:induction false} ClearedAbove(t: Tree, rank: map<nat, nat>, pt: nat, to: Name, a: nat, d: nat, k: nat)
    requires IsSound(t) && IsRanked(t, rank) && Live(t, pt) && IsRemovable(t, pt, to) && Live(Cleared(t, pt, to), d)
    ensures IsAbove(Cleared(t, pt, to), a, d, k) <==> IsAbove(t, a, d, k)
    decreases k
  {
    ClearedIsTree(t, rank, pt, to);
    if d != a && d != ROOT_INODE && k > 0 {
      assert EntriesAreSound(Cleared(t, pt, to), d);
      RemovableIsOwn(t, pt, to);
      assert ParentOf(Cleared(t, pt, to), d) == ParentOf(t, d);
      ClearedAbove(t, rank, pt, to, a, ParentOf(t, d), k - 1);
    }
  }

  /** A directory with more than the entries "." and "..", or one of these, is in the way. */
  predicate IsInTheWay(t: Tree, pt: nat, to: Name)
    requires pt in t
  {
    && to in t[pt].entries && t[pt].entries[to] in t && t[t[pt].entries[to]].isDir
    && (to == DOT || to == DOTDOT || t[t[pt].entries[to]].entries.Keys != {DOT, DOTDOT})
  }

  /** What renaming an entry other than "." and ".." answers. */
  lemma RenameAnswers(t: Tree, rank: map<nat, nat>, u: Tree, pf: nat, from: Name, pt: nat, to: Name, room: bool,
                      error: Status)
    requires IsSound(t) && IsRanked(t, rank) && Live(t, pf) && Live(t, pt) && from != DOT && from != DOTDOT
    requires RenameOutcome(t, rank, u, pf, from, pt, to, room, error)
    ensures error == ENOENT <==> from !in t[pf].entries
    ensures from in t[pf].entries ==>
              var ino := t[pf].entries[from];
              && ino in t
              && (if IsInTheWay(t, pt, to) then error == if to == DOT || to == DOTDOT then EINVAL else ENOTEMPTY
                  else if t[ino].isDir && HasAbove(t, ino, ParentOf(t, pt)) then error == EINVAL
                  else error == if room || to in t[pt].entries then Ok else ENOSPC)
  {
    if from in t[pf].entries {
      assert EntriesAreSound(t, pf);
      if IsRemovable(t, pt, to) {
        ClearedRenameAnswers(t, rank, u, pf, from, pt, to, room, error);
      }
    }
  }

  /** Where nothing is in the way, or it has been removed. */
  lemma ClearedRenameAnswers(t: Tree, rank: map<nat, nat>, u: Tree, pf: nat, from: Name, pt: nat, to: Name, room: bool,
                             error: Status)
    requires IsSound(t) && IsRanked(t, rank) && Live(t, pf) && Live(t, pt) && from != DOT && from != DOTDOT
    requires RenameOutcome(t, rank, u, pf, from, pt, to, room, error) && from in t[pf].entries && IsRemovable(t, pt, to)
    requires t[pf].entries[from] in t
    ensures error == if t[t[pf].entries[from]].isDir && HasAbove(t, t[pf].entries[from], ParentOf(t, pt))
                     then EINVAL
                     else if room || to in t[pt].entries then Ok else ENOSPC
  {
    ClearedIsTree(t, rank, pt, to);
    ClearedEntries(t, pf, from, pt, to);
    RefusalIsAbove(t, rank, pt, to, t[pf].entries[from]);
  }

  lemma RefusalIsAbove(t: Tree, rank: map<nat, nat>, pt: nat, to: Name, ino: nat)
    requires IsSound(t) && IsRanked(t, rank) && Live(t, pt) && IsRemovable(t, pt, to) && ino in t
    ensures var u := Cleared(t, pt, to);
            && IsSound(u) && IsRanked(u, rank) && Live(u, pt) && ino in u
            && (IsRefused(u, rank, pt, ino) <==> t[ino].isDir && HasAbove(t, ino, ParentOf(t, pt)))
  {
    ClearedIsTree(t, rank, pt, to);
    RemovableIsOwn(t, pt, to);
    var u, p := Cleared(t, pt, to), ParentOf(t, pt);
    assert EntriesAreSound(u, pt) && ParentOf(u, pt) == p;
    forall k: nat ensures IsAbove(t, ino, p, k) ==> IsBelow(u, rank, ino, p) {
      ClearedAbove(t, rank, pt, to, ino, p, k);
      BelowIsAbove(u, rank, ino, p, k);
    }
    ClearedAbove(t, rank, pt, to, ino, p, rank[p]);
    BelowIsAbove(u, rank, ino, p, rank[p]);
  }

  /** A creation that succeeds adds one inode and one entry.  A new directory has the
      entries "." and ".." and two links, another file none and one. */
  lemma CreationByEntries(t: Tree, u: Tree, d: nat, name: Name, offered: Status, ino: nat, isKnown: bool, isDir: bool,
                          block: bool, room: bool, error: Status)
    requires IsTree(t) && Live(t, d) && (offered == Ok ==> ino !in t)
    requires CreateOutcome(t, u, d, name, offered, ino, isKnown, isDir, block, room, error)
    ensures error == Ok <==> name !in t[d].entries && offered == Ok && isKnown && (isDir ==> block) && room
    ensures error == Ok ==>
              && u.Keys == t.Keys + {ino} && u[d].isDir
              && (forall n :: n in u[d].entries <==> n in t[d].entries || n == name)
              && (forall n :: n in u[d].entries ==> u[d].entries[n] == if n == name then ino else t[d].entries[n])
              && (forall e :: e in t && e != d ==> u[e] == t[e])
              && u[ino].isDir == isDir && u[ino].nlink == (if isDir then 2 else 1)
              && u[ino].entries == if isDir then map[DOT := ino, DOTDOT := d] else map[]
    ensures error != Ok ==> u == t || (!room && u.Keys == t.Keys + {ino} && forall e :: e in t ==> u[e] == t[e])
  {
  }

  // ---------- links ----------

  /** The entries of directories that name an inode. */
  ghost function Names(t: Tree, f: nat): set<(nat, Name)>
  {
    set d, n | d in t && Live(t, d) && n in t[d].entries && t[d].entries[n] == f :: (d, n)
  }

  /** Every file that is not a directory has at least as many links as entries name it. */
  ghost predicate HasLinks(t: Tree)
  {
    forall f :: f in t && !t[f].isDir ==> t[f].nlink >= |Names(t, f)|
  }

  lemma RemovalKeepsLinks(t: Tree, u: Tree, dir: nat, name: Name, c: nat)
    requires IsTree(t) && Live(t, dir) && IsRemoved(t, u, dir, name, c) && HasLinks(t)
    requires t[c].isDir ==> t[c].entries.Keys == {DOT, DOTDOT}
    requires t[c].isDir ==> name != DOT && name != DOTDOT
    ensures HasLinks(u)
  {
    assert EntriesAreSound(t, dir);
    forall f | f in u && !u[f].isDir ensures u[f].nlink >= |Names(u, f)| {
      NamesAfterRemoval(t, u, dir, name, c, f);
    }
  }

  lemma NamesAfterRemoval(t: Tree, u: Tree, dir: nat, name: Name, c: nat, f: nat)
    requires IsTree(t) && Live(t, dir) && IsRemoved(t, u, dir, name, c) && f in t && !t[f].isDir
    requires t[c].isDir ==> t[c].entries.Keys == {DOT, DOTDOT} && name != DOT && name != DOTDOT
    ensures Names(u, f) == if f == c then Names(t, f) - {(dir, name)} else Names(t, f)
    ensures f == c ==> (dir, name) in Names(t, f)
  {
    assert EntriesAreSound(t, dir);
    forall d, n ensures (d, n) in Names(u, f) <==> (d, n) in Names(t, f) && (d, n) != (dir, name) {
      if d in t {
        NameAfterRemoval(t, u, dir, name, c, f, d, n);
      }
    }
  }

  lemma NameAfterRemoval(t: Tree, u: Tree, dir: nat, name: Name, c: nat, f: nat, d: nat, n: Name)
    requires IsTree(t) && Live(t, dir) && IsRemoved(t, u, dir, name, c) && f in t && !t[f].isDir && d in t
    requires t[c].isDir ==> t[c].entries.Keys == {DOT, DOTDOT} && name != DOT && name != DOTDOT
    ensures (d, n) in Names(u, f) <==> (d, n) in Names(t, f) && (d, n) != (dir, name)
  {
    assert EntriesAreSound(t, dir);
    assert t[t[dir].entries[DOTDOT]].isDir;
    if Live(t, d) {
      assert EntriesAreSound(t, d);
      assert n in t[d].entries ==> n in t[d].entries.Keys;
    }
  }

  /** The names of a file after a rename. */
  lemma NamesAfterRename(t: Tree, u: Tree, pf: nat, from: Name, pt: nat, to: Name, ino: nat, f: nat)
    requires IsTree(t) && Live(t, pf) && Live(t, pt) && IsOwn(from) && IsOwn(to)
    requires from in t[pf].entries && t[pf].entries[from] == ino && IsRenamed(t, u, pf, from, pt, to, ino)
    requires IsRemovable(t, pt, to) && f in t && !t[f].isDir
    ensures var moved := Names(t, f) - {(pf, from)} - {(pt, to)};
            Names(u, f) == if f == ino && (pf, from) != (pt, to) then moved + {(pt, to)} else moved
    ensures (pf, from) in Names(t, f) <==> f == ino
    ensures (pt, to) in Names(t, f) <==> IsReplaced(t, pt, to, f)
  {
    assert EntriesAreSound(t, pf) && EntriesAreSound(t, pt);
    var moved := Names(t, f) - {(pf, from)} - {(pt, to)};
    forall d, n
      ensures (d, n) in Names(u, f) <==> (d, n) in moved || (f == ino && (pf, from) != (pt, to) && (d, n) == (pt, to))
    {
      if d in t {
        NameAfterRename(t, u, pf, from, pt, to, ino, f, d, n);
      }
    }
  }

  lemma NameAfterRename(t: Tree, u: Tree, pf: nat, from: Name, pt: nat, to: Name, ino: nat, f: nat, d: nat, n: Name)
    requires IsTree(t) && Live(t, pf) && Live(t, pt) && IsOwn(from) && IsOwn(to)
    requires from in t[pf].entries && t[pf].entries[from] == ino && IsRenamed(t, u, pf, from, pt, to, ino)
    requires IsRemovable(t, pt, to) && f in t && !t[f].isDir && d in t
    ensures (d, n) in Names(u, f) <==>
              || ((d, n) in Names(t, f) && (d, n) != (pf, from) && (d, n) != (pt, to))
              || (f == ino && (pf, from) != (pt, to) && (d, n) == (pt, to))
  {
    if IsReplaced(t, pt, to, d) && t[d].isDir {
      ReplacedHasNoNames(t, pt, to, f, d, n);
    } else {
      OtherName(t, u, pf, from, pt, to, ino, f, d, n);
    }
  }

  /** An empty directory names no file of another kind, and is not its own parent. */
  lemma ReplacedHasNoNames(t: Tree, pt: nat, to: Name, f: nat, d: nat, n: Name)
    requires IsTree(t) && Live(t, pt) && IsRemovable(t, pt, to) && f in t && !t[f].isDir
    requires d in t && t[d].isDir && IsReplaced(t, pt, to, d)
    ensures (d, n) !in Names(t, f) && d != pt
  {
    assert EntriesAreSound(t, pt) && Live(t, d) && EntriesAreSound(t, d);
    assert n in t[d].entries ==> n in t[d].entries.Keys;
    var rank :| IsRanked(t, rank);
    ParentIsOther(t, rank, d);
  }

  lemma OtherName(t: Tree, u: Tree, pf: nat, from: Name, pt: nat, to: Name, ino: nat, f: nat, d: nat, n: Name)
    requires IsTree(t) && Live(t, pf) && Live(t, pt) && IsOwn(from) && IsOwn(to)
    requires from in t[pf].entries && t[pf].entries[from] == ino && IsRenamed(t, u, pf, from, pt, to, ino)
    requires f in t && !t[f].isDir && d in t && !(IsReplaced(t, pt, to, d) && t[d].isDir)
    ensures (d, n) in Names(u, f) <==>
              || ((d, n) in Names(t, f) && (d, n) != (pf, from) && (d, n) != (pt, to))
              || (f == ino && (pf, from) != (pt, to) && (d, n) == (pt, to))
  {
    assert EntriesAreSound(t, pf);
    StillLive(t, u, pf, from, pt, to, ino, d);
    if Live(t, d) {
      assert EntriesAreSound(t, d);
      if IsOther(pf, from, pt, to, ino, d, n) {
        assert SameEntry(t, u, d, n);
      }
    }
  }

  /** Directories that are not replaced stay directories. */
  lemma StillLive(t: Tree, u: Tree, pf: nat, from: Name, pt: nat, to: Name, ino: nat, d: nat)
    requires pf in t && pt in t && IsOwn(from) && IsOwn(to) && IsRenamed(t, u, pf, from, pt, to, ino)
    requires d in t && !(IsReplaced(t, pt, to, d) && t[d].isDir) && (d == ino ==> !t[d].isDir || Live(t, d))
    ensures Live(u, d) <==> Live(t, d)
  {
    if IsOther(pf, from, pt, to, ino, d, DOTDOT) {
      assert SameEntry(t, u, d, DOTDOT);
    }
  }

  /** The number of names changes as the number of links does. */
  lemma RenamedKeepsLinks(t: Tree, u: Tree, pf: nat, from: Name, pt: nat, to: Name, ino: nat)
    requires IsTree(t) && Live(t, pf) && Live(t, pt) && IsOwn(from) && IsOwn(to) && HasLinks(t)
    requires from in t[pf].entries && t[pf].entries[from] == ino && IsRenamed(t, u, pf, from, pt, to, ino)
    requires IsRemovable(t, pt, to)
    ensures HasLinks(u)
  {
    forall f | f in u && !u[f].isDir ensures u[f].nlink >= |Names(u, f)| {
      NamesAfterRename(t, u, pf, from, pt, to, ino, f);
      CountNames(Names(t, f), (pf, from), (pt, to));
    }
  }

  lemma CountNames(s: set<(nat, Name)>, a: (nat, Name), b: (nat, Name))
    ensures |s - {a} - {b}| == |s| - (if a in s then 1 else 0) - (if b in s && b != a then 1 else 0)
    ensures |s - {a} - {b} + {b}| == |s - {a} - {b}| + 1
  {
    var s' := s - {a};
    if a in s {
      assert s == s' + {a};
    } else {
      assert s == s';
    }
    if b in s' {
      assert s' == s' - {b} + {b};
    } else {
      assert s' == s' - {b};
    }
  }

  lemma RenameKeepsLinks(t: Tree, rank: map<nat, nat>, u: Tree, pf: nat, from: Name, pt: nat, to: Name, room: bool,
                         error: Status)
    requires IsTree(t) && IsRanked(t, rank) && Live(t, pf) && Live(t, pt) && HasLinks(t)
    requires RenameOutcome(t, rank, u, pf, from, pt, to, room, error) && !MovesDots(t, rank, pf, from, pt, to, room)
    ensures HasLinks(u)
  {
    if from in t[pf].entries && IsRemovable(t, pt, to) {
      RemovableIsOwn(t, pt, to);
      ClearedIsTree(t, rank, pt, to);
      ClearedEntries(t, pf, from, pt, to);
      if error == Ok {
        RenameByEntries(t, rank, u, pf, from, pt, to, room, error);
        RenamedKeepsLinks(t, u, pf, from, pt, to, t[pf].entries[from]);
      } else if to in t[pt].entries {
        UnlinkIsRemoval(t, pt, to);
        RemovalKeepsLinks(t, Cleared(t, pt, to), pt, to, t[pt].entries[to]);
      }
    }
  }

  lemma CreationKeepsLinks(t: Tree, u: Tree, d: nat, name: Name, offered: Status, ino: nat, isKnown: bool, isDir: bool,
                           block: bool, room: bool, error: Status)
    requires IsTree(t) && Live(t, d) && (offered == Ok ==> ino !in t) && HasLinks(t)
    requires CreateOutcome(t, u, d, name, offered, ino, isKnown, isDir, block, room, error)
    requires !LosesDirectory(t, d, name, offered, isKnown, isDir, block, room)
    ensures HasLinks(u)
  {
    if u != t {
      forall f | f in u && !u[f].isDir ensures u[f].nlink >= |Names(u, f)| {
        forall e: nat, n: Name ensures (e, n) in Names(u, f) <==> (e, n) in NewNames(t, d, name, ino, error, f) {
          NameAfterCreation(t, u, d, name, offered, ino, isKnown, isDir, block, room, error, f, e, n);
        }
        assert Names(u, f) == NewNames(t, d, name, ino, error, f);
      }
    }
  }

  /** The new file has one name, if it was given one. */
  ghost function NewNames(t: Tree, d: nat, name: Name, ino: nat, error: Status, f: nat): set<(nat, Name)>
  {
    if f != ino then Names(t, f) else if error == Ok then {(d, name)} else {}
  }

  lemma NameAfterCreation(t: Tree, u: Tree, d: nat, name: Name, offered: Status, ino: nat, isKnown: bool, isDir: bool,
                          block: bool, room: bool, error: Status, f: nat, e: nat, n: Name)
    requires IsTree(t) && Live(t, d) && (offered == Ok ==> ino !in t) && u != t
    requires CreateOutcome(t, u, d, name, offered, ino, isKnown, isDir, block, room, error)
    requires !LosesDirectory(t, d, name, offered, isKnown, isDir, block, room) && f in u && !u[f].isDir
    ensures (e, n) in Names(u, f) <==> (e, n) in NewNames(t, d, name, ino, error, f)
  {
    assert EntriesAreSound(t, d);
    if e in t && Live(t, e) {
      assert EntriesAreSound(t, e);
    }
  }

  lemma StepKeepsLinks(t: Tree, op: Op, error: Status, u: Tree)
    requires IsTree(t) && IsStep(t, op, error, u) && !Breaks(t, op) && HasLinks(t)
    ensures HasLinks(u)
  {
    match op
    case Creating(d, name, offered, ino, isKnown, isDir, block, room) =>
      CreationKeepsLinks(t, u, d, name, offered, ino, isKnown, isDir, block, room, error);
    case Removing(d, name) =>
      RemovalByEntries(t, u, d, name, error);
      if error == Ok {
        RemovalKeepsLinks(t, u, d, name, t[d].entries[name]);
      }
    case Renaming(pf, from, pt, to, room) =>
      var rank :| IsRanked(t, rank) && RenameOutcome(t, rank, u, pf, from, pt, to, room, error);
      RenameKeepsLinks(t, rank, u, pf, from, pt, to, room, error);
  }

  /** In any run that keeps the tree, files keep at least as many links as entries name
      them, so none is cleared that is still named. */
  lemma {:induction false} RunKeepsLinks(ts: seq<Tree>, ops: seq<Op>, errors: seq<Status>, k: nat)
    requires |ts| == |ops| + 1 == |errors| + 1 && k <= |ops| && IsRun(ts, ops, errors, k) && HasLinks(ts[0])
    ensures HasLinks(ts[k])
    decreases k
  {
    if k > 0 {
      RunKeepsLinks(ts, ops, errors, k - 1);
      RunKeepsTree(ts, ops, errors, k - 1);
      StepKeepsLinks(ts[k - 1], ops[k - 1], errors[k - 1], ts[k]);
    }
  }
}

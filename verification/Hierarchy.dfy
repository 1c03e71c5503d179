/** The tree of directories, and what adding, removing and moving entries does to it. */
module Hierarchy {
  import opened Blocks

  type Name = seq<nat>

  /** The names "." and ".." as directory entries hold them. */
  const DOT: Name := [0x4B00_0000, 0, 0, 0, 0, 0, 0, 0, 0, 0, 0, 0, 0, 0, 0]
  const DOTDOT: Name := [0x4B4B_0000, 0, 0, 0, 0, 0, 0, 0, 0, 0, 0, 0, 0, 0, 0]

  predicate IsOwn(name: Name)
  {
    name != DOT && name != DOTDOT
  }

  /** An inode: a directory with its entries, or something else; a directory that has
      been removed has no entries. */
  datatype Node = Node(isDir: bool, nlink: nat, entries: map<Name, nat>)

  type Tree = map<nat, Node>

  predicate Live(t: Tree, d: nat)
  {
    d in t && t[d].isDir && DOTDOT in t[d].entries
  }

  function ParentOf(t: Tree, d: nat): nat
    requires Live(t, d)
  {
    t[d].entries[DOTDOT]
  }

  /** The names of the sub-directories of a directory. */
  function SubDirs(t: Tree, d: nat): set<Name>
    requires d in t
  {
    set n | n in t[d].entries && IsOwn(n) && t[d].entries[n] in t && t[t[d].entries[n]].isDir
  }

  /** The entries of directory `d` are in order: "." names it, and ".." of each of its
      sub-directories names it too. */
  ghost predicate EntriesAreSound(t: Tree, d: nat)
    requires Live(t, d)
  {
    && DOT in t[d].entries && t[d].entries[DOT] == d && Live(t, ParentOf(t, d))
    && (forall n :: n in t[d].entries ==> t[d].entries[n] in t)
    && (forall n :: n in SubDirs(t, d) ==>
          var c := t[d].entries[n]; Live(t, c) && ParentOf(t, c) == d && c != ROOT_INODE)
    && (forall m, n :: m in SubDirs(t, d) && n in SubDirs(t, d) && t[d].entries[m] == t[d].entries[n] ==> m == n)
  }

  /** The parent of `d` has an entry for it. */
  ghost predicate IsNamed(t: Tree, d: nat)
    requires Live(t, d) && Live(t, ParentOf(t, d))
  {
    exists n :: n in SubDirs(t, ParentOf(t, d)) && t[ParentOf(t, d)].entries[n] == d
  }

  ghost predicate IsCounted(t: Tree, d: nat)
    requires d in t
  {
    t[d].nlink == (2 + |SubDirs(t, d)|) % 0x1_0000
  }

  /** ".." leads up: `rank` falls from every directory to its parent. */
  ghost predicate IsRanked(t: Tree, rank: map<nat, nat>)
  {
    forall d :: Live(t, d) ==>
      d in rank && (d != ROOT_INODE ==> ParentOf(t, d) in rank && rank[ParentOf(t, d)] < rank[d])
  }

  ghost predicate IsSound(t: Tree)
  {
    && Live(t, ROOT_INODE) && ParentOf(t, ROOT_INODE) == ROOT_INODE
    && (forall d {:trigger EntriesAreSound(t, d)} :: Live(t, d) ==> EntriesAreSound(t, d))
    && (forall d {:trigger IsNamed(t, d)} :: Live(t, d) && d != ROOT_INODE ==> EntriesAreSound(t, d) && IsNamed(t, d))
    && (forall d {:trigger IsCounted(t, d)} :: Live(t, d) ==> IsCounted(t, d))
  }

  /** The directories form a tree: each is named by exactly one entry, in the directory
      its ".." names, and going up leads to the root. */
  ghost predicate IsTree(t: Tree)
  {
    IsSound(t) && exists rank :: IsRanked(t, rank)
  }

  // ---------- the operations on entries ----------

  function Count(t: Tree, d: nat, ino: nat, delta: int): nat
    requires d in t
  {
    if ino in t && t[ino].isDir then (t[d].nlink + delta) % 0x1_0000 else t[d].nlink
  }

  function AddName(t: Tree, d: nat, name: Name, ino: nat): Tree
    requires d in t
  {
    t[d := Node(t[d].isDir, Count(t, d, ino, 1), t[d].entries[name := ino])]
  }

  function RemoveName(t: Tree, d: nat, name: Name): Tree
    requires d in t && name in t[d].entries
  {
    t[d := Node(t[d].isDir, Count(t, d, t[d].entries[name], -1), t[d].entries - {name})]
  }

  function ReplaceName(t: Tree, d: nat, name: Name, ino: nat): Tree
    requires d in t
  {
    t[d := t[d].(entries := t[d].entries[name := ino])]
  }

  /** Moving entry `from` of `pf` to entry `to` of `pt`; a directory that changes its
      parent gets a new "..". */
  function Move(t: Tree, pf: nat, from: Name, pt: nat, to: Name): Tree
    requires pf in t && pt in t && from in t[pf].entries && (pf == pt ==> from != to)
  {
    var ino := t[pf].entries[from];
    var t2 := RemoveName(AddName(t, pt, to, ino), pf, from);
    if ino in t && t[ino].isDir && pf != pt then ReplaceName(t2, ino, DOTDOT, pt) else t2
  }

  // ---------- ancestors ----------

  /** `d` is `a` or below it. */
  ghost predicate IsBelow(t: Tree, rank: map<nat, nat>, a: nat, d: nat)
    requires IsSound(t) && IsRanked(t, rank) && Live(t, d)
    decreases rank[d]
  {
    d == a || (d != ROOT_INODE && (assert EntriesAreSound(t, d); IsBelow(t, rank, a, ParentOf(t, d))))
  }

  // ---------- moving a directory ----------

  /** Directory `ino`, entry `from` of `pf`, may become entry `to` of `pt`. */
  ghost predicate CanMove(t: Tree, pf: nat, from: Name, pt: nat, to: Name, ino: nat)
  {
    && IsSound(t) && Live(t, pf) && Live(t, pt)
    && from in SubDirs(t, pf) && t[pf].entries[from] == ino
    && IsOwn(to) && to !in t[pt].entries && ino != pf && ino != pt
  }

  lemma MovedNode(t: Tree, pf: nat, from: Name, pt: nat, to: Name, ino: nat, d: nat)
    requires CanMove(t, pf, from, pt, to, ino) && d in t
    ensures var u := Move(t, pf, from, pt, to);
            && u.Keys == t.Keys && u[d].isDir == t[d].isDir && (Live(u, d) <==> Live(t, d))
            && u[d].entries == if d == pf && d == pt then t[d].entries[to := ino] - {from}
                               else if d == pf then t[d].entries - {from}
                               else if d == pt then t[d].entries[to := ino]
                               else if d == ino && pf != pt then t[d].entries[DOTDOT := pt]
                               else t[d].entries
  {
    assert EntriesAreSound(t, pf);
  }

  lemma MovedSubDirs(t: Tree, pf: nat, from: Name, pt: nat, to: Name, ino: nat, d: nat)
    requires CanMove(t, pf, from, pt, to, ino) && d in t
    ensures var u := Move(t, pf, from, pt, to);
            && u.Keys == t.Keys
            && SubDirs(u, d) == (SubDirs(t, d) + if d == pt then {to} else {}) - if d == pf then {from} else {}
  {
    var u := Move(t, pf, from, pt, to);
    MovedNode(t, pf, from, pt, to, ino, d);
    assert EntriesAreSound(t, pf);
    forall n
      ensures n in SubDirs(u, d)
              <==> n in (SubDirs(t, d) + if d == pt then {to} else {}) - if d == pf then {from} else {}
    {
      if n in u[d].entries && u[d].entries[n] in t {
        MovedNode(t, pf, from, pt, to, ino, u[d].entries[n]);
      }
      if n in t[d].entries && t[d].entries[n] in t {
        MovedNode(t, pf, from, pt, to, ino, t[d].entries[n]);
      }
    }
  }

  /** A link count after an entry was added, or removed, or both. */
  function MovedCountOf(nlink: nat, isFrom: bool, isTo: bool): nat
  {
    if isFrom && isTo then ((nlink + 1) % 0x1_0000 - 1) % 0x1_0000
    else if isFrom then (nlink - 1) % 0x1_0000
    else if isTo then (nlink + 1) % 0x1_0000
    else nlink
  }

  lemma MovedNlink(t: Tree, pf: nat, from: Name, pt: nat, to: Name, ino: nat, d: nat)
    requires CanMove(t, pf, from, pt, to, ino) && d in t
    ensures var u := Move(t, pf, from, pt, to);
            d in u && u[d].nlink == MovedCountOf(t[d].nlink, d == pf, d == pt)
  {
    assert EntriesAreSound(t, pf);
  }

  lemma CountWraps(k: nat, delta: int)
    requires -1 <= delta <= 1 && k + delta >= 0
    ensures ((2 + k) % 0x1_0000 + delta) % 0x1_0000 == (2 + k + delta) % 0x1_0000
  {
  }

  lemma MovedCount(t: Tree, pf: nat, from: Name, pt: nat, to: Name, ino: nat, d: nat)
    requires CanMove(t, pf, from, pt, to, ino) && Live(t, d)
    ensures IsCounted(Move(t, pf, from, pt, to), d)
  {
    MovedSubDirs(t, pf, from, pt, to, ino, d);
    MovedNlink(t, pf, from, pt, to, ino, d);
    assert IsCounted(t, d);
    var u := Move(t, pf, from, pt, to);
    var k, k' := |SubDirs(t, d)|, |SubDirs(u, d)|;
    CountChange(SubDirs(t, d), from, to, d == pf, d == pt);
    NlinkChange(t[d].nlink, u[d].nlink, k, k', d == pf, d == pt);
  }

  lemma NlinkChange(nlink: nat, nlink': nat, k: nat, k': nat, isFrom: bool, isTo: bool)
    requires nlink == (2 + k) % 0x1_0000 && k' == k + (if isTo then 1 else 0) - (if isFrom then 1 else 0)
    requires nlink' == MovedCountOf(nlink, isFrom, isTo)
    ensures nlink' == (2 + k') % 0x1_0000
  {
    if isFrom && isTo {
      CountWraps(k, 1);
      CountWraps(k + 1, -1);
    } else if isFrom {
      CountWraps(k, -1);
    } else if isTo {
      CountWraps(k, 1);
    }
  }

  lemma CountChange(s: set<Name>, from: Name, to: Name, isFrom: bool, isTo: bool)
    requires isFrom ==> from in s
    requires isTo ==> to !in s
    ensures |(s + if isTo then {to} else {}) - if isFrom then {from} else {}|
            == |s| + (if isTo then 1 else 0) - (if isFrom then 1 else 0)
  {
    var s' := s + if isTo then {to} else {};
    assert |s'| == |s| + if isTo then 1 else 0;
    if isFrom {
      assert |s' - {from}| == |s'| - 1;
    } else {
      assert s' - {} == s';
    }
  }

  /** A sub-directory after the move is the moved one at its new place, or one that
      kept its place. */
  lemma MovedChild(t: Tree, pf: nat, from: Name, pt: nat, to: Name, ino: nat, d: nat, n: Name)
    requires CanMove(t, pf, from, pt, to, ino) && Live(t, d)
    requires var u := Move(t, pf, from, pt, to); d in u && n in SubDirs(u, d)
    ensures var u := Move(t, pf, from, pt, to);
            && var c := u[d].entries[n];
            && Live(u, c) && ParentOf(u, c) == d && c != ROOT_INODE
            && if d == pt && n == to then c == ino else n in SubDirs(t, d) && c == t[d].entries[n] != ino
  {
    var u := Move(t, pf, from, pt, to);
    MovedNode(t, pf, from, pt, to, ino, d);
    MovedSubDirs(t, pf, from, pt, to, ino, d);
    assert EntriesAreSound(t, d) && EntriesAreSound(t, pf);
    var c := u[d].entries[n];
    MovedNode(t, pf, from, pt, to, ino, c);
    if !(d == pt && n == to) {
      assert n in SubDirs(t, d) && c == t[d].entries[n];
      assert c != ino;
    }
  }

  lemma MovedEntries(t: Tree, pf: nat, from: Name, pt: nat, to: Name, ino: nat, d: nat)
    requires CanMove(t, pf, from, pt, to, ino) && Live(t, d)
    ensures Live(Move(t, pf, from, pt, to), d) && EntriesAreSound(Move(t, pf, from, pt, to), d)
  {
    var u := Move(t, pf, from, pt, to);
    MovedNode(t, pf, from, pt, to, ino, d);
    assert EntriesAreSound(t, d) && EntriesAreSound(t, pf);
    MovedNode(t, pf, from, pt, to, ino, ParentOf(u, d));
    forall n | n in SubDirs(u, d)
      ensures var c := u[d].entries[n]; Live(u, c) && ParentOf(u, c) == d && c != ROOT_INODE
    {
      MovedChild(t, pf, from, pt, to, ino, d, n);
    }
    forall m, n | m in SubDirs(u, d) && n in SubDirs(u, d) && u[d].entries[m] == u[d].entries[n] ensures m == n {
      MovedChild(t, pf, from, pt, to, ino, d, m);
      MovedChild(t, pf, from, pt, to, ino, d, n);
    }
  }

  lemma MovedNamed(t: Tree, pf: nat, from: Name, pt: nat, to: Name, ino: nat, d: nat)
    requires CanMove(t, pf, from, pt, to, ino) && Live(t, d) && d != ROOT_INODE
    ensures var u := Move(t, pf, from, pt, to); Live(u, d) && Live(u, ParentOf(u, d)) && IsNamed(u, d)
  {
    var u := Move(t, pf, from, pt, to);
    MovedEntries(t, pf, from, pt, to, ino, d);
    assert EntriesAreSound(t, d) && EntriesAreSound(t, pf);
    assert IsNamed(t, d);
    var p := ParentOf(u, d);
    MovedNode(t, pf, from, pt, to, ino, d);
    MovedNode(t, pf, from, pt, to, ino, p);
    MovedSubDirs(t, pf, from, pt, to, ino, p);
    if d == ino {
      assert ParentOf(t, d) == pf;
      assert p == pt;
      assert to in SubDirs(u, p) && u[p].entries[to] == d;
    } else {
      assert p == ParentOf(t, d);
      var n :| n in SubDirs(t, p) && t[p].entries[n] == d;
      assert !(p == pf && n == from);
      assert n in SubDirs(u, p) && u[p].entries[n] == d;
    }
  }

  lemma MovedIsSound(t: Tree, pf: nat, from: Name, pt: nat, to: Name, ino: nat)
    requires CanMove(t, pf, from, pt, to, ino)
    ensures IsSound(Move(t, pf, from, pt, to))
  {
    var u := Move(t, pf, from, pt, to);
    assert EntriesAreSound(t, pf);
    MovedNode(t, pf, from, pt, to, ino, ROOT_INODE);
    forall d | Live(u, d) ensures EntriesAreSound(u, d) && IsCounted(u, d) && (d != ROOT_INODE ==> IsNamed(u, d)) {
      MovedNode(t, pf, from, pt, to, ino, d);
      MovedEntries(t, pf, from, pt, to, ino, d);
      MovedCount(t, pf, from, pt, to, ino, d);
      if d != ROOT_INODE {
        MovedNamed(t, pf, from, pt, to, ino, d);
      }
    }
  }

  /** The ranks after the move: all directories below the moved one get larger ones. */
  ghost function MovedRank(t: Tree, rank: map<nat, nat>, ino: nat, pt: nat): map<nat, nat>
    requires IsSound(t) && IsRanked(t, rank) && Live(t, pt)
  {
    map d | d in rank :: if Live(t, d) && IsBelow(t, rank, ino, d) then rank[d] + rank[pt] + 1 else rank[d]
  }

  lemma MovedIsRanked(t: Tree, rank: map<nat, nat>, pf: nat, from: Name, pt: nat, to: Name, ino: nat)
    requires CanMove(t, pf, from, pt, to, ino) && IsRanked(t, rank)
    requires !IsBelow(t, rank, ino, pt)
    ensures IsRanked(Move(t, pf, from, pt, to), MovedRank(t, rank, ino, pt))
  {
    var u, rank' := Move(t, pf, from, pt, to), MovedRank(t, rank, ino, pt);
    assert EntriesAreSound(t, pf);
    forall d | Live(u, d)
      ensures d in rank' && (d != ROOT_INODE ==> ParentOf(u, d) in rank' && rank'[ParentOf(u, d)] < rank'[d])
    {
      MovedNode(t, pf, from, pt, to, ino, d);
      assert EntriesAreSound(t, d);
      if d != ROOT_INODE && d == ino {
        assert ParentOf(u, d) == pt;
      }
    }
  }

  /** The moved directory keeps its place among the directories below it. */
  lemma {:induction false} StillBelow(t: Tree, rank: map<nat, nat>, u: Tree, rank': map<nat, nat>, ino: nat, d: nat)
    requires IsSound(t) && IsRanked(t, rank) && Live(t, d) && Live(t, ino) && IsBelow(t, rank, ino, d)
    requires IsRanked(u, rank')
    requires forall e :: Live(t, e) ==> Live(u, e) && (e != ino ==> ParentOf(u, e) == ParentOf(t, e))
    ensures ino in rank' && d in rank' && rank'[ino] <= rank'[d]
    decreases rank[d]
  {
    if d != ino {
      assert EntriesAreSound(t, d);
      StillBelow(t, rank, u, rank', ino, ParentOf(t, d));
    }
  }

  /** The directories are still a tree after a move exactly if the new parent is not
      the moved directory or below it. */
  lemma MoveKeepsTree(t: Tree, rank: map<nat, nat>, pf: nat, from: Name, pt: nat, to: Name, ino: nat)
    requires IsSound(t) && IsRanked(t, rank) && Live(t, pf) && Live(t, pt)
    requires from in SubDirs(t, pf) && t[pf].entries[from] == ino && IsOwn(to) && to !in t[pt].entries
    ensures IsTree(Move(t, pf, from, pt, to)) <==> !IsBelow(t, rank, ino, pt)
  {
    var u := Move(t, pf, from, pt, to);
    assert EntriesAreSound(t, pf);
    assert ino != pf;
    if !IsBelow(t, rank, ino, pt) {
      MovedIsSound(t, pf, from, pt, to, ino);
      MovedIsRanked(t, rank, pf, from, pt, to, ino);
    } else if IsTree(u) {
      var rank' :| IsRanked(u, rank');
      assert pf != pt by {
        if pf == pt {
          BelowIsLower(t, rank, ino, pf);
        }
      }
      assert ParentOf(u, ino) == pt;
      StillBelow(t, rank, u, rank', ino, pt);
      assert false;
    }
  }

  /** No directory is below one of its own sub-directories. */
  lemma {:induction false} BelowIsLower(t: Tree, rank: map<nat, nat>, a: nat, d: nat)
    requires IsSound(t) && IsRanked(t, rank) && Live(t, d) && Live(t, a) && IsBelow(t, rank, a, d)
    ensures rank[a] <= rank[d]
    decreases rank[d]
  {
    if d != a {
      assert EntriesAreSound(t, d);
      BelowIsLower(t, rank, a, ParentOf(t, d));
    }
  }

  /** The check lets through exactly the moves that keep a tree, and the move of a
      directory into itself. */
  lemma CheckIsExact(t: Tree, rank: map<nat, nat>, pf: nat, from: Name, pt: nat, ino: nat)
    requires IsSound(t) && IsRanked(t, rank) && Live(t, pf) && Live(t, pt)
    requires from in SubDirs(t, pf) && t[pf].entries[from] == ino
    ensures Live(t, ParentOf(t, pt))
    ensures !IsBelow(t, rank, ino, ParentOf(t, pt)) <==> !IsBelow(t, rank, ino, pt) || ino == pt
  {
    assert EntriesAreSound(t, pt) && EntriesAreSound(t, pf);
    if ino == pt && IsBelow(t, rank, ino, ParentOf(t, pt)) {
      BelowIsLower(t, rank, ino, ParentOf(t, pt));
    }
  }

  /** The directories are the same and name each other in the same way. */
  ghost predicate SameDirs(t: Tree, u: Tree, d: nat)
    requires Live(t, d)
  {
    && d in u && u[d].isDir && Live(u, d) && ParentOf(u, d) == ParentOf(t, d) && u[d].nlink == t[d].nlink
    && DOT in u[d].entries && u[d].entries[DOT] == d
    && SubDirs(u, d) == SubDirs(t, d)
    && (forall n :: n in SubDirs(t, d) ==> u[d].entries[n] == t[d].entries[n])
    && (forall n :: n in u[d].entries ==> u[d].entries[n] in u)
  }

  /** A change to other files leaves a tree. */
  lemma SameDirsIsTree(t: Tree, u: Tree, rank: map<nat, nat>)
    requires IsSound(t) && IsRanked(t, rank)
    requires forall d :: Live(u, d) ==> Live(t, d)
    requires forall d :: Live(t, d) ==> SameDirs(t, u, d)
    ensures IsSound(u) && IsRanked(u, rank)
  {
    forall d | Live(u, d) ensures EntriesAreSound(u, d) && IsCounted(u, d) && (d != ROOT_INODE ==> IsNamed(u, d)) {
      assert SameDirs(t, u, d) && EntriesAreSound(t, d) && IsCounted(t, d);
      if d != ROOT_INODE {
        assert EntriesAreSound(t, d) && IsNamed(t, d);
        var p := ParentOf(t, d);
        var n :| n in SubDirs(t, p) && t[p].entries[n] == d;
        assert SameDirs(t, u, p);
        assert n in SubDirs(u, p) && u[p].entries[n] == d;
      }
    }
  }

  /** A node where at most entries for non-directories differ. */
  lemma SameDirsAt(t: Tree, u: Tree, d: nat)
    requires IsSound(t) && Live(t, d) && d in u && u[d].isDir && u[d].nlink == t[d].nlink
    requires t.Keys <= u.Keys && forall i :: i in t ==> u[i].isDir == t[i].isDir
    requires forall n :: n in u[d].entries ==> u[d].entries[n] in u
    requires forall n :: n in t[d].entries && (!IsOwn(n) || (t[d].entries[n] in t && t[t[d].entries[n]].isDir)) ==>
               n in u[d].entries && u[d].entries[n] == t[d].entries[n]
    requires forall n :: n in u[d].entries && IsOwn(n) && u[u[d].entries[n]].isDir ==>
               n in t[d].entries && u[d].entries[n] == t[d].entries[n]
    ensures SameDirs(t, u, d)
  {
    assert EntriesAreSound(t, d);
  }

  lemma FileMovedAt(t: Tree, pf: nat, from: Name, pt: nat, to: Name, d: nat)
    requires IsSound(t) && Live(t, pf) && Live(t, pt) && Live(t, d)
    requires IsOwn(from) && from in t[pf].entries && from !in SubDirs(t, pf) && IsOwn(to) && to !in t[pt].entries
    ensures SameDirs(t, Move(t, pf, from, pt, to), d)
  {
    assert EntriesAreSound(t, pf) && EntriesAreSound(t, d);
    var u, ino := Move(t, pf, from, pt, to), t[pf].entries[from];
    assert u.Keys == t.Keys && forall i :: i in t ==> u[i].isDir == t[i].isDir;
    assert u[d].nlink == t[d].nlink;
    assert u[d].entries == if d == pf && d == pt then t[d].entries[to := ino] - {from}
                           else if d == pf then t[d].entries - {from}
                           else if d == pt then t[d].entries[to := ino]
                           else t[d].entries;
    SameDirsAt(t, u, d);
  }

  /** Moving what is not a directory changes nothing about the directories. */
  lemma FileMoveKeepsTree(t: Tree, rank: map<nat, nat>, pf: nat, from: Name, pt: nat, to: Name)
    requires IsSound(t) && IsRanked(t, rank) && Live(t, pf) && Live(t, pt)
    requires IsOwn(from) && from in t[pf].entries && from !in SubDirs(t, pf) && IsOwn(to) && to !in t[pt].entries
    ensures IsTree(Move(t, pf, from, pt, to))
  {
    var u := Move(t, pf, from, pt, to);
    assert EntriesAreSound(t, pf);
    forall d | Live(t, d) ensures SameDirs(t, u, d) {
      FileMovedAt(t, pf, from, pt, to, d);
    }
    forall d | Live(u, d) ensures Live(t, d) {
      assert IsOwn(to) && d in t && t[d].isDir;
    }
    SameDirsIsTree(t, u, rank);
  }

  // ---------- removing and creating ----------

  /** A directory has no entries but "." and "..". */
  predicate IsEmptyDir(t: Tree, d: nat)
    requires d in t
  {
    t[d].entries.Keys == {DOT, DOTDOT}
  }

  /** What emptying a directory, or taking a link from another file, makes of its node. */
  function Unlinked(node: Node): Node
  {
    if node.isDir then Node(true, 0, map[]) else node.(nlink := if node.nlink > 0 then node.nlink - 1 else 0)
  }

  /** Takes entry `name` out of `d`: a directory is emptied, anything else loses a link. */
  function Unlink(t: Tree, d: nat, name: Name): Tree
    requires d in t && name in t[d].entries && t[d].entries[name] in t && t[d].entries[name] != d
  {
    var c := t[d].entries[name];
    RemoveName(t[c := Unlinked(t[c])], d, name)
  }

  lemma RemovedSubDirs(t: Tree, d: nat, name: Name, c: nat, e: nat)
    requires IsSound(t) && Live(t, d) && name in SubDirs(t, d) && c == t[d].entries[name] && c != d && Live(t, e)
    requires e != c
    ensures var u := Unlink(t, d, name);
            && u.Keys == t.Keys && Live(u, e)
            && SubDirs(u, e) == SubDirs(t, e) - (if e == d then {name} else {})
            && u[e].entries == (if e == d then t[e].entries - {name} else t[e].entries)
            && u[e].nlink == if e == d then (t[e].nlink - 1) % 0x1_0000 else t[e].nlink
  {
  }

  lemma ParentIsNotEmpty(t: Tree, e: nat)
    requires IsSound(t) && Live(t, e)
    ensures Live(t, ParentOf(t, e)) && (e != ROOT_INODE ==> !IsEmptyDir(t, ParentOf(t, e)))
  {
    assert EntriesAreSound(t, e);
    if e != ROOT_INODE {
      assert EntriesAreSound(t, e) && IsNamed(t, e);
      var n :| n in SubDirs(t, ParentOf(t, e)) && t[ParentOf(t, e)].entries[n] == e;
      assert IsOwn(n) && n in t[ParentOf(t, e)].entries.Keys;
    }
  }

  /** The removed directory `c` was empty, and `name` was its entry in `d`. */
  ghost predicate CanRemove(t: Tree, d: nat, name: Name, c: nat)
  {
    && IsSound(t) && Live(t, d) && name in SubDirs(t, d) && c == t[d].entries[name]
    && Live(t, c) && c != d && c != ROOT_INODE && IsEmptyDir(t, c)
  }

  lemma RemovedEntries(t: Tree, d: nat, name: Name, c: nat, e: nat)
    requires CanRemove(t, d, name, c) && Live(t, e) && e != c
    ensures var u := Unlink(t, d, name); Live(u, e) && EntriesAreSound(u, e)
  {
    var u := Unlink(t, d, name);
    RemovedSubDirs(t, d, name, c, e);
    assert EntriesAreSound(t, e);
    ParentIsNotEmpty(t, e);
    RemovedSubDirs(t, d, name, c, ParentOf(t, e));
    forall n | n in SubDirs(u, e)
      ensures var b := u[e].entries[n]; Live(u, b) && ParentOf(u, b) == e && b != ROOT_INODE
    {
      RemovedChild(t, d, name, c, e, n);
    }
  }

  lemma RemovedChild(t: Tree, d: nat, name: Name, c: nat, e: nat, n: Name)
    requires CanRemove(t, d, name, c) && Live(t, e) && e != c && n in SubDirs(t, e) && !(e == d && n == name)
    ensures var u, b := Unlink(t, d, name), t[e].entries[n]; Live(u, b) && ParentOf(u, b) == e && b != ROOT_INODE
  {
    var b := t[e].entries[n];
    assert EntriesAreSound(t, e) && EntriesAreSound(t, d);
    assert b != c;
    RemovedSubDirs(t, d, name, c, b);
  }

  lemma RemovedCount(t: Tree, d: nat, name: Name, c: nat, e: nat)
    requires CanRemove(t, d, name, c) && Live(t, e) && e != c
    ensures IsCounted(Unlink(t, d, name), e)
  {
    RemovedSubDirs(t, d, name, c, e);
    assert IsCounted(t, e);
    if e == d {
      CountChange(SubDirs(t, e), name, name, true, false);
      assert SubDirs(t, e) + {} - {name} == SubDirs(t, e) - {name};
      CountWraps(|SubDirs(t, e)|, -1);
    }
  }

  lemma RemovedNamed(t: Tree, d: nat, name: Name, c: nat, e: nat)
    requires CanRemove(t, d, name, c) && Live(t, e) && e != c && e != ROOT_INODE
    ensures var u := Unlink(t, d, name); Live(u, e) && Live(u, ParentOf(u, e)) && IsNamed(u, e)
  {
    var u, p := Unlink(t, d, name), ParentOf(t, e);
    RemovedSubDirs(t, d, name, c, e);
    ParentIsNotEmpty(t, e);
    RemovedSubDirs(t, d, name, c, p);
    assert EntriesAreSound(t, e) && IsNamed(t, e);
    var n :| n in SubDirs(t, p) && t[p].entries[n] == e;
    assert n in SubDirs(u, p) && u[p].entries[n] == e;
  }

  lemma RemovedIsSound(t: Tree, d: nat, name: Name, c: nat)
    requires CanRemove(t, d, name, c)
    ensures IsSound(Unlink(t, d, name))
  {
    var u := Unlink(t, d, name);
    RemovedSubDirs(t, d, name, c, ROOT_INODE);
    forall e | Live(u, e) ensures EntriesAreSound(u, e) && IsCounted(u, e) && (e != ROOT_INODE ==> IsNamed(u, e)) {
      assert Live(t, e) && e != c;
      RemovedEntries(t, d, name, c, e);
      RemovedCount(t, d, name, c, e);
      if e != ROOT_INODE {
        RemovedNamed(t, d, name, c, e);
      }
    }
  }

  lemma FileUnlinkedAt(t: Tree, d: nat, name: Name, e: nat)
    requires IsSound(t) && Live(t, d) && Live(t, e) && IsOwn(name) && name in t[d].entries
    requires t[d].entries[name] in t && !t[t[d].entries[name]].isDir
    ensures SameDirs(t, Unlink(t, d, name), e)
  {
    var u, c := Unlink(t, d, name), t[d].entries[name];
    assert EntriesAreSound(t, e) && EntriesAreSound(t, d);
    assert u.Keys == t.Keys && forall i :: i in t ==> u[i].isDir == t[i].isDir;
    assert u[e].nlink == t[e].nlink;
    assert u[e].entries == if e == d then t[e].entries - {name} else t[e].entries;
    SameDirsAt(t, u, e);
  }

  /** Unlinking a file, or a directory without entries of its own, leaves a tree. */
  lemma UnlinkKeepsTree(t: Tree, rank: map<nat, nat>, d: nat, name: Name)
    requires IsSound(t) && IsRanked(t, rank) && Live(t, d) && IsOwn(name) && name in t[d].entries
    requires t[d].entries[name] in t && t[t[d].entries[name]].isDir ==> IsEmptyDir(t, t[d].entries[name])
    ensures t[d].entries[name] in t && t[d].entries[name] != d
    ensures IsSound(Unlink(t, d, name)) && IsRanked(Unlink(t, d, name), rank)
  {
    assert EntriesAreSound(t, d);
    var c := t[d].entries[name];
    if t[c].isDir {
      assert name in SubDirs(t, d) && c != ROOT_INODE && ParentOf(t, c) == d;
      assert c != d;
      RemovedIsSound(t, d, name, c);
      RemovedIsRanked(t, rank, d, name, c);
    } else {
      var u := Unlink(t, d, name);
      forall e | Live(t, e) ensures SameDirs(t, u, e) {
        FileUnlinkedAt(t, d, name, e);
      }
      SameDirsIsTree(t, u, rank);
    }
  }

  lemma RemovedIsRanked(t: Tree, rank: map<nat, nat>, d: nat, name: Name, c: nat)
    requires IsSound(t) && Live(t, d) && name in SubDirs(t, d) && c == t[d].entries[name] && c != d && IsRanked(t, rank)
    ensures IsRanked(Unlink(t, d, name), rank)
  {
    var u := Unlink(t, d, name);
    forall e | Live(u, e)
      ensures e in rank && (e != ROOT_INODE ==> ParentOf(u, e) in rank && rank[ParentOf(u, e)] < rank[e])
    {
      assert Live(t, e) && e != c;
      RemovedSubDirs(t, d, name, c, e);
    }
  }

  /** A new directory whose parent is `d`, or a new file of another kind. */
  function NewNode(ino: nat, d: nat, isDir: bool): Node
  {
    if isDir then Node(true, 2, map[DOT := ino, DOTDOT := d]) else Node(false, 1, map[])
  }

  /** A new inode, with its entry in `d`. */
  function Create(t: Tree, d: nat, name: Name, ino: nat, isDir: bool): Tree
    requires d in t && d != ino
  {
    AddName(t[ino := NewNode(ino, d, isDir)], d, name, ino)
  }

  lemma CreatedAt(t: Tree, d: nat, name: Name, ino: nat, isDir: bool, e: nat)
    requires IsSound(t) && Live(t, d) && IsOwn(name) && name !in t[d].entries && ino !in t && Live(t, e)
    ensures var u := Create(t, d, name, ino, isDir);
            && Live(u, e) && ParentOf(u, e) == ParentOf(t, e) && ino !in t[e].entries.Values
            && u[e].entries == (if e == d then t[e].entries[name := ino] else t[e].entries)
            && SubDirs(u, e) == SubDirs(t, e) + (if e == d && isDir then {name} else {})
            && u[e].nlink == if e == d && isDir then (t[e].nlink + 1) % 0x1_0000 else t[e].nlink
  {
    assert EntriesAreSound(t, e);
  }

  ghost predicate CanCreate(t: Tree, d: nat, name: Name, ino: nat)
  {
    IsSound(t) && Live(t, d) && IsOwn(name) && name !in t[d].entries && ino !in t
  }

  lemma CreatedEntries(t: Tree, d: nat, name: Name, ino: nat, isDir: bool, e: nat)
    requires CanCreate(t, d, name, ino) && Live(t, e)
    ensures var u := Create(t, d, name, ino, isDir); Live(u, e) && EntriesAreSound(u, e)
  {
    var u := Create(t, d, name, ino, isDir);
    CreatedAt(t, d, name, ino, isDir, e);
    assert EntriesAreSound(t, e);
    CreatedAt(t, d, name, ino, isDir, ParentOf(t, e));
    forall n | n in SubDirs(t, e)
      ensures var b := t[e].entries[n]; Live(u, b) && ParentOf(u, b) == e && b != ROOT_INODE && b != ino
    {
      CreatedAt(t, d, name, ino, isDir, t[e].entries[n]);
    }
  }

  lemma CreatedCount(t: Tree, d: nat, name: Name, ino: nat, isDir: bool, e: nat)
    requires CanCreate(t, d, name, ino) && Live(t, e)
    ensures e in Create(t, d, name, ino, isDir) && IsCounted(Create(t, d, name, ino, isDir), e)
  {
    CreatedAt(t, d, name, ino, isDir, e);
    assert IsCounted(t, e);
    if e == d && isDir {
      CountChange(SubDirs(t, e), name, name, false, true);
      assert SubDirs(t, e) + {name} - {} == SubDirs(t, e) + {name};
      CountWraps(|SubDirs(t, e)|, 1);
    }
  }

  lemma CreatedIsSoundAt(t: Tree, d: nat, name: Name, ino: nat, isDir: bool, e: nat)
    requires CanCreate(t, d, name, ino) && Live(t, e)
    ensures var u := Create(t, d, name, ino, isDir);
            Live(u, e) && EntriesAreSound(u, e) && IsCounted(u, e) && (e != ROOT_INODE ==> IsNamed(u, e))
  {
    var u := Create(t, d, name, ino, isDir);
    CreatedAt(t, d, name, ino, isDir, e);
    CreatedEntries(t, d, name, ino, isDir, e);
    CreatedCount(t, d, name, ino, isDir, e);
    if e != ROOT_INODE {
      assert EntriesAreSound(t, e) && IsNamed(t, e);
      var p := ParentOf(t, e);
      CreatedAt(t, d, name, ino, isDir, p);
      var n :| n in SubDirs(t, p) && t[p].entries[n] == e;
      assert n in SubDirs(u, p) && u[p].entries[n] == e;
    }
  }

  /** The new directory itself. */
  lemma CreatedNode(t: Tree, d: nat, name: Name, ino: nat)
    requires CanCreate(t, d, name, ino)
    ensures var u := Create(t, d, name, ino, true);
            Live(u, ino) && ParentOf(u, ino) == d && EntriesAreSound(u, ino) && IsCounted(u, ino) && IsNamed(u, ino)
  {
    var u := Create(t, d, name, ino, true);
    CreatedAt(t, d, name, ino, true, d);
    assert SubDirs(u, ino) == {};
    assert name in SubDirs(u, d) && u[d].entries[name] == ino;
  }

  lemma CreatedIsRanked(t: Tree, rank: map<nat, nat>, d: nat, name: Name, ino: nat, isDir: bool)
    requires CanCreate(t, d, name, ino) && IsRanked(t, rank)
    ensures d in rank && IsRanked(Create(t, d, name, ino, isDir), rank[ino := rank[d] + 1])
  {
    var u, rank' := Create(t, d, name, ino, isDir), rank[ino := rank[d] + 1];
    forall e | Live(u, e)
      ensures e in rank' && (e != ROOT_INODE ==> ParentOf(u, e) in rank' && rank'[ParentOf(u, e)] < rank'[e])
    {
      if e != ino {
        CreatedAt(t, d, name, ino, isDir, e);
        assert EntriesAreSound(t, e);
      }
    }
  }

  /** A new directory or file leaves a tree. */
  lemma CreateKeepsTree(t: Tree, d: nat, name: Name, ino: nat, isDir: bool)
    requires IsTree(t) && Live(t, d) && IsOwn(name) && name !in t[d].entries && ino !in t
    ensures IsTree(Create(t, d, name, ino, isDir))
  {
    var rank :| IsRanked(t, rank);
    var u := Create(t, d, name, ino, isDir);
    forall e | Live(u, e) ensures EntriesAreSound(u, e) && IsCounted(u, e) && (e != ROOT_INODE ==> IsNamed(u, e)) {
      if e == ino {
        CreatedNode(t, d, name, ino);
      } else {
        CreatedIsSoundAt(t, d, name, ino, isDir, e);
      }
    }
    CreatedAt(t, d, name, ino, isDir, ROOT_INODE);
    CreatedIsRanked(t, rank, d, name, ino, isDir);
  }

  /** What creating a file achieves.  An inode number may have been offered, the mode may
      be one of a known kind, there may be a `block` for the entries of a new directory,
      and there may be `room` for the entry of the file. */
  ghost predicate CreateOutcome(t: Tree, u: Tree, d: nat, name: Name, offered: Status, ino: nat, isKnown: bool,
                                isDir: bool, block: bool, room: bool, error: Status)
    requires d in t && (offered == Ok ==> ino != d)
  {
    if name in t[d].entries then error == EEXIST && u == t
    else if offered != Ok then error == offered && u == t
    else if !isKnown then error == EINVAL && u == t
    else if isDir && !block then error == ENOSPC && u == t
    else if !room then error == ENOSPC && u == t[ino := NewNode(ino, d, isDir)]
    else error == Ok && u == Create(t, d, name, ino, isDir)
  }

  /** A new directory gets its entries, but not an entry in its parent. */
  predicate LosesDirectory(t: Tree, d: nat, name: Name, offered: Status, isKnown: bool, isDir: bool, block: bool,
                           room: bool)
    requires d in t
  {
    name !in t[d].entries && offered == Ok && isKnown && isDir && block && !room
  }

  /** Creating keeps a tree, whether it succeeds or not, unless there was a block for a
      new directory but no room for its entry: then a directory without a name is left. */
  lemma CreationKeepsTree(t: Tree, u: Tree, d: nat, name: Name, offered: Status, ino: nat, isKnown: bool, isDir: bool,
                          block: bool, room: bool, error: Status)
    requires IsTree(t) && Live(t, d) && (offered == Ok ==> ino !in t)
    requires CreateOutcome(t, u, d, name, offered, ino, isKnown, isDir, block, room, error)
    ensures IsTree(u) <==> !LosesDirectory(t, d, name, offered, isKnown, isDir, block, room)
  {
    assert EntriesAreSound(t, d);
    if error == Ok {
      CreateKeepsTree(t, d, name, ino, isDir);
    } else if u != t {
      NamelessNode(t, u, d, ino, isDir);
    }
  }

  /** An inode without an entry: a file does no harm, a directory is not in the tree. */
  lemma NamelessNode(t: Tree, u: Tree, d: nat, ino: nat, isDir: bool)
    requires IsTree(t) && Live(t, d) && ino !in t && u == t[ino := NewNode(ino, d, isDir)]
    ensures IsTree(u) <==> !isDir
  {
    if isDir {
      assert EntriesAreSound(t, d);
      assert Live(u, ino) && ino != ROOT_INODE;
      assert !IsNamed(u, ino);
    } else {
      var rank :| IsRanked(t, rank);
      forall e | Live(t, e) ensures SameDirs(t, u, e) {
        assert EntriesAreSound(t, e);
        SameDirsAt(t, u, e);
      }
      SameDirsIsTree(t, u, rank);
    }
  }

  // ---------- renaming ----------

  /** Whether the file a name stands for, if there is one, may be removed. */
  predicate IsRemovable(t: Tree, d: nat, name: Name)
    requires d in t
  {
    name in t[d].entries && t[d].entries[name] in t && t[t[d].entries[name]].isDir ==>
      IsOwn(name) && IsEmptyDir(t, t[d].entries[name])
  }

  /** The tree after the file a name stands for, if there is one, is removed. */
  function Cleared(t: Tree, d: nat, name: Name): Tree
    requires d in t
  {
    if name in t[d].entries && t[d].entries[name] in t && t[d].entries[name] != d then Unlink(t, d, name) else t
  }

  /** Only own names are removable, or names there is no entry for. */
  lemma RemovableIsOwn(t: Tree, pt: nat, to: Name)
    requires IsSound(t) && Live(t, pt) && IsRemovable(t, pt, to)
    ensures IsOwn(to)
  {
    assert EntriesAreSound(t, pt);
    assert t[t[pt].entries[DOT]].isDir && t[t[pt].entries[DOTDOT]].isDir;
  }

  /** Clearing the way leaves a tree. */
  lemma ClearedIsTree(t: Tree, rank: map<nat, nat>, pt: nat, to: Name)
    requires IsSound(t) && IsRanked(t, rank) && Live(t, pt) && IsRemovable(t, pt, to)
    ensures to in t[pt].entries ==> t[pt].entries[to] in t && t[pt].entries[to] != pt
    ensures var u := Cleared(t, pt, to);
            && IsSound(u) && IsRanked(u, rank) && Live(u, pt) && Live(u, ParentOf(u, pt)) && to !in u[pt].entries
            && u.Keys == t.Keys && forall i :: i in t ==> u[i].isDir == t[i].isDir
  {
    RemovableIsOwn(t, pt, to);
    assert EntriesAreSound(t, pt);
    if to in t[pt].entries {
      UnlinkKeepsTree(t, rank, pt, to);
    }
    assert EntriesAreSound(Cleared(t, pt, to), pt);
  }

  /** Clearing the way leaves an entry alone, unless it is the one to be cleared, or one of
      the directory to be cleared. */
  lemma ClearedEntries(t: Tree, pf: nat, from: Name, pt: nat, to: Name)
    requires IsSound(t) && Live(t, pf) && Live(t, pt) && IsRemovable(t, pt, to) && from in t[pf].entries
    ensures t[pf].entries[from] in t
    ensures var u := Cleared(t, pt, to);
            && pf in u && u[pf].isDir
            && (from in u[pf].entries ==> u[pf].entries[from] == t[pf].entries[from])
            && (Live(u, pf) ==> from in u[pf].entries || (pf == pt && from == to))
            && (!Live(u, pf) ==>
                  u[pf].entries == map[] && to in t[pt].entries && t[pt].entries[to] == pf && !IsOwn(from))
  {
    RemovableIsOwn(t, pt, to);
    assert EntriesAreSound(t, pf) && EntriesAreSound(t, pt);
    assert from in t[pf].entries.Keys;
  }

  /** Whether the old entry is there when the new one has been added. */
  predicate StillThere(t: Tree, pf: nat, from: Name, pt: nat, to: Name, ino: nat)
    requires pf in t && pt in t
  {
    from in AddName(t, pt, to, ino)[pf].entries
  }

  /** The new entry is added; then the old one is removed, if it is there, and a directory
      that changed its parent gets a new "..". */
  function Relinked(t: Tree, pf: nat, from: Name, pt: nat, to: Name, ino: nat): Tree
    requires pf in t && pt in t
  {
    var t2 := AddName(t, pt, to, ino);
    if from !in t2[pf].entries then t2
    else
      var t3 := RemoveName(t2, pf, from);
      if ino in t && t[ino].isDir && pf != pt then ReplaceName(t3, ino, DOTDOT, pt) else t3
  }

  /** For an entry that is there this is a move. */
  lemma RelinkedIsMove(t: Tree, pf: nat, from: Name, pt: nat, to: Name, ino: nat)
    requires pf in t && pt in t && from in t[pf].entries && t[pf].entries[from] == ino && (pf == pt ==> from != to)
    ensures StillThere(t, pf, from, pt, to, ino) && Relinked(t, pf, from, pt, to, ino) == Move(t, pf, from, pt, to)
  {
  }

  /** An entry that is added and removed leaves nothing. */
  lemma RelinkedSame(t: Tree, pt: nat, to: Name, ino: nat)
    requires IsSound(t) && Live(t, pt) && to !in t[pt].entries
    ensures StillThere(t, pt, to, pt, to, ino) && Relinked(t, pt, to, pt, to, ino) == t
  {
    assert IsCounted(t, pt);
    assert t[pt].entries[to := ino] - {to} == t[pt].entries;
    assert ((t[pt].nlink + 1) % 0x1_0000 - 1) % 0x1_0000 == t[pt].nlink;
    assert t == t[pt := t[pt]];
  }

  /** What renaming an entry achieves, if there is or is not `room` for one more entry
      in the new directory.  The room is not needed if another entry has gone. */
  ghost predicate RenameOutcome(t: Tree, rank: map<nat, nat>, u: Tree, pf: nat, from: Name, pt: nat, to: Name,
                                room: bool, error: Status)
    requires IsSound(t) && IsRanked(t, rank) && Live(t, pf) && Live(t, pt)
  {
    if from !in t[pf].entries then error == ENOENT && u == t
    else if !IsRemovable(t, pt, to) then error == (if IsOwn(to) then ENOTEMPTY else EINVAL) && u == t
    else
      ClearedIsTree(t, rank, pt, to);
      ClearedEntries(t, pf, from, pt, to);
      var t1, ino := Cleared(t, pt, to), t[pf].entries[from];
      if IsRefused(t1, rank, pt, ino) then error == EINVAL && u == t1
      else if !room && to !in t[pt].entries then error == ENOSPC && u == t1
      else
        && error == (if StillThere(t1, pf, from, pt, to, ino) then Ok else ENOENT)
        && u == Relinked(t1, pf, from, pt, to, ino)
  }

  /** The check refuses to move directory `ino` to `pt`. */
  ghost predicate IsRefused(t: Tree, rank: map<nat, nat>, pt: nat, ino: nat)
    requires IsSound(t) && IsRanked(t, rank) && Live(t, pt) && ino in t
  {
    assert EntriesAreSound(t, pt);
    t[ino].isDir && IsBelow(t, rank, ino, ParentOf(t, pt))
  }

  /** A directory is to become an entry of itself, and nothing else is in the way. */
  predicate MovesIntoItself(t: Tree, pf: nat, from: Name, pt: nat, to: Name, room: bool)
    requires pf in t && pt in t
  {
    && IsOwn(from) && from in t[pf].entries && t[pf].entries[from] == pt
    && IsRemovable(t, pt, to) && (room || to in t[pt].entries)
  }

  /** Entry "." or ".." is to be renamed, and the check does not refuse it. */
  ghost predicate MovesDots(t: Tree, rank: map<nat, nat>, pf: nat, from: Name, pt: nat, to: Name, room: bool)
    requires IsSound(t) && IsRanked(t, rank) && Live(t, pf) && Live(t, pt)
  {
    && !IsOwn(from) && from in t[pf].entries && IsRemovable(t, pt, to) && (room || to in t[pt].entries)
    && (ClearedIsTree(t, rank, pt, to);
        ClearedEntries(t, pf, from, pt, to);
        !IsRefused(Cleared(t, pt, to), rank, pt, t[pf].entries[from]))
  }

  /** The directory of entry "." or ".." loses it: that leaves no tree. */
  lemma DotMoveBreaksTree(t: Tree, rank: map<nat, nat>, pf: nat, from: Name, pt: nat, to: Name, ino: nat)
    requires IsSound(t) && IsRanked(t, rank)
    requires Live(t, pf) && Live(t, pt) && !IsOwn(from) && from in t[pf].entries && t[pf].entries[from] == ino
    requires IsOwn(to) && to !in t[pt].entries && ino != ROOT_INODE
    ensures !IsTree(Move(t, pf, from, pt, to))
  {
    var u := Move(t, pf, from, pt, to);
    assert EntriesAreSound(t, pf);
    if from == DOT {
      assert Live(u, pf) && DOT !in u[pf].entries;
      assert !EntriesAreSound(u, pf);
    } else {
      var p := ParentOf(t, pf);
      assert p == ino && pf != ROOT_INODE && IsNamed(t, pf) && EntriesAreSound(t, p);
      var n :| n in SubDirs(t, p) && t[p].entries[n] == pf;
      assert p != pf;
      assert Live(u, p) && !Live(u, pf) && n in SubDirs(u, p) && u[p].entries[n] == pf;
      assert !EntriesAreSound(u, p);
    }
  }

  /** The directory of entry "." or ".." has been removed: the new entry leaves no tree. */
  lemma GoneMoveBreaksTree(t: Tree, rank: map<nat, nat>, pf: nat, pt: nat, to: Name, ino: nat)
    requires IsSound(t) && IsRanked(t, rank) && Live(t, pt) && pf in t && t[pf].isDir && !Live(t, pf) && ino in t
    requires IsOwn(to) && to !in t[pt].entries && (ino == pf || ino == pt)
    ensures !IsTree(AddName(t, pt, to, ino))
  {
    var u := AddName(t, pt, to, ino);
    assert t[ino].isDir && to in SubDirs(u, pt) && Live(u, pt);
    assert !EntriesAreSound(u, pt);
  }

  /** Every directory is below the root. */
  lemma {:induction false} RootIsAbove(t: Tree, rank: map<nat, nat>, d: nat)
    requires IsSound(t) && IsRanked(t, rank) && Live(t, d)
    ensures IsBelow(t, rank, ROOT_INODE, d)
    decreases rank[d]
  {
    if d != ROOT_INODE {
      assert EntriesAreSound(t, d);
      RootIsAbove(t, rank, ParentOf(t, d));
    }
  }

  lemma NotRefusedIsNotRoot(t: Tree, rank: map<nat, nat>, pt: nat, ino: nat)
    requires IsSound(t) && IsRanked(t, rank) && Live(t, pt) && ino in t && t[ino].isDir && !IsRefused(t, rank, pt, ino)
    ensures ino != ROOT_INODE
  {
    assert EntriesAreSound(t, pt);
    RootIsAbove(t, rank, ParentOf(t, pt));
  }

  /** Where the renamed entry has an own name. */
  lemma OwnRenameKeepsTree(t: Tree, rank: map<nat, nat>, pf: nat, from: Name, pt: nat, to: Name, ino: nat)
    requires IsSound(t) && IsRanked(t, rank) && Live(t, pf) && Live(t, pt) && IsOwn(from) && IsOwn(to)
    requires from in t[pf].entries && t[pf].entries[from] == ino && to !in t[pt].entries && ino in t
    requires !IsRefused(t, rank, pt, ino)
    ensures IsTree(Relinked(t, pf, from, pt, to, ino)) <==> ino != pt
  {
    RelinkedIsMove(t, pf, from, pt, to, ino);
    if t[ino].isDir {
      CheckIsExact(t, rank, pf, from, pt, ino);
      MoveKeepsTree(t, rank, pf, from, pt, to, ino);
    } else {
      FileMoveKeepsTree(t, rank, pf, from, pt, to);
    }
  }

  /** Where it is "." or "..". */
  lemma DotRenameBreaksTree(t: Tree, rank: map<nat, nat>, pf: nat, from: Name, pt: nat, to: Name)
    requires IsSound(t) && IsRanked(t, rank) && Live(t, pf) && Live(t, pt) && MovesDots(t, rank, pf, from, pt, to, true)
    ensures var t1, ino := Cleared(t, pt, to), t[pf].entries[from];
            pf in t1 && pt in t1 && !IsTree(Relinked(t1, pf, from, pt, to, ino))
  {
    RemovableIsOwn(t, pt, to);
    ClearedIsTree(t, rank, pt, to);
    ClearedEntries(t, pf, from, pt, to);
    var t1, ino := Cleared(t, pt, to), t[pf].entries[from];
    assert EntriesAreSound(t, pf) && EntriesAreSound(t, pt);
    NotRefusedIsNotRoot(t1, rank, pt, ino);
    if Live(t1, pf) {
      RelinkedIsMove(t1, pf, from, pt, to, ino);
      DotMoveBreaksTree(t1, rank, pf, from, pt, to, ino);
    } else {
      assert to in SubDirs(t, pt) && ParentOf(t, pf) == pt;
      GoneMoveBreaksTree(t1, rank, pf, pt, to, ino);
    }
  }

  /** Renaming keeps a tree, whether it succeeds or not, unless a directory is moved
      directly into itself, or "." or ".." is renamed: neither is refused as it should
      be, and the result is no tree. */
  lemma RenameKeepsTree(t: Tree, rank: map<nat, nat>, u: Tree, pf: nat, from: Name, pt: nat, to: Name, room: bool,
                        error: Status)
    requires IsSound(t) && IsRanked(t, rank) && Live(t, pf) && Live(t, pt)
    requires RenameOutcome(t, rank, u, pf, from, pt, to, room, error)
    ensures IsTree(u) <==> !MovesIntoItself(t, pf, from, pt, to, room) && !MovesDots(t, rank, pf, from, pt, to, room)
  {
    if from in t[pf].entries && IsRemovable(t, pt, to) {
      RemovableIsOwn(t, pt, to);
      ClearedIsTree(t, rank, pt, to);
      ClearedEntries(t, pf, from, pt, to);
      var t1, ino := Cleared(t, pt, to), t[pf].entries[from];
      if IsRefused(t1, rank, pt, ino) {
        assert EntriesAreSound(t, pf);
        RefusedIsOther(t1, rank, pt, ino);
      } else if room || to in t[pt].entries {
        if pf == pt && from == to {
          RelinkedSame(t1, pt, to, ino);
        } else if IsOwn(from) {
          OwnRenameKeepsTree(t1, rank, pf, from, pt, to, ino);
        } else {
          DotRenameBreaksTree(t, rank, pf, from, pt, to);
        }
      }
    }
  }

  /** A directory is not above itself. */
  lemma RefusedIsOther(t: Tree, rank: map<nat, nat>, pt: nat, ino: nat)
    requires IsSound(t) && IsRanked(t, rank) && Live(t, pt) && ino in t && IsRefused(t, rank, pt, ino)
    ensures ino != pt || pt == ROOT_INODE
  {
    assert EntriesAreSound(t, pt);
    if ino == pt && pt != ROOT_INODE {
      BelowIsLower(t, rank, ino, ParentOf(t, pt));
    }
  }

  /** The root with one sub-directory. */
  const ONE_NAME: Name := [0x8100_0000, 0, 0, 0, 0, 0, 0, 0, 0, 0, 0, 0, 0, 0, 0]

  function OneSubDir(): Tree
  {
    map[ROOT_INODE := Node(true, 3, map[DOT := ROOT_INODE, DOTDOT := ROOT_INODE, ONE_NAME := 3]),
        3 := Node(true, 2, map[DOT := 3, DOTDOT := ROOT_INODE])]
  }

  lemma OneSubDirIsTree()
    ensures IsSound(OneSubDir()) && IsRanked(OneSubDir(), map[ROOT_INODE := 0, 3 := 1])
  {
    var t := OneSubDir();
    assert SubDirs(t, ROOT_INODE) == {ONE_NAME} && SubDirs(t, 3) == {};
    assert forall d :: Live(t, d) ==> d == ROOT_INODE || d == 3;
    assert EntriesAreSound(t, ROOT_INODE) && EntriesAreSound(t, 3);
    assert IsNamed(t, 3);
  }

  /** Renaming the sub-directory to an entry of itself succeeds, and leaves no tree. */
  lemma MoveIntoItselfBreaksTree(u: Tree, error: Status)
    requires IsSound(OneSubDir()) && IsRanked(OneSubDir(), map[ROOT_INODE := 0, 3 := 1])
    requires RenameOutcome(OneSubDir(), map[ROOT_INODE := 0, 3 := 1], u, ROOT_INODE, ONE_NAME, 3, ONE_NAME, true, error)
    ensures error == Ok && !IsTree(u)
  {
    var t, rank := OneSubDir(), map[ROOT_INODE := 0, 3 := 1];
    RenameKeepsTree(t, rank, u, ROOT_INODE, ONE_NAME, 3, ONE_NAME, true, error);
  }

  const OTHER_NAME: Name := [0x8200_0000, 0, 0, 0, 0, 0, 0, 0, 0, 0, 0, 0, 0, 0, 0]

  /** Renaming entry "." of the sub-directory to an entry of the root succeeds, and leaves no tree. */
  lemma RenamingDotBreaksTree(u: Tree, error: Status)
    requires IsSound(OneSubDir()) && IsRanked(OneSubDir(), map[ROOT_INODE := 0, 3 := 1])
    requires RenameOutcome(OneSubDir(), map[ROOT_INODE := 0, 3 := 1], u, 3, DOT, ROOT_INODE, OTHER_NAME, true, error)
    ensures error == Ok && !IsTree(u)
  {
    var t, rank := OneSubDir(), map[ROOT_INODE := 0, 3 := 1];
    assert Cleared(t, ROOT_INODE, OTHER_NAME) == t;
    assert !IsBelow(t, rank, 3, ROOT_INODE);
    RenameKeepsTree(t, rank, u, 3, DOT, ROOT_INODE, OTHER_NAME, true, error);
  }

  /** A new directory of the root for whose entry there is no room is left without a name. */
  lemma NoRoomLosesDirectory(u: Tree, error: Status)
    requires IsSound(OneSubDir()) && IsRanked(OneSubDir(), map[ROOT_INODE := 0, 3 := 1])
    requires CreateOutcome(OneSubDir(), u, ROOT_INODE, OTHER_NAME, Ok, 4, true, true, true, false, error)
    ensures error == ENOSPC && !IsTree(u)
  {
    var t, rank := OneSubDir(), map[ROOT_INODE := 0, 3 := 1];
    CreationKeepsTree(t, u, ROOT_INODE, OTHER_NAME, Ok, 4, true, true, true, false, error);
  }

  // ---------- runs ----------

  /** What removing the file with a name achieves. */
  ghost predicate DeallocateOutcome(t: Tree, u: Tree, dir: nat, name: Name, error: Status)
    requires IsTree(t) && Live(t, dir)
  {
    if name !in t[dir].entries then error == ENOENT && u == t
    else
      assert EntriesAreSound(t, dir);
      var c := t[dir].entries[name];
      if t[c].isDir && !IsOwn(name) then error == EINVAL && u == t
      else if t[c].isDir && !IsEmptyDir(t, c) then error == ENOTEMPTY && u == t
      else error == Ok && c != dir && u == Unlink(t, dir, name)
  }

  lemma RemovalKeepsTree(t: Tree, u: Tree, dir: nat, name: Name, error: Status)
    requires IsTree(t) && Live(t, dir) && DeallocateOutcome(t, u, dir, name, error)
    ensures IsTree(u)
  {
    if error == Ok {
      assert EntriesAreSound(t, dir);
      var rank :| IsRanked(t, rank);
      assert t[t[dir].entries[DOT]].isDir && t[t[dir].entries[DOTDOT]].isDir;
      UnlinkKeepsTree(t, rank, dir, name);
    }
  }

  /** A request for a change of the tree, and what it found when it was served. */
  datatype Op =
    | Creating(d: nat, name: Name, offered: Status, ino: nat, isKnown: bool, isDir: bool, block: bool, room: bool)
    | Removing(d: nat, name: Name)
    | Renaming(pf: nat, from: Name, pt: nat, to: Name, room: bool)

  /** Serving the request turns tree t into u. */
  ghost predicate IsStep(t: Tree, op: Op, error: Status, u: Tree)
    requires IsTree(t)
  {
    match op
    case Creating(d, name, offered, ino, isKnown, isDir, block, room) =>
      && Live(t, d) && (offered == Ok ==> ino !in t)
      && CreateOutcome(t, u, d, name, offered, ino, isKnown, isDir, block, room, error)
    case Removing(d, name) =>
      Live(t, d) && DeallocateOutcome(t, u, d, name, error)
    case Renaming(pf, from, pt, to, room) =>
      && Live(t, pf) && Live(t, pt)
      && exists rank :: IsRanked(t, rank) && RenameOutcome(t, rank, u, pf, from, pt, to, room, error)
  }

  /** The requests after which the directories are no tree. */
  ghost predicate Breaks(t: Tree, op: Op)
  {
    match op
    case Creating(d, name, offered, ino, isKnown, isDir, block, room) =>
      d in t && LosesDirectory(t, d, name, offered, isKnown, isDir, block, room)
    case Removing(d, name) => false
    case Renaming(pf, from, pt, to, room) =>
      && IsSound(t) && Live(t, pf) && Live(t, pt)
      && (MovesIntoItself(t, pf, from, pt, to, room) ||
          exists rank :: IsRanked(t, rank) && MovesDots(t, rank, pf, from, pt, to, room))
  }

  /** Ranks only show that going up ends; which directories are above others does not
      depend on them. */
  lemma {:induction false} BelowInAnyRank(t: Tree, rank: map<nat, nat>, rank': map<nat, nat>, a: nat, d: nat)
    requires IsSound(t) && IsRanked(t, rank) && IsRanked(t, rank') && Live(t, d)
    ensures IsBelow(t, rank, a, d) <==> IsBelow(t, rank', a, d)
    decreases rank[d]
  {
    if d != a && d != ROOT_INODE {
      assert EntriesAreSound(t, d);
      BelowInAnyRank(t, rank, rank', a, ParentOf(t, d));
    }
  }

  lemma MovesDotsInAnyRank(t: Tree, rank: map<nat, nat>, rank': map<nat, nat>, pf: nat, from: Name, pt: nat, to: Name,
                           room: bool)
    requires IsSound(t) && IsRanked(t, rank) && IsRanked(t, rank') && Live(t, pf) && Live(t, pt)
    ensures MovesDots(t, rank, pf, from, pt, to, room) <==> MovesDots(t, rank', pf, from, pt, to, room)
  {
    if from in t[pf].entries && IsRemovable(t, pt, to) {
      ClearedIsTree(t, rank, pt, to);
      ClearedIsTree(t, rank', pt, to);
      ClearedEntries(t, pf, from, pt, to);
      var t1 := Cleared(t, pt, to);
      BelowInAnyRank(t1, rank, rank', t[pf].entries[from], ParentOf(t1, pt));
    }
  }

  lemma StepKeepsTree(t: Tree, op: Op, error: Status, u: Tree)
    requires IsTree(t) && IsStep(t, op, error, u)
    ensures IsTree(u) <==> !Breaks(t, op)
  {
    match op
    case Creating(d, name, offered, ino, isKnown, isDir, block, room) =>
      CreationKeepsTree(t, u, d, name, offered, ino, isKnown, isDir, block, room, error);
    case Removing(d, name) =>
      RemovalKeepsTree(t, u, d, name, error);
    case Renaming(pf, from, pt, to, room) =>
      var rank :| IsRanked(t, rank) && RenameOutcome(t, rank, u, pf, from, pt, to, room, error);
      RenameKeepsTree(t, rank, u, pf, from, pt, to, room, error);
      forall rank' | IsRanked(t, rank')
        ensures MovesDots(t, rank', pf, from, pt, to, room) <==> MovesDots(t, rank, pf, from, pt, to, room)
      {
        MovesDotsInAnyRank(t, rank, rank', pf, from, pt, to, room);
      }
  }

  /** The trees of a run: each request turns one into the next, and none breaks it. */
  ghost predicate IsRun(ts: seq<Tree>, ops: seq<Op>, errors: seq<Status>, k: nat)
    requires |ts| == |ops| + 1 == |errors| + 1 && k <= |ops|
  {
    if k == 0 then IsTree(ts[0])
    else IsRun(ts, ops, errors, k - 1) && !Breaks(ts[k - 1], ops[k - 1])
         && (IsTree(ts[k - 1]) ==> IsStep(ts[k - 1], ops[k - 1], errors[k - 1], ts[k]))
  }

  /** After any run of creations, removals and renames the directories form a tree, and
      the link count of every directory is 2 and the number of its sub-directories. */
  lemma {:induction false} RunKeepsTree(ts: seq<Tree>, ops: seq<Op>, errors: seq<Status>, k: nat)
    requires |ts| == |ops| + 1 == |errors| + 1 && k <= |ops| && IsRun(ts, ops, errors, k)
    ensures IsTree(ts[k])
    ensures forall d :: Live(ts[k], d) ==> ts[k][d].nlink == (2 + |SubDirs(ts[k], d)|) % 0x1_0000
    decreases k
  {
    if k > 0 {
      RunKeepsTree(ts, ops, errors, k - 1);
      StepKeepsTree(ts[k - 1], ops[k - 1], errors[k - 1], ts[k]);
    }
    forall d | Live(ts[k], d) ensures ts[k][d].nlink == (2 + |SubDirs(ts[k], d)|) % 0x1_0000 {
      assert IsCounted(ts[k], d);
    }
  }
}

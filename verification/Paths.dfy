/** Normalising a path name in place. */
module Paths {

  // ---------- what a path means ----------

  /** The parts of a path between its slashes. */
  function Split(s: string): (parts: seq<string>)
    ensures |parts| > 0
  {
    if s == "" then [""]
    else
      var rest := Split(s[1..]);
      if s[0] == '/' then [""] + rest else [[s[0]] + rest[0]] + rest[1..]
  }

  /** The directory reached from `stack` by following the parts; the parent of the
      root is the root. */
  function Follow(stack: seq<string>, parts: seq<string>): seq<string>
    decreases |parts|
  {
    if parts == [] then stack
    else if parts[0] == "" || parts[0] == "." then Follow(stack, parts[1..])
    else if parts[0] == ".." then Follow(if stack == [] then [] else stack[..|stack| - 1], parts[1..])
    else Follow(stack + [parts[0]], parts[1..])
  }

  function Join(stack: seq<string>): string
  {
    if stack == [] then "" else "/" + stack[0] + Join(stack[1..])
  }

  /** The path without "//", ".", ".." and trailing slash.  What stands before the
      first slash is left alone. */
  function Normal(s: string): string
  {
    var parts := Split(s);
    if |parts| == 1 then s
    else
      var stack := Follow([], parts[1..]);
      if parts[0] == "" && stack == [] then "/" else parts[0] + Join(stack)
  }

  // ---------- splitting and following ----------

  lemma {:induction false} SplitAtSlash(u: string, v: string)
    ensures Split(u + "/" + v) == Split(u) + Split(v)
  {
    var s := u + "/" + v;
    if u == "" {
      assert s == "/" + v && s[1..] == v;
    } else {
      assert s[0] == u[0] && s[1..] == u[1..] + "/" + v;
      SplitAtSlash(u[1..], v);
    }
  }

  lemma {:induction false} SplitName(u: string)
    requires '/' !in u
    ensures Split(u) == [u]
  {
    if u != "" {
      SplitName(u[1..]);
      assert [u[0]] + u[1..] == u;
    }
  }

  lemma {:induction false} SplitHasSlash(u: string)
    requires '/' in u
    ensures |Split(u)| > 1
  {
    if u[0] != '/' {
      assert '/' in u[1..];
      SplitHasSlash(u[1..]);
    }
  }

  lemma {:induction false} FollowTwice(stack: seq<string>, p: seq<string>, q: seq<string>)
    ensures Follow(stack, p + q) == Follow(Follow(stack, p), q)
    decreases |p|
  {
    if p == [] {
      assert p + q == q;
    } else {
      assert (p + q)[0] == p[0] && (p + q)[1..] == p[1..] + q;
      var next := if p[0] == "" || p[0] == "." then stack
                  else if p[0] == ".." then (if stack == [] then [] else stack[..|stack| - 1])
                  else stack + [p[0]];
      FollowTwice(next, p[1..], q);
    }
  }

  /** Two paths with the same part before the first slash that lead to the same
      directory have the same normal form. */
  lemma SameNormal(u: string, p: seq<string>, q: seq<string>, s: string, t: string)
    requires Split(s) == Split(u) + p && Split(t) == Split(u) + q && |Split(s)| > 1 && |Split(t)| > 1
    requires |Split(u)| == 1 ==> Follow([], p) == Follow([], q)
    requires |Split(u)| > 1 ==> Follow(Follow([], Split(u)[1..]), p) == Follow(Follow([], Split(u)[1..]), q)
    ensures Normal(s) == Normal(t)
  {
    var h := Split(u);
    assert Split(s)[1..] == h[1..] + p && Split(t)[1..] == h[1..] + q;
    FollowTwice([], h[1..], p);
    FollowTwice([], h[1..], q);
    if |h| == 1 {
      assert h[1..] + p == p && h[1..] + q == q;
    }
  }

  predicate IsProper(name: string)
  {
    name != "" && name != "." && name != ".." && '/' !in name
  }

  /** "//" and "/./" may be shortened to "/". */
  lemma SkipPart(u: string, part: string, w: string)
    requires part == "" || part == "."
    ensures Normal(u + "/" + part + "/" + w) == Normal(u + "/" + w)
  {
    var s, t := u + "/" + part + "/" + w, u + "/" + w;
    assert s == u + "/" + (part + "/" + w);
    SplitAtSlash(u, part + "/" + w);
    SplitAtSlash(part, w);
    SplitName(part);
    SplitAtSlash(u, w);
    assert ([part] + Split(w))[1..] == Split(w);
    SameNormal(u, [part] + Split(w), Split(w), s, t);
  }

  /** "/name/../" may be shortened to "/". */
  lemma SkipParent(u: string, name: string, w: string)
    requires IsProper(name)
    ensures Normal(u + "/" + name + "/../" + w) == Normal(u + "/" + w)
  {
    var s, t := u + "/" + name + "/../" + w, u + "/" + w;
    assert s == u + "/" + (name + "/" + (".." + "/" + w));
    SplitAtSlash(u, name + "/" + (".." + "/" + w));
    SplitAtSlash(name, ".." + "/" + w);
    SplitAtSlash("..", w);
    SplitName(name);
    SplitName("..");
    SplitAtSlash(u, w);
    var p := [name] + ([".."] + Split(w));
    PushPop(if |Split(u)| == 1 then [] else Follow([], Split(u)[1..]), name, Split(w));
    SameNormal(u, p, Split(w), s, t);
  }

  lemma PushPop(stack: seq<string>, name: string, rest: seq<string>)
    requires IsProper(name)
    ensures Follow(stack, [name] + ([".."] + rest)) == Follow(stack, rest)
  {
    var p := [name] + ([".."] + rest);
    assert p[1..] == [".."] + rest && p[1..][1..] == rest;
    assert (stack + [name])[..|stack|] == stack;
  }

  /** At the root, "/../" may be shortened to "/". */
  lemma SkipRootParent(u: string, w: string)
    requires '/' !in u
    ensures Normal(u + "/../" + w) == Normal(u + "/" + w)
  {
    var s, t := u + "/../" + w, u + "/" + w;
    assert s == u + "/" + (".." + "/" + w);
    SplitAtSlash(u, ".." + "/" + w);
    SplitAtSlash("..", w);
    SplitName("..");
    SplitName(u);
    SplitAtSlash(u, w);
    assert ([".."] + Split(w))[1..] == Split(w);
    SameNormal(u, [".."] + Split(w), Split(w), s, t);
  }

  /** A last part "." or "" may be dropped, but for its slash when that is the first. */
  lemma DropLast(u: string, part: string)
    requires part == "" || part == "."
    ensures '/' in u ==> Normal(u + "/" + part) == Normal(u)
    ensures '/' !in u ==> Normal(u + "/" + part) == (if u == "" then "/" else u)
    ensures '/' !in u ==> Normal(u + "/") == Normal(u + "/" + part)
  {
    SplitAtSlash(u, part);
    SplitName(part);
    SplitAtSlash(u, "");
    if '/' in u {
      SplitHasSlash(u);
      assert Split(u + "/" + part) == Split(u) + [part] && Split(u) == Split(u) + [];
      FollowTwice(Follow([], Split(u)[1..]), [part], []);
      SameNormal(u, [part], [], u + "/" + part, u);
    } else {
      SplitName(u);
      assert u + "/" == u + "/" + "";
      assert Follow([], [part]) == [] && Follow([], [""]) == [];
    }
  }

  /** "/name/.." at the end may be shortened to "/". */
  lemma DropParent(u: string, name: string)
    requires IsProper(name)
    ensures Normal(u + "/" + name + "/..") == Normal(u + "/")
  {
    var s, t := u + "/" + name + "/..", u + "/";
    assert s == u + "/" + (name + "/" + "..") && t == u + "/" + "";
    SplitAtSlash(u, name + "/" + "..");
    SplitAtSlash(name, "..");
    SplitName(name);
    SplitName("..");
    SplitAtSlash(u, "");
    var stack := if |Split(u)| == 1 then [] else Follow([], Split(u)[1..]);
    PushPop(stack, name, []);
    assert [name] + ([".."] + []) == [name] + [".."];
    SameNormal(u, [name] + [".."], [""], s, t);
  }

  lemma DropRootParent(u: string)
    requires '/' !in u
    ensures Normal(u + "/..") == Normal(u + "/")
  {
    assert u + "/.." == u + "/" + ".." && u + "/" == u + "/" + "";
    SplitAtSlash(u, "..");
    SplitName("..");
    SplitName(u);
    SplitAtSlash(u, "");
    SameNormal(u, [".."], [""], u + "/..", u + "/");
  }

  // ---------- paths that need no rewriting ----------

  /** The slash at q starts one of the parts that are rewritten. */
  predicate IsRewritten(s: string, q: nat)
    requires q < |s|
  {
    s[q] == '/' &&
    (|| q + 1 == |s|
     || s[q + 1] == '/'
     || (s[q + 1] == '.' &&
         (q + 2 == |s| || s[q + 2] == '/' || (s[q + 2] == '.' && (q + 3 == |s| || s[q + 3] == '/')))))
  }

  ghost predicate IsClean(s: string)
  {
    forall q :: 0 <= q < |s| ==> !IsRewritten(s, q)
  }

  ghost predicate AreProper(parts: seq<string>)
  {
    forall i :: 0 <= i < |parts| ==> IsProper(parts[i])
  }

  lemma {:induction false} FirstPart(s: string)
    ensures var h := Split(s)[0]; |h| <= |s| && s[..|h|] == h && '/' !in h && (|h| == |s| || s[|h|] == '/')
  {
    if s != "" && s[0] != '/' {
      FirstPart(s[1..]);
      var h := Split(s[1..])[0];
      assert s[..|h| + 1] == [s[0]] + s[1..][..|h|];
    }
  }

  lemma {:induction false} CleanParts(s: string)
    requires IsClean(s)
    ensures var parts := Split(s); AreProper(parts[1..]) && parts[0] + Join(parts[1..]) == s
  {
    if s != "" {
      forall q | 0 <= q < |s[1..]| ensures !IsRewritten(s[1..], q) {
        assert !IsRewritten(s, q + 1);
      }
      var rest := Split(s[1..]);
      CleanParts(s[1..]);
      if s[0] == '/' {
        assert !IsRewritten(s, 0);
        FirstPart(s[1..]);
        assert IsProper(rest[0]);
        assert Split(s)[1..] == rest;
        assert s == "/" + s[1..];
      } else {
        assert Split(s)[1..] == rest[1..];
        assert s == [s[0]] + s[1..];
      }
    }
  }

  lemma {:induction false} FollowProper(stack: seq<string>, names: seq<string>)
    requires AreProper(names)
    ensures Follow(stack, names) == stack + names
    decreases |names|
  {
    if names == [] {
      assert stack + names == stack;
    } else {
      assert IsProper(names[0]);
      forall i | 0 <= i < |names[1..]| ensures IsProper(names[1..][i]) {
        assert IsProper(names[i + 1]);
      }
      FollowProper(stack + [names[0]], names[1..]);
      assert stack + [names[0]] + names[1..] == stack + names;
    }
  }

  /** A path with nothing to rewrite is in normal form. */
  lemma CleanIsNormal(s: string)
    requires IsClean(s) || s == "/"
    ensures Normal(s) == s
  {
    if s == "/" {
      assert s[1..] == "" && Split(s) == [""] + [""];
      assert Follow([], [""]) == [];
    } else {
      CleanParts(s);
      FollowProper([], Split(s)[1..]);
      assert [] + Split(s)[1..] == Split(s)[1..];
    }
  }

  lemma {:induction false} FollowIsProper(stack: seq<string>, parts: seq<string>)
    requires AreProper(stack) && forall i :: 0 <= i < |parts| ==> '/' !in parts[i]
    ensures AreProper(Follow(stack, parts))
    decreases |parts|
  {
    if parts != [] {
      var next := if parts[0] == "" || parts[0] == "." then stack
                  else if parts[0] == ".." then (if stack == [] then [] else stack[..|stack| - 1])
                  else stack + [parts[0]];
      FollowIsProper(next, parts[1..]);
    }
  }

  lemma {:induction false} PartsHaveNoSlash(s: string)
    ensures forall i :: 0 <= i < |Split(s)| ==> '/' !in Split(s)[i]
  {
    if s != "" {
      PartsHaveNoSlash(s[1..]);
    }
  }

  lemma {:induction false} SplitJoin(head: string, stack: seq<string>)
    requires '/' !in head && AreProper(stack)
    ensures Split(head + Join(stack)) == [head] + stack
    decreases |stack|
  {
    if stack == [] {
      assert head + Join(stack) == head;
      SplitName(head);
    } else {
      assert IsProper(stack[0]);
      forall i | 0 <= i < |stack[1..]| ensures IsProper(stack[1..][i]) {
        assert IsProper(stack[i + 1]);
      }
      assert head + Join(stack) == head + "/" + (stack[0] + Join(stack[1..]));
      SplitAtSlash(head, stack[0] + Join(stack[1..]));
      SplitName(head);
      SplitJoin(stack[0], stack[1..]);
      assert [head] + ([stack[0]] + stack[1..]) == [head] + stack;
    }
  }

  /** Normalising twice is normalising once. */
  lemma NormalTwice(s: string)
    ensures Normal(Normal(s)) == Normal(s)
  {
    var parts := Split(s);
    if |parts| > 1 {
      var stack := Follow([], parts[1..]);
      PartsHaveNoSlash(s);
      FollowIsProper([], parts[1..]);
      if parts[0] == "" && stack == [] {
        CleanIsNormal("/");
      } else {
        SplitJoin(parts[0], stack);
        FollowProper([], stack);
        assert [] + stack == stack;
        assert ([parts[0]] + stack)[1..] == stack;
      }
    }
  }

  // ---------- rewriting in place ----------

  /** The array holds the string and a terminating NUL. */
  ghost predicate Holds(path: array<char>, s: string)
    reads path
  {
    |s| < path.Length && path[..|s|] == s && path[|s|] == '\0' && '\0' !in s
  }

  /** Copies the rest of a string to an earlier place in the same array. */
  method Strcpy(path: array<char>, dst: nat, src: nat, ghost s: string)
    requires Holds(path, s) && dst <= src <= |s|
    modifies path
    ensures Holds(path, s[..dst] + s[src..])
  {
    assert forall k :: 0 <= k < |s| ==> path[k] == s[k] && s[k] in s;
    ghost var t := s[..dst] + s[src..];
    var i := 0;
    while path[src + i] != '\0'
      invariant src + i <= |s|
      invariant forall k :: 0 <= k < dst + i ==> path[k] == t[k]
      invariant forall k :: src + i <= k < path.Length ==> path[k] == old(path[k])
      decreases |s| - i
    {
      assert path[src + i] == old(path[src + i]) == s[src + i] == t[dst + i];
      path[dst + i] := path[src + i];
      i := i + 1;
    }
    assert src + i == |s|;
    path[dst + i] := '\0';
    assert path[..|t|] == t;
  }

  /** Ends a string early. */
  method Cut(path: array<char>, at: nat, ghost s: string)
    requires Holds(path, s) && at <= |s|
    modifies path
    ensures Holds(path, s[..at])
  {
    path[at] := '\0';
  }

  /** `k` is the last slash among the first n characters, -1 if there is none. */
  ghost predicate IsLastSlash(s: string, n: nat, k: int)
    requires n <= |s|
  {
    if k < 0 then k == -1 && '/' !in s[..n]
    else k < n && s[k] == '/' && '/' !in s[k + 1..n]
  }

  /** No slash among the first n characters starts something to rewrite, other than
      the slash of the path "/". */
  ghost predicate IsCleanUpTo(s: string, n: nat)
    requires n <= |s|
  {
    s == "/" || forall q :: 0 <= q < n ==> !IsRewritten(s, q)
  }

  lemma NameIsProper(s: string, p2: nat, p: nat)
    requires p2 < p < |s| && s[p2] == '/' && s[p] == '/' && '/' !in s[p2 + 1..p]
    requires !IsRewritten(s, p2)
    ensures IsProper(s[p2 + 1..p])
    ensures s[..p] == s[..p2] + "/" + s[p2 + 1..p]
  {
  }

  lemma TrailingSlash(s: string, p: nat)
    requires p > 0 && |s| == p + 1 && s[p] == '/' && IsCleanUpTo(s, p)
    ensures Normal(s) == s[..p]
  {
    var u := s[..p];
    forall q | 0 <= q < |u| ensures !IsRewritten(u, q) {
      assert !IsRewritten(s, q);
    }
    assert s == u + "/" + "";
    DropLast(u, "");
    CleanIsNormal(u);
  }

  /** Where the rest of the path is moved to, for each part that is dropped. */
  lemma Moved(s: string, p: nat, p2: int, part: string, rest: nat)
    requires p < rest < |s| && s[p] == '/' && s[rest] == '/' && s[p + 1..rest] == part
    requires part == "" || part == "." || part == ".."
    requires IsCleanUpTo(s, p) && IsLastSlash(s, p, p2)
    ensures var dst := if part == ".." && p2 >= 0 then p2 else p;
            Normal(s[..dst] + s[rest..]) == Normal(s)
  {
    var u, w := s[..p], s[rest + 1..];
    assert s == u + "/" + part + "/" + w by {
      assert s == s[..p] + s[p..p + 1] + s[p + 1..rest] + s[rest..rest + 1] + s[rest + 1..];
    }
    assert u + s[rest..] == u + "/" + w;
    if part != ".." {
      SkipPart(u, part, w);
    } else if p2 < 0 {
      assert s == u + "/../" + w;
      SkipRootParent(u, w);
    } else {
      var name := s[p2 + 1..p];
      assert !IsRewritten(s, p2);
      NameIsProper(s, p2, p);
      assert s == s[..p2] + "/" + name + "/../" + w;
      assert s[..p2] + s[rest..] == s[..p2] + "/" + w;
      SkipParent(s[..p2], name, w);
    }
  }

  /** Where the path is cut when it ends with a part that is dropped. */
  lemma Ended(s: string, p: nat, p2: int, part: string)
    requires p < |s| && s[p] == '/' && s[p + 1..] == part
    requires part == "." || part == ".."
    requires IsCleanUpTo(s, p) && IsLastSlash(s, p, p2)
    ensures var at := if p2 < 0 then p + 1 else if part == "." then p else p2 + 1;
            Normal(s[..at]) == Normal(s)
  {
    var u := s[..p];
    assert s == u + "/" + part by {
      assert s == s[..p] + s[p..p + 1] + s[p + 1..];
    }
    assert s[..p + 1] == u + "/";
    if part == "." {
      DropLast(u, ".");
      if p2 >= 0 {
        assert s[p2] == u[p2];
      }
    } else if p2 < 0 {
      assert s == u + "/..";
      DropRootParent(u);
    } else {
      var name := s[p2 + 1..p];
      assert !IsRewritten(s, p2);
      NameIsProper(s, p2, p);
      assert s == s[..p2] + "/" + name + "/.." && s[..p2 + 1] == s[..p2] + "/";
      DropParent(s[..p2], name);
    }
  }

  /** One pass over the path: rewrites the first part that can be, and tells
      whether there may be more. */
  method Pass(path: array<char>, ghost s0: string) returns (again: bool, ghost s: string)
    requires Holds(path, s0)
    modifies path
    ensures Holds(path, s) && Normal(s) == Normal(s0) && |s| <= |s0|
    ensures if again then |s| < |s0| else s == Normal(s0)
  {
    s := s0;
    var p := 0;
    var p1 := -1;
    while path[p] != '\0'
      invariant p <= |s0| && s == s0 && Holds(path, s0)
      invariant IsCleanUpTo(s0, p) && IsLastSlash(s0, p, p1)
      decreases |s0| - p
    {
      if path[p] == '/' {
        var p2 := p1;
        p1 := p;
        var done;
        done, again, s := Rewrite(path, p, p2, s0);
        if done {
          return;
        }
      }
      p := p + 1;
    }
    CleanIsNormal(s0);
    again := false;
  }

  /** Rewrites the path at the slash at `p`, if the part that starts there can be. */
  method Rewrite(path: array<char>, p: nat, p2: int, ghost s0: string)
    returns (done: bool, again: bool, ghost s: string)
    requires Holds(path, s0) && p < |s0| && s0[p] == '/'
    requires IsCleanUpTo(s0, p) && IsLastSlash(s0, p, p2)
    modifies path
    ensures Holds(path, s) && Normal(s) == Normal(s0) && |s| <= |s0|
    ensures if done then (if again then |s| < |s0| else s == Normal(s0))
            else s == s0 && (s0 == "/" || !IsRewritten(s0, p))
  {
    assert forall k :: 0 <= k < |s0| ==> path[k] == s0[k];
    done, again, s := true, true, s0;
    if path[p + 1] == '\0' && p > 0 {
      TrailingSlash(s0, p);
      NormalTwice(s0);
      Cut(path, p, s0);
      return true, false, s0[..p];
    }
    if path[p + 1] == '/' {
      Moved(s0, p, p2, "", p + 1);
      Strcpy(path, p, p + 1, s0);
      s := s0[..p] + s0[p + 1..];
      return;
    }
    if path[p + 1] == '.' {
      if path[p + 2] == '/' {
        Moved(s0, p, p2, ".", p + 2);
        Strcpy(path, p, p + 2, s0);
        s := s0[..p] + s0[p + 2..];
        return;
      }
      if path[p + 2] == '\0' {
        Ended(s0, p, p2, ".");
        var at := if p2 >= 0 then p else p + 1;
        Cut(path, at, s0);
        s := s0[..at];
        return;
      }
      if path[p + 2] == '.' {
        if path[p + 3] == '/' {
          Moved(s0, p, p2, "..", p + 3);
          var dst := if p2 >= 0 then p2 else p;
          Strcpy(path, dst, p + 3, s0);
          s := s0[..dst] + s0[p + 3..];
          return;
        }
        if path[p + 3] == '\0' {
          Ended(s0, p, p2, "..");
          var at := if p2 >= 0 then p2 + 1 else p + 1;
          Cut(path, at, s0);
          s := s0[..at];
          return;
        }
      }
    }
    done := false;
  }

  /** Brings a path into normal form. */
  method FixPath(path: array<char>, ghost s0: string) returns (ghost s: string)
    requires Holds(path, s0)
    modifies path
    ensures Holds(path, s) && s == Normal(s0)
  {
    s := s0;
    var again := true;
    while again
      invariant Holds(path, s) && Normal(s) == Normal(s0) && (again || s == Normal(s0))
      decreases |s|, again
    {
      again, s := Pass(path, s);
    }
  }
}

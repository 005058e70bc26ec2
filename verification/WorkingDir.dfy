/** What Get_Item and Move_To_Dir compute, in terms of names: the working directory always names the sector it
    is kept with. */
module WorkingDir {
  import opened Fat12Types
  import opened Names
  import opened PathTexts
  import opened Paths

  /** The sector reached from the root through directories with these names. */
  function Reaches(look: Look, names: seq<Text>): Option<Entry> {
    if names == [] then Some(0)
    else
      match Reaches(look, names[..|names| - 1])
      case None => None
      case Some(d) => Enter(look(d, names[|names| - 1]))
  }

  function Enter(e: Option<DirEntry>): Option<Entry> {
    if e.Some? && IsDirectory(e.value) then Some(StartSector(e.value)) else None
  }

  /** The working directory and its sector agree. */
  predicate Agrees(look: Look, dir: Text, sector: Entry, names: seq<Text>) {
    Canonical(dir, names) && Reaches(look, names) == Some(sector)
  }

  lemma {:induction false} ReachesPrefix(look: Look, names: seq<Text>, k: nat)
    requires k <= |names| && Reaches(look, names).Some?
    ensures Reaches(look, names[..k]).Some?
    decreases |names|
  {
    if k < |names| {
      var r := names[..|names| - 1];
      ReachesPrefix(look, r, k);
      assert r[..k] == names[..k];
    } else {
      assert names[..k] == names;
    }
  }

  lemma ReachesStep(look: Look, base: seq<Text>, tok: Text)
    ensures Reaches(look, base + [tok]) ==
            match Reaches(look, base) { case None => None case Some(d) => Enter(look(d, tok)) }
  {
  }

  lemma JoinedStep(base: seq<Text>, tok: Text)
    ensures Joined(base + [tok]) == Joined(base) + tok + [SLASH]
  {
  }

  lemma {:induction false} CStringClean(s: Text)
    requires NUL !in s
    ensures CString(s) == s
  {
  }

  /** The cursor stands in the directory named base. */
  predicate At(look: Look, base: seq<Text>, s: Cursor) {
    && Reaches(look, base) == Some(s.dir) && s.path == Joined(base)
    && (s.found ==> IsDirectory(s.item) && StartSector(s.item) == s.dir)
  }

  lemma EnteredAt(look: Look, base: seq<Text>, s: Cursor, tok: Text, e: DirEntry)
    requires At(look, base, s) && GoodName(tok) && look(s.dir, tok) == Some(e) && IsDirectory(e)
    ensures At(look, base + [tok], Entered(s, tok, e))
  {
  }

  lemma NextIsDirectory(look: Look, base: seq<Text>, tok: Text, s: Cursor)
    requires GoodName(tok) && Reaches(look, base + [tok]).Some? && At(look, base, s)
    ensures look(s.dir, tok).Some? && At(look, base + [tok], Entered(s, tok, look(s.dir, tok).value))
  {
  }

  /** Following a working directory that agrees enters its first n components. */
  lemma {:induction false} FollowDirTo(look: Look, names: seq<Text>, k: nat, n: nat, s: Cursor)
    requires GoodNames(names) && Reaches(look, names).Some? && k <= n <= |names|
    requires At(look, names[..k], s)
    ensures var f := FollowDir(look, names[k..], n - k, s);
            At(look, names[..n], f) && f.count == s.count + n - k && (f.found <==> s.found || n > k)
    decreases n - k
  {
    hide Reaches, IsDirectory;
    if k < |names| {
      ReachesPrefix(look, names, k + 1);
      assert names[..k + 1] == names[..k] + [names[k]];
      assert GoodName(names[k]);
      NextIsDirectory(look, names[..k], names[k], s);
      assert names[k..][0] == names[k] && names[k..][1..] == names[k + 1..];
      if k < n {
        FollowDirTo(look, names, k + 1, n, Entered(s, names[k], look(s.dir, names[k]).value));
      }
    }
  }

  /** Following a working directory that has lost component k passes over it: the rest is looked up from the directory
      before it, and nothing counts as found until a later component is. */
  lemma FollowDirLoses(look: Look, names: seq<Text>, k: nat, n: nat, s: Cursor)
    requires GoodNames(names) && k < n <= |names| && At(look, [], s) && s.count == 0
    requires Reaches(look, names[..k]).Some? && look(Reaches(look, names[..k]).value, names[k]) == None
    ensures exists f: Cursor ::
              && At(look, names[..k], f) && f.count == k && !f.found
              && FollowDir(look, names, n, s) == FollowDir(look, names[k + 1..], n - k - 1, f)
  {
    var before := FollowDir(look, names[..k], k, s);
    FollowWay(look, names[..k], s);
    FollowOn(look, names[..k], names[k..], n, s);
    assert names == names[..k] + names[k..];
    assert GoodName(names[k]) && names[k..][0] == names[k] && names[k..][1..] == names[k + 1..];
    var f := before.(found := false);
    assert FollowDir(look, names, n, s) == FollowDir(look, names[k..], n - k, before);
    assert FollowDir(look, names[k..], n - k, before) == FollowDir(look, names[k + 1..], n - k - 1, f);
  }

  /** All components of a way that is there are entered. */
  lemma FollowWay(look: Look, names: seq<Text>, s: Cursor)
    requires GoodNames(names) && At(look, [], s) && s.count == 0 && Reaches(look, names).Some?
    ensures At(look, names, FollowDir(look, names, |names|, s)) && FollowDir(look, names, |names|, s).count == |names|
  {
    assert names[..0] == [] && names[0..] == names && names[..|names|] == names;
    FollowDirTo(look, names, 0, |names|, s);
  }

  lemma {:induction false} FollowOn(look: Look, a: seq<Text>, b: seq<Text>, n: nat, s: Cursor)
    requires GoodNames(a) && |a| <= n
    ensures FollowDir(look, a + b, n, s) == FollowDir(look, b, n - |a|, FollowDir(look, a, |a|, s))
    decreases |a|
  {
    if a == [] {
      assert a + b == b;
    } else {
      assert GoodName(a[0]) && (a + b)[0] == a[0] && (a + b)[1..] == a[1..] + b;
      assert GoodNames(a[1..]) by {
        forall i | 0 <= i < |a| - 1 ensures GoodName(a[1..][i]) {
          assert a[1..][i] == a[i + 1];
        }
      }
      match look(s.dir, a[0])
      case Some(e) => FollowOn(look, a[1..], b, n - 1, Entered(s, a[0], e));
      case None => FollowOn(look, a[1..], b, n - 1, s.(found := false));
    }
  }

  /** Behind a found item that is no directory, no further name is found. */
  lemma {:induction false} FollowPathBlocked(look: Look, toks: seq<Text>, s: Cursor)
    requires s.found && !IsDirectory(s.item) && NamesIn(toks) != []
    ensures !FollowPath(look, toks, s).found
  {
    if !IsName(toks[0]) {
      FollowPathBlocked(look, toks[1..], s);
    }
  }

  lemma {:induction false} NoNames(look: Look, toks: seq<Text>, s: Cursor)
    requires NamesIn(toks) == []
    ensures FollowPath(look, toks, s) == Outcome(Some(s.item), s.path, s.count, s.found)
  {
    if toks != [] {
      NoNames(look, toks[1..], s);
    }
  }

  /** What following a path from the directory base yields: it is found as a directory exactly when base and the
      path's names lead there, and then path, count and entry are those of that directory. */
  lemma {:induction false} FollowPathTo(look: Look, base: seq<Text>, toks: seq<Text>, s: Cursor)
    requires At(look, base, s) && GoodNames(NamesIn(toks)) && NamesIn(toks) != []
    ensures var names := base + NamesIn(toks);
            var o := FollowPath(look, toks, s);
            && (o.found ==> o.item.Some? && o.path == Joined(names) && o.count == s.count + |NamesIn(toks)|)
            && (o.found && IsDirectory(o.item.value) ==> Reaches(look, names) == Some(StartSector(o.item.value)))
            && (Reaches(look, names).Some? ==> o.found && IsDirectory(o.item.value))
    decreases |toks|
  {
    var tok, rest := toks[0], toks[1..];
    if !IsName(tok) {
      assert NamesIn(toks) == NamesIn(rest);
      FollowPathTo(look, base, rest, s);
    } else {
      var names := base + NamesIn(toks);
      var ns := NamesIn(rest);
      assert NamesIn(toks)[0] == tok && GoodName(tok);
      assert names == (base + [tok]) + ns;
      assert names[..|base| + 1] == base + [tok];
      ReachesStep(look, base, tok);
      JoinedStep(base, tok);
      CStringClean(tok);
      if Reaches(look, names).Some? {
        ReachesPrefix(look, names, |base| + 1);
      }
      var e := look(s.dir, tok);
      if e.Some? {
        var s' := Entered(s, tok, e.value);
        if ns == [] {
          NoNames(look, rest, s');
          assert names == base + [tok];
        } else if IsDirectory(e.value) {
          EnteredAt(look, base, s, tok, e.value);
          assert GoodNames(ns) by {
            forall i | 0 <= i < |ns| ensures GoodName(ns[i]) {
              assert ns[i] == NamesIn(toks)[i + 1];
            }
          }
          FollowPathTo(look, base + [tok], rest, s');
        } else {
          FollowPathBlocked(look, rest, s');
        }
      }
    }
  }

  // ----- a whole call -----

  /** The names a path leads to from names: for a relative path as many components are dropped as there are
      ".." anywhere in it, then its names are appended. */
  function Target(names: seq<Text>, p: Parsed): seq<Text>
  {
    var up := DotDots(p.toks);
    if p.root then []
    else if p.absolute || up > |names| then NamesIn(p.toks)
    else names[..|names| - up] + NamesIn(p.toks)
  }

  /** The paths that are not rejected whatever the tree. Rejected are more ".." than components, also in an absolute
      path, and an absolute path without names, unless it has a ".." for every component. */
  predicate Admissible(names: seq<Text>, p: Parsed)
  {
    var up := DotDots(p.toks);
    p.root || (up <= |names| && (NamesIn(p.toks) == [] && p.absolute ==> up == |names|))
  }

  /** What holds of every parsed path: its names can be components, and a relative path is not empty. */
  predicate Sound(p: Parsed) {
    GoodNames(NamesIn(p.toks)) && (!p.absolute && NamesIn(p.toks) == [] ==> DotDots(p.toks) > 0)
  }

  lemma ParseSound(path: Text)
    requires path != [] && Plain(path)
    ensures Sound(Parse(path))
  {
    var s := Slashed(path);
    var f := Pushed(s);
    assert forall i | 0 <= i < |s| && s[i] == NUL :: path[i] == NUL;
    assert BACKSLASH !in s;
    TokensClean(f);
    NamesAreGood(Tokens(f));
    if f[0] != SLASH && NamesIn(Tokens(f)) == [] {
      assert f[|f| - 1] == SLASH || f[|f| - 2] == SLASH;
      var i := FirstSlash(f);
      assert Tokens(f)[0] == f[..i] != [];
      assert !IsName(Tokens(f)[0]);
    }
  }

  lemma DirCountOf(names: seq<Text>)
    requires GoodNames(names)
    ensures Plain(Joined(names)) && DirCount(Joined(names)) == |names|
  {
    NamesOfJoined(names);
    JoinedClean(names);
  }

  lemma {:induction false} JoinedClean(names: seq<Text>)
    requires GoodNames(names)
    ensures NUL !in Joined(names)
  {
    if names != [] {
      assert GoodName(names[|names| - 1]);
      JoinedClean(names[..|names| - 1]);
    }
  }

  // ----- the working directory agrees with its sector -----

  lemma {:induction false} TokensDropTail(s: Text, tail: Text)
    requires (s != [] ==> s[|s| - 1] == SLASH) && SLASH !in tail
    ensures Tokens(s + tail) == Tokens(s)
    decreases |s|
  {
    if s == [] {
      assert s + tail == tail;
      assert forall k | 0 <= k < |tail| :: tail[k] in tail;
      FirstSlashIs(tail, |tail|);
      FirstSlashIs(s, 0);
    } else {
      assert s[|s| - 1] == SLASH;
      TokensSplit(s, tail);
      TokensDropTail(s[FirstSlash(s) + 1..], tail);
    }
  }

  lemma {:induction false} CStringIs(s: Text, k: nat)
    requires k <= |s| && (k < |s| ==> s[k] == NUL) && forall i | 0 <= i < k :: s[i] != NUL
    ensures CString(s) == s[..k]
  {
  }

  lemma PushedZero(s: Text)
    requires s != [] && forall i | 0 <= i < |s| :: s[i] != NUL
    ensures Tokens(Pushed(s + [NUL])) == Tokens(Pushed(s))
    ensures Pushed(s + [NUL])[0] == Pushed(s)[0]
  {
    var z := s + [NUL];
    assert z[..|z| - 1] == s && s[..|s|] == s;
    if s[|s| - 1] == SLASH {
      TokensDropTail(s, [NUL]);
    }
  }

  lemma ZeroInvisible(s: Text)
    requires forall i | 0 <= i < |s| :: s[i] != NUL
    ensures CString(s + [NUL]) == s == CString(s)
  {
    CStringIs(s + [NUL], |s|);
    CStringIs(s, |s|);
    assert (s + [NUL])[..|s|] == s == s[..|s|];
  }

  /** The terminating zero that Move_To_Dir adds changes nothing. */
  lemma ZeroIgnored(path: Text)
    requires path != [] && NUL !in path
    ensures Plain(path) && Plain(path + [NUL]) && Parse(path + [NUL]) == Parse(path)
  {
    hide Tokens, CString, Pushed;
    assert forall i | 0 <= i < |path| :: path[i] in path;
    var s := Slashed(path);
    assert Slashed(path + [NUL]) == s + [NUL];
    assert forall i | 0 <= i < |s| :: s[i] != NUL;
    PushedZero(s);
    ZeroInvisible(s);
  }

  /** The directory the path's components are looked up from. */
  function Base(names: seq<Text>, p: Parsed): seq<Text>
    requires DotDots(p.toks) <= |names|
  {
    if p.absolute then [] else names[..|names| - DotDots(p.toks)]
  }

  lemma StartAt(look: Look, dir: Text, sector: Entry, names: seq<Text>, p: Parsed)
    requires Agrees(look, dir, sector, names) && DotDots(p.toks) <= |names|
    ensures Plain(dir)
    ensures var s := StartOf(look, dir, sector, p, [SLASH], 0, false);
            var base := Base(names, p);
            && At(look, base, s) && s.count == |base|
            && (s.found <==> !p.absolute && DotDots(p.toks) > 0 && base != [])
  {
    DirCountOf(names);
    assert names[..|names|] == names;
    if !p.absolute && DotDots(p.toks) > 0 {
      FollowJoined(look, names, |names| - DotDots(p.toks));
    }
  }

  lemma FollowJoined(look: Look, names: seq<Text>, n: nat)
    requires GoodNames(names) && Reaches(look, names).Some? && n <= |names|
    ensures var f := FollowDir(look, Tokens(Joined(names)), n, Cursor(BlankEntry(), 0, [SLASH], 0, false));
            At(look, names[..n], f) && f.count == n && (f.found <==> n > 0)
  {
    var blank := Cursor(BlankEntry(), 0, [SLASH], 0, false);
    TokensOfJoined(names);
    assert ([[]] + names)[1..] == names[0..] && names[..0] == [];
    FollowDirTo(look, names, 0, n, blank);
    assert FollowDir(look, [[]] + names, n, blank) == FollowDir(look, names[0..], n, blank);
  }

  /** What FindParsed's outcome o says about names and path. */
  ghost predicate Tells(look: Look, names: seq<Text>, p: Parsed, o: Outcome) {
    var target := Target(names, p);
    && (o.found ==> o.item.Some? && o.count == |target| && o.path == Joined(target))
    && (o.found && IsDirectory(o.item.value) <==> Admissible(names, p) && Reaches(look, target).Some?)
    && (o.found && IsDirectory(o.item.value) && target != [] ==>
          Reaches(look, target) == Some(StartSector(o.item.value)))
  }

  lemma RootTells(look: Look, names: seq<Text>, p: Parsed)
    requires p.root || (DotDots(p.toks) == |names| && NamesIn(p.toks) == [])
    ensures Tells(look, names, p, Outcome(Some(RootEntry()), [SLASH], 0, true))
  {
  }

  /** A call of Get_Item with fresh reference parameters finds a directory exactly for admissible paths whose
      target the tree has; what it finds has the target's path, depth and sector. */
  lemma FindIff(look: Look, dir: Text, sector: Entry, names: seq<Text>, p: Parsed)
    requires Agrees(look, dir, sector, names) && Sound(p)
    ensures Plain(dir) && Tells(look, names, p, FindParsed(look, dir, sector, p, [SLASH], 0, false))
  {
    DirCountOf(names);
    var up := DotDots(p.toks);
    var ns := NamesIn(p.toks);
    if p.root || (up == |names| && ns == []) {
      RootTells(look, names, p);
    } else if up <= |names| {
      StartAt(look, dir, sector, names, p);
      var s := StartOf(look, dir, sector, p, [SLASH], 0, false);
      assert ns == [] && !p.absolute ==> Base(names, p) != [];
      FollowIff(look, Base(names, p), p, s);
      assert Target(names, p) == Base(names, p) + ns;
    }
  }

  lemma FollowIff(look: Look, base: seq<Text>, p: Parsed, s: Cursor)
    requires At(look, base, s) && s.count == |base| && Sound(p) && (p.absolute ==> base == [])
    requires s.found <==> !p.absolute && DotDots(p.toks) > 0 && base != []
    requires NamesIn(p.toks) == [] && !p.absolute ==> base != []
    ensures var o := FollowPath(look, p.toks, s);
            var target := base + NamesIn(p.toks);
            && (o.found ==> o.item.Some? && o.count == |target| && o.path == Joined(target))
            && (o.found && IsDirectory(o.item.value) <==>
                (NamesIn(p.toks) == [] ==> !p.absolute) && Reaches(look, target).Some?)
            && (o.found && IsDirectory(o.item.value) ==> Reaches(look, target) == Some(StartSector(o.item.value)))
  {
    if NamesIn(p.toks) == [] {
      NoNames(look, p.toks, s);
      assert base + NamesIn(p.toks) == base;
    } else {
      FollowPathTo(look, base, p.toks, s);
    }
  }

  lemma TargetGood(names: seq<Text>, p: Parsed)
    requires GoodNames(names) && Sound(p)
    ensures GoodNames(Target(names, p))
  {
  }

  lemma MovedTells(look: Look, dir: Text, sector: Entry, names: seq<Text>, p: Parsed, o: Outcome)
    requires Agrees(look, dir, sector, names) && GoodNames(Target(names, p)) && Tells(look, names, p, o)
    requires p.root || (o.found && Target(names, p) == []) ==> o.item == Some(RootEntry())
    ensures var r := Moved(o, dir, sector);
            var target := Target(names, p);
            && (r.0 <==> Admissible(names, p) && Reaches(look, target).Some?)
            && if r.0 then Agrees(look, r.1, r.2, target) else r.1 == dir && r.2 == sector
  {
  }

  /** An outcome found at depth 0 is the root entry. */
  lemma FoundAtRoot(look: Look, dir: Text, sector: Entry, names: seq<Text>, p: Parsed)
    requires Agrees(look, dir, sector, names) && Sound(p)
    ensures Plain(dir)
    ensures var o := FindParsed(look, dir, sector, p, [SLASH], 0, false);
            o.found && Target(names, p) == [] ==> o.item == Some(RootEntry())
  {
    DirCountOf(names);
    FindIff(look, dir, sector, names, p);
    if !p.root && DotDots(p.toks) < |names| && NamesIn(p.toks) == [] && p.absolute {
      NoNames(look, p.toks, StartOf(look, dir, sector, p, [SLASH], 0, false));
    }
  }

  /** Move_To_Dir succeeds exactly when the path is admissible and the tree has its target, and then the working
      directory is the target with its sector; otherwise nothing changes. */
  lemma MoveIff(look: Look, dir: Text, sector: Entry, names: seq<Text>, path: Text)
    requires Agrees(look, dir, sector, names) && path != [] && NUL !in path
    ensures Plain(dir) && Plain(path)
    ensures var r := MoveToDir(look, dir, sector, path);
            var target := Target(names, Parse(path));
            && (r.0 <==> Admissible(names, Parse(path)) && Reaches(look, target).Some?)
            && if r.0 then Agrees(look, r.1, r.2, target) else r.1 == dir && r.2 == sector
  {
    hide Parse, Reaches, Admissible, Tells, Moved, FollowPath, StartOf, DirCount;
    ZeroIgnored(path);
    var p := Parse(path);
    ParseSound(path);
    FindIff(look, dir, sector, names, p);
    FoundAtRoot(look, dir, sector, names, p);
    TargetGood(names, p);
    assert [] + [SLASH] == [SLASH];
    MovedTells(look, dir, sector, names, p, FindParsed(look, dir, sector, p, [SLASH], 0, false));
  }

  // ----- runs -----

  datatype Session = Session(dir: Text, sector: Entry)

  function Move(look: Look, s: Session, path: Text): Session
    requires Plain(s.dir) && path != [] && NUL !in path
  {
    var r := MoveToDir(look, s.dir, s.sector, path);
    Session(r.1, r.2)
  }

  /** s' is what any calls of Move_To_Dir with these paths make of s. */
  ghost predicate IsSession(look: Look, s: Session, paths: seq<Text>, s': Session)
    decreases |paths|
  {
    if paths == [] then s == s'
    else
      Plain(s.dir) && paths[0] != [] && NUL !in paths[0] && IsSession(look, Move(look, s, paths[0]), paths[1..], s')
  }

  ghost predicate SessionAgrees(look: Look, s: Session) {
    exists names :: Agrees(look, s.dir, s.sector, names)
  }

  lemma MoveKeepsAgreement(look: Look, s: Session, path: Text)
    requires SessionAgrees(look, s) && Plain(s.dir) && path != [] && NUL !in path
    ensures SessionAgrees(look, Move(look, s, path))
  {
    var names :| Agrees(look, s.dir, s.sector, names);
    MoveIff(look, s.dir, s.sector, names, path);
    var s' := Move(look, s, path);
    assert Agrees(look, s'.dir, s'.sector, names) || Agrees(look, s'.dir, s'.sector, Target(names, Parse(path)));
  }

  /** Over a fixed tree, after any calls of Move_To_Dir with any paths, walking the components of the working
      directory from the root reaches exactly its sector. */
  lemma {:induction false} AlwaysAgrees(look: Look, s: Session, paths: seq<Text>, s': Session)
    requires SessionAgrees(look, s) && IsSession(look, s, paths, s')
    ensures SessionAgrees(look, s')
    decreases |paths|
  {
    if paths != [] {
      MoveKeepsAgreement(look, s, paths[0]);
      AlwaysAgrees(look, Move(look, s, paths[0]), paths[1..], s');
    }
  }

  /** The kernel's first process starts in the root, which agrees. */
  lemma RootAgrees(look: Look)
    ensures SessionAgrees(look, Session([SLASH], 0))
  {
    assert Agrees(look, [SLASH], 0, []);
  }
}

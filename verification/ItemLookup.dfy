/** Get_Item for a path whose parent directory is there: the item is found, or only its name is missing. */
module ItemLookup {
  import opened Fat12Types
  import opened Names
  import opened PathTexts
  import opened Paths
  import opened WorkingDir

  function Front(names: seq<Text>): seq<Text>
    requires names != []
  {
    names[..|names| - 1]
  }

  function Last(names: seq<Text>): Text
    requires names != []
  {
    names[|names| - 1]
  }

  /** The outcome for the item last of the directory parent, which starts at sector d: the item with its path and
      depth; or the parent's path and depth, provided that last is the last component; or an error. */
  ghost predicate LooksUp(look: Look, parent: seq<Text>, d: Entry, last: Text, ends: bool, o: Outcome) {
    match look(d, last)
    case Some(e) => o == Outcome(Some(e), Joined(parent + [last]), |parent| + 1, true)
    case None =>
      !o.found && if ends then o.path == Joined(parent) && o.count == |parent| else o.count == ERROR_FIND
  }

  lemma {:induction false} FollowPathItem(look: Look, base: seq<Text>, toks: seq<Text>, s: Cursor, d: Entry)
    requires At(look, base, s) && s.count == |base| && GoodNames(NamesIn(toks)) && NamesIn(toks) != []
    requires Reaches(look, base + Front(NamesIn(toks))) == Some(d)
    ensures LooksUp(look, base + Front(NamesIn(toks)), d, Last(NamesIn(toks)), IsName(toks[|toks| - 1]),
                    FollowPath(look, toks, s))
    decreases |toks|
  {
    var tok, rest := toks[0], toks[1..];
    var ns := NamesIn(rest);
    if !IsName(tok) {
      NamesStep(toks);
      assert rest[|rest| - 1] == toks[|toks| - 1];
      FollowPathItem(look, base, rest, s, d);
    } else if ns == [] {
      NamesStep(toks);
      assert NamesIn(toks) == [tok] && base + Front([tok]) == base;
      LastName(look, base, toks, s, d);
    } else {
      hide FollowPath;
      NextName(look, base, toks, s, d);
      FollowPathItem(look, base + [tok], rest, Entered(s, tok, look(s.dir, tok).value), d);
      StepInto(look, toks, s);
    }
  }

  lemma StepInto(look: Look, toks: seq<Text>, s: Cursor)
    requires toks != [] && IsName(toks[0]) && (s.found ==> IsDirectory(s.item)) && look(s.dir, toks[0]).Some?
    ensures FollowPath(look, toks, s) == FollowPath(look, toks[1..], Entered(s, toks[0], look(s.dir, toks[0]).value))
  {
  }

  /** A name that is not the last one leads into a directory. */
  lemma NextName(look: Look, base: seq<Text>, toks: seq<Text>, s: Cursor, d: Entry)
    requires At(look, base, s) && s.count == |base| && GoodNames(NamesIn(toks)) && toks != [] && IsName(toks[0])
    requires NamesIn(toks[1..]) != [] && Reaches(look, base + Front(NamesIn(toks))) == Some(d)
    ensures look(s.dir, toks[0]).Some?
    ensures var s' := Entered(s, toks[0], look(s.dir, toks[0]).value);
            At(look, base + [toks[0]], s') && s'.count == |base| + 1
    ensures var ns := NamesIn(toks[1..]);
            && GoodNames(ns) && (base + [toks[0]]) + Front(ns) == base + Front(NamesIn(toks))
            && Last(ns) == Last(NamesIn(toks)) && toks[1..] != [] && toks[1..][|toks[1..]| - 1] == toks[|toks| - 1]
  {
    hide GoodName, Reaches, At;
    FrontSplit(base, toks);
    var parent := base + Front(NamesIn(toks));
    ReachesPrefix(look, parent, |base| + 1);
    NextIsDirectory(look, base, toks[0], s);
    TailGood(toks);
  }

  lemma FrontSplit(base: seq<Text>, toks: seq<Text>)
    requires toks != [] && IsName(toks[0]) && NamesIn(toks[1..]) != [] && GoodNames(NamesIn(toks))
    ensures var ns, parent := NamesIn(toks[1..]), base + Front(NamesIn(toks));
            && (base + [toks[0]]) + Front(ns) == parent && Last(ns) == Last(NamesIn(toks))
            && |parent| > |base| && parent[..|base| + 1] == base + [toks[0]]
    ensures GoodName(toks[0])
  {
    hide NamesIn, GoodName, IsName;
    NamesStep(toks);
    SeqFront(base, toks[0], NamesIn(toks[1..]));
    assert NamesIn(toks)[0] == toks[0];
  }

  lemma SeqFront(base: seq<Text>, tok: Text, ns: seq<Text>)
    requires ns != []
    ensures var parent := base + Front([tok] + ns);
            && (base + [tok]) + Front(ns) == parent && Last([tok] + ns) == Last(ns)
            && |parent| > |base| && parent[..|base| + 1] == base + [tok]
  {
    assert Front([tok] + ns) == [tok] + Front(ns);
  }

  lemma TailGood(toks: seq<Text>)
    requires toks != [] && IsName(toks[0]) && GoodNames(NamesIn(toks))
    ensures GoodNames(NamesIn(toks[1..]))
  {
    var ns := NamesIn(toks[1..]);
    forall i | 0 <= i < |ns| ensures GoodName(ns[i]) {
      assert ns[i] == NamesIn(toks)[i + 1];
    }
  }

  /** The step at the last name, and what comes behind it. */
  lemma LastName(look: Look, base: seq<Text>, toks: seq<Text>, s: Cursor, d: Entry)
    requires At(look, base, s) && s.count == |base| && GoodNames(NamesIn(toks))
    requires toks != [] && IsName(toks[0]) && NamesIn(toks[1..]) == [] && Reaches(look, base) == Some(d)
    ensures NamesIn(toks) == [toks[0]]
    ensures LooksUp(look, base, d, toks[0], IsName(toks[|toks| - 1]), FollowPath(look, toks, s))
  {
    var tok, rest := toks[0], toks[1..];
    assert NamesIn(toks) == [tok] && GoodName(NamesIn(toks)[0]);
    CStringClean(tok);
    JoinedStep(base, tok);
    if look(d, tok).Some? {
      NoNames(look, rest, Entered(s, tok, look(d, tok).value));
    }
    NoNameAtEnd(rest);
  }

  lemma {:induction false} NoNameAtEnd(toks: seq<Text>)
    requires NamesIn(toks) == []
    ensures forall i | 0 <= i < |toks| :: !IsName(toks[i])
  {
    if toks != [] {
      NoNameAtEnd(toks[1..]);
      forall i | 0 <= i < |toks| ensures !IsName(toks[i]) {
        if i > 0 {
          assert toks[i] == toks[1..][i - 1];
        }
      }
    }
  }

  // ----- a whole call -----

  /** The path names an item below the root, and its ".." fit the working directory. */
  predicate NamesItem(names: seq<Text>, p: Parsed) {
    !p.root && DotDots(p.toks) <= |names| && NamesIn(p.toks) != []
  }

  /** The components of the item's parent directory. */
  function ParentOf(names: seq<Text>, p: Parsed): seq<Text>
    requires NamesItem(names, p)
  {
    WorkingDir.Base(names, p) + Front(NamesIn(p.toks))
  }

  lemma FindParsedIs(look: Look, dir: Text, sector: Entry, names: seq<Text>, p: Parsed, d: Entry)
    requires Agrees(look, dir, sector, names) && Sound(p) && NamesItem(names, p)
    requires Reaches(look, ParentOf(names, p)) == Some(d)
    ensures Plain(dir)
    ensures LooksUp(look, ParentOf(names, p), d, Last(NamesIn(p.toks)), IsName(p.toks[|p.toks| - 1]),
                    FindParsed(look, dir, sector, p, [SLASH], 0, false))
  {
    hide Reaches, FollowPath, NamesIn, DotDots, FollowDir, StartOf, LooksUp, Tokens;
    DirCountOf(names);
    StartAt(look, dir, sector, names, p);
    FollowPathItem(look, WorkingDir.Base(names, p), p.toks, StartOf(look, dir, sector, p, [SLASH], 0, false), d);
  }

  /** Get_Item with fresh reference parameters, when the parent directory is there. */
  lemma GetItemIs(look: Look, dir: Text, sector: Entry, names: seq<Text>, path: Text, d: Entry)
    requires Agrees(look, dir, sector, names) && path != [] && Plain(path) && NamesItem(names, Parse(path))
    requires Reaches(look, ParentOf(names, Parse(path))) == Some(d)
    ensures Plain(dir)
    ensures var p := Parse(path);
            LooksUp(look, ParentOf(names, p), d, Last(NamesIn(p.toks)), IsName(p.toks[|p.toks| - 1]),
                    GetItem(look, dir, sector, path, [], 0, false))
  {
    hide Reaches, Parse, LooksUp, FindParsed, NamesItem, ParentOf, Agrees;
    ParseSound(path);
    FindParsedIs(look, dir, sector, names, Parse(path), d);
    assert [] + [SLASH] == [SLASH];
  }

  // ----- an item of the root, from any working directory -----

  /** A working directory as the kernel keeps it, which need not be there any more; the root has sector 0. */
  predicate Kept(dir: Text, sector: Entry, names: seq<Text>) {
    Canonical(dir, names) && (names == [] ==> sector == 0)
  }

  /** A path from the root is followed from sector 0, whatever the working directory and its sector hold. */
  lemma StartAtRoot(look: Look, dir: Text, sector: Entry, names: seq<Text>, p: Parsed)
    requires Kept(dir, sector, names) && DotDots(p.toks) <= |names| && WorkingDir.Base(names, p) == []
    ensures Plain(dir)
    ensures var s := StartOf(look, dir, sector, p, [SLASH], 0, false);
            At(look, [], s) && s.count == 0
  {
    DirCountOf(names);
    if !p.absolute && DotDots(p.toks) > 0 {
      TokensOfJoined(names);
      assert ([[]] + names)[1..] == names;
      NoneEntered(look, names, Cursor(BlankEntry(), 0, [SLASH], 0, false));
    }
  }

  lemma NoneEntered(look: Look, names: seq<Text>, s: Cursor)
    requires GoodNames(names)
    ensures FollowDir(look, [[]] + names, 0, s) == s
  {
    var toks := [[]] + names;
    assert toks[1..] == names && toks[0] == [];
    assert names != [] ==> GoodName(names[0]);
  }

  /** Get_Item for an item of the root. */
  lemma GetRootItemIs(look: Look, dir: Text, sector: Entry, names: seq<Text>, path: Text)
    requires Kept(dir, sector, names) && path != [] && Plain(path) && NamesItem(names, Parse(path))
    requires ParentOf(names, Parse(path)) == []
    ensures Plain(dir)
    ensures var p := Parse(path);
            LooksUp(look, [], 0, Last(NamesIn(p.toks)), IsName(p.toks[|p.toks| - 1]),
                    GetItem(look, dir, sector, path, [], 0, false))
  {
    hide Parse, LooksUp, FollowPath, StartOf, NamesIn, DotDots;
    var p := Parse(path);
    ParseSound(path);
    DirCountOf(names);
    StartAtRoot(look, dir, sector, names, p);
    FollowPathItem(look, [], p.toks, StartOf(look, dir, sector, p, [SLASH], 0, false), 0);
    assert [] + [SLASH] == [SLASH] && [] + Front(NamesIn(p.toks)) == [];
  }

  // ----- two trees, of which one shows what the other does or less -----

  /** The step k of the way along names; it is there when the way is. */
  ghost function Step(look: Look, names: seq<Text>, k: nat): (s: Entry)
    requires Reaches(look, names).Some? && k <= |names|
    ensures Reaches(look, names[..k]) == Some(s)
    ensures k < |names| ==> look(s, names[k]).Some?
  {
    ReachesPrefix(look, names, k);
    if k < |names| then
      ReachesPrefix(look, names, k + 1);
      assert names[..k + 1][..k] == names[..k];
      Reaches(look, names[..k]).value
    else Reaches(look, names[..k]).value
  }

  /** In the directories from place b of the way on, the second tree shows the next component as the first, or not at
      all. */
  ghost predicate KeptFrom(look: Look, look': Look, names: seq<Text>, b: nat)
    requires Reaches(look, names).Some?
  {
    forall k | b <= k < |names| ::
      var s := Step(look, names, k);
      look'(s, names[k]) == look(s, names[k]) || look'(s, names[k]) == None
  }

  ghost predicate LosesFrom(look: Look, look': Look, names: seq<Text>, b: nat)
    requires Reaches(look, names).Some?
  {
    exists k :: b <= k < |names| && look'(Step(look, names, k), names[k]) == None
  }

  /** The steps of a way are those to its last directory, and one more. */
  lemma LastStep(look: Look, look': Look, names: seq<Text>)
    requires names != [] && Reaches(look, names).Some? && KeptFrom(look, look', names, 0)
    ensures var m := |names| - 1;
            var r := names[..m];
            && Reaches(look, r) == Some(Step(look, names, m)) && KeptFrom(look, look', r, 0)
            && (LosesFrom(look, look', names, 0) <==>
                LosesFrom(look, look', r, 0) || look'(Step(look, names, m), names[m]) == None)
  {
    hide Reaches;
    var m := |names| - 1;
    var r := names[..m];
    assert Reaches(look, r) == Some(Step(look, names, m));
    forall k | 0 <= k < m ensures r[k] == names[k] && Step(look, r, k) == Step(look, names, k) {
      assert r[..k] == names[..k];
    }
  }

  /** If every step is kept or lost, the way leads where it did, unless a step is lost, and then it leads nowhere. */
  lemma {:induction false} WayIff(look: Look, look': Look, names: seq<Text>)
    requires Reaches(look, names).Some? && KeptFrom(look, look', names, 0)
    ensures Reaches(look', names) == if LosesFrom(look, look', names, 0) then None else Reaches(look, names)
    decreases |names|
  {
    if names != [] {
      hide LosesFrom;
      LastStep(look, look', names);
      WayIff(look, look', names[..|names| - 1]);
    }
  }

  /** Following components in the second tree: nothing is found when a step is lost, and otherwise all is as in the
      first. */
  lemma {:induction false} FollowPathEither(look: Look, look': Look, base: seq<Text>, toks: seq<Text>, s: Cursor, d: Entry)
    requires At(look, base, s) && s.count == |base| && GoodNames(NamesIn(toks)) && NamesIn(toks) != []
    requires Reaches(look, base + Front(NamesIn(toks))) == Some(d)
    requires KeptFrom(look, look', base + Front(NamesIn(toks)), |base|)
    requires look'(d, Last(NamesIn(toks))) == look(d, Last(NamesIn(toks)))
    ensures var o := FollowPath(look', toks, s);
            if LosesFrom(look, look', base + Front(NamesIn(toks)), |base|) then !o.found else o == FollowPath(look, toks, s)
    decreases |toks|
  {
    var tok, rest := toks[0], toks[1..];
    if !IsName(tok) {
      NamesStep(toks);
      FollowPathEither(look, look', base, rest, s, d);
    } else if NamesIn(rest) == [] {
      NamesStep(toks);
      assert NamesIn(toks) == [tok] && base + Front([tok]) == base;
      if look(d, tok).Some? {
        NoNames(look, rest, Entered(s, tok, look(d, tok).value));
        NoNames(look', rest, Entered(s, tok, look(d, tok).value));
      }
    } else {
      EitherStep(look, look', base, toks, s, d);
    }
  }

  lemma EitherStep(look: Look, look': Look, base: seq<Text>, toks: seq<Text>, s: Cursor, d: Entry)
    requires At(look, base, s) && s.count == |base| && GoodNames(NamesIn(toks))
    requires toks != [] && IsName(toks[0]) && NamesIn(toks[1..]) != []
    requires Reaches(look, base + Front(NamesIn(toks))) == Some(d)
    requires KeptFrom(look, look', base + Front(NamesIn(toks)), |base|)
    requires look'(d, Last(NamesIn(toks))) == look(d, Last(NamesIn(toks)))
    ensures var o := FollowPath(look', toks, s);
            if LosesFrom(look, look', base + Front(NamesIn(toks)), |base|) then !o.found else o == FollowPath(look, toks, s)
    decreases |toks|, 0
  {
    hide FollowPath, Reaches;
    var tok, rest := toks[0], toks[1..];
    var parent := base + Front(NamesIn(toks));
    NextName(look, base, toks, s, d);
    FrontSplit(base, toks);
    assert parent[..|base|] == base;
    assert Step(look, parent, |base|) == s.dir && parent[|base|] == tok;
    if look'(s.dir, tok) == None {
      LostAtOnce(look', toks, s);
    } else {
      StepInto(look, toks, s);
      StepInto(look', toks, s);
      FollowPathEither(look, look', base + [tok], rest, Entered(s, tok, look(s.dir, tok).value), d);
    }
  }

  lemma LostAtOnce(look: Look, toks: seq<Text>, s: Cursor)
    requires toks != [] && IsName(toks[0]) && look(s.dir, toks[0]) == None
    ensures !FollowPath(look, toks, s).found
  {
  }

  lemma NamesNotEmpty(names: seq<Text>, k: nat)
    requires GoodNames(names) && k < |names|
    ensures names[k] != []
  {
    assert GoodName(names[k]);
  }

  lemma EnterStep(look: Look, names: seq<Text>, k: nat, s: Cursor)
    requires GoodNames(names) && Reaches(look, names).Some? && k < |names| && At(look, names[..k], s)
    ensures Step(look, names, k) == s.dir && look(s.dir, names[k]).Some?
    ensures At(look, names[..k + 1], Entered(s, names[k], look(s.dir, names[k]).value))
  {
    ReachesPrefix(look, names, k + 1);
    assert names[..k + 1] == names[..k] + [names[k]] && GoodName(names[k]);
    NextIsDirectory(look, names[..k], names[k], s);
  }

  /** Entering the first n components of a working directory is the same in both trees when its steps are. */
  lemma {:induction false} FollowDirSame(look: Look, look': Look, names: seq<Text>, k: nat, n: nat, s: Cursor)
    requires GoodNames(names) && Reaches(look, names).Some? && k <= n <= |names| && At(look, names[..k], s)
    requires forall j | k <= j < n :: look'(Step(look, names, j), names[j]) == look(Step(look, names, j), names[j])
    ensures FollowDir(look', names[k..], n - k, s) == FollowDir(look, names[k..], n - k, s)
    decreases n - k
  {
    hide Reaches, IsDirectory, GoodName, Step, At;
    if k < |names| {
      assert names[k..][0] == names[k] && names[k..][1..] == names[k + 1..];
      NamesNotEmpty(names, k);
      if k < n {
        EnterStep(look, names, k, s);
        FollowDirSame(look, look', names, k + 1, n, Entered(s, names[k], look(s.dir, names[k]).value));
      }
    }
  }

  /** The path goes up from the working directory, so that the way there is walked from the root. */
  predicate GoesUp(p: Parsed) { !p.absolute && DotDots(p.toks) > 0 }

  lemma StartSame(look: Look, look': Look, dir: Text, sector: Entry, names: seq<Text>, p: Parsed)
    requires Agrees(look, dir, sector, names) && DotDots(p.toks) <= |names|
    requires GoesUp(p) ==> forall j | 0 <= j < |WorkingDir.Base(names, p)| ::
               look'(Step(look, names, j), names[j]) == look(Step(look, names, j), names[j])
    ensures Plain(dir)
    ensures StartOf(look', dir, sector, p, [SLASH], 0, false) == StartOf(look, dir, sector, p, [SLASH], 0, false)
  {
    DirCountOf(names);
    if GoesUp(p) {
      var n, blank := |names| - DotDots(p.toks), Cursor(BlankEntry(), 0, [SLASH], 0, false);
      TokensOfJoined(names);
      assert ([[]] + names)[1..] == names[0..] && names[..0] == [];
      FollowDirSame(look, look', names, 0, n, blank);
      assert FollowDir(look, [[]] + names, n, blank) == FollowDir(look, names[0..], n, blank);
      assert FollowDir(look', [[]] + names, n, blank) == FollowDir(look', names[0..], n, blank);
    }
  }

  /** Get_Item in both trees, when they agree on the way up and on the item itself: nothing is found in the second when a
      further step is lost there, and otherwise all is as in the first. */
  lemma GetItemEither(look: Look, look': Look, dir: Text, sector: Entry, names: seq<Text>, path: Text, d: Entry)
    requires Agrees(look, dir, sector, names) && path != [] && Plain(path) && NamesItem(names, Parse(path))
    requires var p := Parse(path);
             && Reaches(look, ParentOf(names, p)) == Some(d)
             && KeptFrom(look, look', ParentOf(names, p), |WorkingDir.Base(names, p)|)
             && look'(d, Last(NamesIn(p.toks))) == look(d, Last(NamesIn(p.toks)))
             && (GoesUp(p) ==> forall j | 0 <= j < |WorkingDir.Base(names, p)| ::
                   look'(Step(look, names, j), names[j]) == look(Step(look, names, j), names[j]))
    ensures Plain(dir)
    ensures var p := Parse(path);
            var o := GetItem(look', dir, sector, path, [], 0, false);
            if LosesFrom(look, look', ParentOf(names, p), |WorkingDir.Base(names, p)|) then !o.found
            else o == GetItem(look, dir, sector, path, [], 0, false)
  {
    hide Parse, FollowPath, StartOf, NamesIn, DotDots, Reaches, KeptFrom, LosesFrom;
    var p := Parse(path);
    ParseSound(path);
    DirCountOf(names);
    StartAt(look, dir, sector, names, p);
    StartSame(look, look', dir, sector, names, p);
    FollowPathEither(look, look', WorkingDir.Base(names, p), p.toks, StartOf(look, dir, sector, p, [SLASH], 0, false), d);
    assert [] + [SLASH] == [SLASH];
  }
}

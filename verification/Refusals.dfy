/** When Create_Item and Remove_Item do nothing and say so. */
module Refusals {
  import opened Fat12Types
  import opened ItemData
  import opened Names
  import opened DirectoryItems
  import opened PathTexts
  import opened Paths
  import opened WorkingDir
  import opened VolumeTree
  import opened ItemLookup
  import opened ItemCalls

  /** An outcome that stands for an error. */
  predicate Fails(o: Outcome) { !o.found && o.count == ERROR_FIND }

  lemma {:induction false} BlockedFails(look: Look, toks: seq<Text>, s: Cursor)
    requires s.found && !IsDirectory(s.item) && NamesIn(toks) != []
    ensures Fails(FollowPath(look, toks, s))
  {
    if !IsName(toks[0]) {
      BlockedFails(look, toks[1..], s);
    }
  }

  lemma FrontOfOne(base: seq<Text>, tok: Text)
    ensures base + Front([tok]) == base
  {
  }

  /** A name before the last one is missing, or is no directory. */
  lemma {:induction false} FollowPathFails(look: Look, base: seq<Text>, toks: seq<Text>, s: Cursor)
    requires At(look, base, s) && GoodNames(NamesIn(toks)) && NamesIn(toks) != []
    requires Reaches(look, base + Front(NamesIn(toks))) == None
    ensures Fails(FollowPath(look, toks, s))
    decreases |toks|
  {
    hide GoodName, Joined;
    var tok, rest := toks[0], toks[1..];
    var ns := NamesIn(rest);
    if !IsName(tok) {
      NamesStep(toks);
      FollowPathFails(look, base, rest, s);
    } else if ns == [] {
      NamesStep(toks);
      FrontOfOne(base, tok);
      assert false;
    } else {
      hide Reaches;
      FrontSplit(base, toks);
      TailGood(toks);
      if look(s.dir, tok).Some? {
        var e := look(s.dir, tok).value;
        StepInto(look, toks, s);
        if IsDirectory(e) {
          EnteredAt(look, base, s, tok, e);
          FollowPathFails(look, base + [tok], rest, Entered(s, tok, e));
        } else {
          BlockedFails(look, rest, Entered(s, tok, e));
        }
      }
    }
  }

  /** A path whose ".." fit the working directory, but whose parent directory is not there. */
  lemma MissingParentFails(look: Look, wd: Text, sector: Entry, names: seq<Text>, path: Text)
    requires Agrees(look, wd, sector, names) && path != [] && NUL !in path && NamesItem(names, Parse(path))
    requires Reaches(look, ParentOf(names, Parse(path))) == None
    ensures Plain(wd) && Fails(GetItem(look, wd, sector, path, [], 0, false))
  {
    hide Reaches, FollowPath, NamesIn, DotDots, FollowDir, StartOf, Tokens, Parse;
    var p := Parse(path);
    ParseSound(path);
    DirCountOf(names);
    StartAt(look, wd, sector, names, p);
    FollowPathFails(look, WorkingDir.Base(names, p), p.toks, StartOf(look, wd, sector, p, [SLASH], 0, false));
    assert [] + [SLASH] == [SLASH];
  }

  /** More ".." than the working directory has components. */
  lemma TooHighFails(look: Look, wd: Text, sector: Entry, names: seq<Text>, path: Text)
    requires Agrees(look, wd, sector, names) && path != [] && NUL !in path
    requires !Parse(path).root && DotDots(Parse(path).toks) > |names|
    ensures Plain(wd) && Fails(GetItem(look, wd, sector, path, [], 0, false))
  {
    hide FollowPath, StartOf, Parse;
    DirCountOf(names);
  }

  /** The path leads nowhere: past the root, or through something that is not there or is no directory. */
  predicate LeadsNowhere(look: Look, names: seq<Text>, path: Text)
    requires path != [] && NUL !in path
  {
    var p := Parse(path);
    !p.root && (DotDots(p.toks) > |names| || (NamesItem(names, p) && Reaches(look, ParentOf(names, p)) == None))
  }

  lemma NowhereFails(look: Look, wd: Text, sector: Entry, names: seq<Text>, path: Text)
    requires Agrees(look, wd, sector, names) && path != [] && NUL !in path && LeadsNowhere(look, names, path)
    ensures Plain(wd) && Fails(GetItem(look, wd, sector, path, [], 0, false))
  {
    if DotDots(Parse(path).toks) > |names| {
      TooHighFails(look, wd, sector, names, path);
    } else {
      MissingParentFails(look, wd, sector, names, path);
    }
  }

  /** Create_Item changes nothing and returns false for the root, for a path that leads nowhere, and for an item that is
      there. */
  lemma CreateRefuses(g: Geometry, v: VolumeState, wd: Text, sector: Entry, names: seq<Text>, path: Text, item: NewItem,
                      d: Entry)
    requires v.Valid(g) && Agrees(LookOf(g, v), wd, sector, names) && path != [] && NUL !in path
    requires Parse(path).root || LeadsNowhere(LookOf(g, v), names, path)
             || (PathNames(LookOf(g, v), wd, sector, names, path, d) && LookOf(g, v)(d, LastOf(path)).Some?)
    ensures Plain(wd) && CreateItem(g, v, wd, sector, path, item) == Some((false, v))
  {
    hide Reaches, GetItem, CreateAt, LookOf, Agrees, Parse, ParentSector, LooksUp, NamesItem, ParentOf,
         FullPath, LeadsNowhere;
    FirstAnswer(LookOf(g, v), wd, sector, names, path, d);
  }

  /** Remove_Item changes nothing and returns false for the root, for a path that leads nowhere, for an item that is not
      there, and for a directory that is not empty. */
  lemma RemoveRefuses(g: Geometry, v: VolumeState, wd: Text, sector: Entry, names: seq<Text>, path: Text, d: Entry)
    requires v.Valid(g) && Agrees(LookOf(g, v), wd, sector, names) && path != [] && NUL !in path
    requires Parse(path).root || LeadsNowhere(LookOf(g, v), names, path)
             || (PathNames(LookOf(g, v), wd, sector, names, path, d)
                 && var e := LookOf(g, v)(d, LastOf(path));
                    e == None || (IsDirectory(e.value) && !EmptyAt(g, v, StartSector(e.value))))
    ensures Plain(wd) && RemoveItem(g, v, wd, sector, path) == Some((false, v))
  {
    hide Reaches, GetItem, LookOf, Agrees, Parse, ParentSector, LooksUp, NamesItem, ParentOf, EmptyAt, LeadsNowhere;
    FirstAnswer(LookOf(g, v), wd, sector, names, path, d);
  }

  /** What the first lookup of a call says in these cases. */
  lemma FirstAnswer(look: Look, wd: Text, sector: Entry, names: seq<Text>, path: Text, d: Entry)
    requires Agrees(look, wd, sector, names) && path != [] && NUL !in path
    ensures Plain(wd)
    ensures var o := GetItem(look, wd, sector, path, [], 0, false);
            && (Parse(path).root ==> o.found && o.count == 0)
            && (LeadsNowhere(look, names, path) ==> Fails(o))
            && (PathNames(look, wd, sector, names, path, d) ==>
                  match look(d, LastOf(path))
                  case Some(e) => o.found && o.item == Some(e) && o.count > 0
                  case None => !o.found)
  {
    hide Reaches, Parse, NamesItem, ParentOf, FollowPath, StartOf, LeadsNowhere, Tokens, NamesIn, DotDots;
    DirCountOf(names);
    if LeadsNowhere(look, names, path) {
      NowhereFails(look, wd, sector, names, path);
    }
    if PathNames(look, wd, sector, names, path, d) {
      FirstLookup(look, wd, sector, names, path, d);
    }
  }
}

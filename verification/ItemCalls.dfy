/** Create_Item and Remove_Item as a whole, from the working directory and the path to the change of a directory, and
    what the next Get_Item finds. */
module ItemCalls {
  import opened Fat12Types
  import opened Chains
  import opened FatHeap
  import opened ItemData
  import opened Names
  import opened Directories
  import opened DirectoryItems
  import opened FirstSector
  import opened PathTexts
  import opened Paths
  import opened WorkingDir
  import opened PathMeaning
  import opened VolumeTree
  import opened ItemLookup

  // ----- the calls -----

  /** The sectors that are read for a directory. None: it is no terminated chain. */
  ghost function ChainFor(t: Table, d: Entry): Option<seq<nat>> {
    if d == 0 then Some([]) else if HasChain(t, d) then Some(ChainOf(t, d)) else None
  }

  /** The second lookup, by the path handed back by the first. None is the null pointer. Paths that are handed back
      hold no zero. */
  ghost function ParentSector(look: Look, wd: Text, sector: Entry, path: Text, o: Outcome): Option<Entry>
    requires Plain(wd)
  {
    if !Plain(path) || path == [] then None
    else
      match GetItem(look, wd, sector, path, o.path, o.count, o.found).item
      case None => None
      case Some(e) => Some(StartSector(e))
  }

  ghost function CreateAt(g: Geometry, v: VolumeState, d: Entry, item: NewItem): Option<(bool, VolumeState)>
    requires v.Valid(g) && Accepted(item.name)
  {
    match ChainFor(v.table, d)
    case None => None
    case Some(c) =>
      match CreateIn(g, v, d, c, item)
      case None => None
      case Some(w) => Some((true, w))
  }

  /** Create_Item; the name of item is not used. None: a null pointer is followed or the table is left. */
  ghost function CreateItem(g: Geometry, v: VolumeState, wd: Text, sector: Entry, path: Text, item: NewItem)
    : Option<(bool, VolumeState)>
    requires v.Valid(g) && Plain(wd) && path != [] && NUL !in path
  {
    var look := LookOf(g, v);
    var o := GetItem(look, wd, sector, path, [], 0, false);
    var full := FullPath(path);
    if o.found || o.count < 0 then Some((false, v))
    else if |full| < 2 then None
    else
      var name := FileNameOf(full);
      if name == [] || name in RESERVED then Some((false, v))
      else
        match if o.path == [SLASH] then Some(0) else ParentSector(look, wd, sector, o.path, o)
        case None => None
        case Some(d) => if Accepted(name) then CreateAt(g, v, d, item.(name := name)) else Some((false, v))
  }

  /** The path with its separators replaced and a slash at its end. */
  function FullPath(path: Text): (full: Text)
    requires path != [] && NUL !in path
    ensures full != [] && full[|full| - 1] == SLASH && full == Pushed(Slashed(path))
  {
    assert Slashed(path)[|path| - 1] != NUL by {
      assert path[|path| - 1] in path;
    }
    Pushed(Slashed(path))
  }

  ghost function RemoveAt(g: Geometry, v: VolumeState, d: Entry, e: DirEntry): Option<(bool, VolumeState)>
    requires v.Valid(g)
  {
    match ChainFor(v.table, d)
    case None => None
    case Some(c) =>
      if FirstEqual(DirSlots(g, v, d, c), e) == |DirSlots(g, v, d, c)| then Some((false, v))
      else
        match RemoveIn(g, v, d, c, e)
        case None => None
        case Some(w) => Some((true, w))
  }

  /** Remove_Item. None: a null pointer is followed or the table is left. */
  ghost function RemoveItem(g: Geometry, v: VolumeState, wd: Text, sector: Entry, path: Text): Option<(bool, VolumeState)>
    requires v.Valid(g) && Plain(wd) && NUL !in path
  {
    var look := LookOf(g, v);
    if path == [] then Some((false, v))
    else
      var o := GetItem(look, wd, sector, path, [], 0, false);
      if !o.found || o.count <= 0 then Some((false, v))
      else if o.item == None then None
      else if IsDirectory(o.item.value) && !EmptyAt(g, v, StartSector(o.item.value)) then Some((false, v))
      else
        match ParentSector(look, wd, sector, UpToSlash(o.path, o.count), o)
        case None => None
        case Some(d) => RemoveAt(g, v, d, o.item.value)
  }

  /** Is_Directory_Empty for a directory. */
  ghost predicate EmptyAt(g: Geometry, v: VolumeState, d: Entry)
    requires v.Valid(g)
  {
    match ChainFor(v.table, d)
    case None => false
    case Some(c) => NoneLiveFrom(DirSlots(g, v, d, c), 0)
  }

  // ----- the name that is stored -----

  /** A path that is a slash and one component. */
  predicate SlashAndName(full: Text) {
    |full| >= 2 && full[0] == SLASH && forall i | 0 < i < |full| - 1 :: full[i] != SLASH
  }

  lemma {:induction false} LastNameIsLast(toks: seq<Text>)
    requires toks != [] && IsName(toks[|toks| - 1])
    ensures NamesIn(toks) != [] && Last(NamesIn(toks)) == toks[|toks| - 1]
  {
    var r, last := toks[..|toks| - 1], toks[|toks| - 1];
    assert toks == r + [last];
    NamesInAppend(r, [last]);
    NamesStep([last]);
    assert NamesIn([last]) == [last];
  }

  lemma LastComponentIsToken(s: Text, name: Text)
    requires |s| >= 2 && s[|s| - 1] == SLASH && IsLastComponent(s, name)
    ensures Tokens(s) != [] && Tokens(s)[|Tokens(s)| - 1] == name
  {
    var k := |s| - 1 - |name|;
    var a, end := s[..k], name + [SLASH];
    assert s == a + end;
    assert SLASH !in name by {
      forall b | b in name ensures b != SLASH {
        var i :| 0 <= i < |name| && name[i] == b;
        assert s[k + i] == b;
      }
    }
    TokensAppend(a, name, end);
  }

  /** The name Create_Item stores: the last component, or, for a slash and one component, that with its slash. */
  lemma StoredName(path: Text)
    requires path != [] && NUL !in path && Tokens(FullPath(path)) != [] && |FullPath(path)| >= 2
    ensures var full := FullPath(path);
            var last := Tokens(full)[|Tokens(full)| - 1];
            FileNameOf(full) == if SlashAndName(full) then [SLASH] + last else last
  {
    hide Tokens, Pushed, Slashed;
    var full := FullPath(path);
    if SlashAndName(full) {
      var last := full[1..|full| - 1];
      NameStartIs(full, |full| - 2);
      assert IsLastComponent(full, last);
      LastComponentIsToken(full, last);
      assert FileNameOf(full) == [SLASH] + last;
    } else {
      FileNameIsLastIff(full);
      LastComponentIsToken(full, FileNameOf(full));
    }
  }

  // ----- what the calls come to, when the parent directory is there -----

  /** The path names last in the directory parent, which starts at d; wd agrees with its sector. */
  ghost predicate PathNames(look: Look, wd: Text, sector: Entry, names: seq<Text>, path: Text, d: Entry) {
    && Agrees(look, wd, sector, names) && path != [] && NUL !in path
    && NamesItem(names, Parse(path)) && Reaches(look, ParentOf(names, Parse(path))) == Some(d)
    && var toks := Parse(path).toks;
       toks != [] && IsName(toks[|toks| - 1])
  }

  function LastOf(path: Text): Text
    requires path != [] && NUL !in path && Parse(path).toks != []
  {
    var toks := Parse(path).toks;
    toks[|toks| - 1]
  }

  lemma ParentGood(names: seq<Text>, p: Parsed)
    requires GoodNames(names) && NamesItem(names, p) && GoodNames(NamesIn(p.toks))
    ensures GoodNames(ParentOf(names, p)) && GoodName(Last(NamesIn(p.toks)))
  {
    hide GoodName, NamesIn, DotDots;
  }

  /** The first lookup: the item, or the parent's path and depth. */
  lemma FirstLookup(look: Look, wd: Text, sector: Entry, names: seq<Text>, path: Text, d: Entry)
    requires PathNames(look, wd, sector, names, path, d)
    ensures Plain(wd)
    ensures var parent := ParentOf(names, Parse(path));
            GoodNames(parent) && GoodName(LastOf(path))
            && LooksUp(look, parent, d, LastOf(path), true, GetItem(look, wd, sector, path, [], 0, false))
  {
    hide Reaches, LooksUp, GetItem, Parse, IsName, NamesIn, GoodName, ParentOf, DotDots;
    var p := Parse(path);
    ParseSound(path);
    LastNameIsLast(p.toks);
    GetItemIs(look, wd, sector, names, path, d);
    ParentGood(names, p);
  }

  lemma MissingItem(look: Look, parent: seq<Text>, d: Entry, last: Text, o: Outcome)
    requires LooksUp(look, parent, d, last, true, o) && look(d, last) == None
    ensures !o.found && o.path == Joined(parent) && o.count == |parent|
  {
  }

  /** The second lookup of Create_Item gives the parent's sector. */
  lemma SecondLookup(look: Look, wd: Text, sector: Entry, names: seq<Text>, parent: seq<Text>, d: Entry, o: Outcome)
    requires Agrees(look, wd, sector, names) && GoodNames(parent) && Reaches(look, parent) == Some(d)
    requires o.path == Joined(parent) && !o.found
    ensures Plain(wd)
    ensures (if o.path == [SLASH] then Some(0) else ParentSector(look, wd, sector, o.path, o)) == Some(d)
  {
    hide FollowPath, FindParsed;
    DirCountOf(names);
    if parent != [] {
      CreateFindsParent(look, wd, sector, names, parent, o.path, o.count);
      LongerThanSlash(parent);
    }
  }

  lemma LongerThanSlash(names: seq<Text>)
    requires GoodNames(names) && names != []
    ensures |Joined(names)| > 1
  {
    assert GoodName(names[|names| - 1]);
  }

  /** Create_Item for an item that is not there: the directory it changes is the path's parent, and the name it stores
      is the last component, with a slash before it when the path is a slash and that component. */
  lemma CreateItemIs(g: Geometry, v: VolumeState, wd: Text, sector: Entry, names: seq<Text>, path: Text, item: NewItem,
                     d: Entry)
    requires v.Valid(g) && PathNames(LookOf(g, v), wd, sector, names, path, d) && LookOf(g, v)(d, LastOf(path)) == None
    ensures Plain(wd)
    ensures var name := if SlashAndName(FullPath(path)) then [SLASH] + LastOf(path) else LastOf(path);
            CreateItem(g, v, wd, sector, path, item) ==
            if Accepted(name) then CreateAt(g, v, d, item.(name := name)) else Some((false, v))
  {
    hide Reaches, GetItem, CreateAt, Tokens, LookOf, Agrees, IsName, Parse, ParentSector, LooksUp, NamesItem, ParentOf,
         FileNameOf, GoodName;
    var look := LookOf(g, v);
    FirstLookup(look, wd, sector, names, path, d);
    var o := GetItem(look, wd, sector, path, [], 0, false);
    MissingItem(look, ParentOf(names, Parse(path)), d, LastOf(path), o);
    SecondLookup(look, wd, sector, names, ParentOf(names, Parse(path)), d, o);
    AtLeastTwo(path);
    StoredName(path);
  }

  lemma AtLeastTwo(path: Text)
    requires path != [] && NUL !in path && Parse(path).toks != []
    requires IsName(Parse(path).toks[|Parse(path).toks| - 1])
    ensures |FullPath(path)| >= 2 && Parse(path).toks == Tokens(FullPath(path))
  {
    var full := FullPath(path);
    if |full| == 1 {
      assert full == [SLASH];
      TokensOfSlash();
    }
  }

  lemma FoundItem(look: Look, parent: seq<Text>, d: Entry, last: Text, o: Outcome)
    requires LooksUp(look, parent, d, last, true, o) && look(d, last).Some?
    ensures o == Outcome(look(d, last), Joined(parent + [last]), |parent| + 1, true)
  {
  }

  /** Remove_Item for an item that is there, a file or an empty directory: it runs to its end exactly when the parent
      is the root; otherwise it follows a null pointer. */
  lemma RemoveItemIff(g: Geometry, v: VolumeState, wd: Text, sector: Entry, names: seq<Text>, path: Text, d: Entry,
                      e: DirEntry)
    requires v.Valid(g) && PathNames(LookOf(g, v), wd, sector, names, path, d) && LookOf(g, v)(d, LastOf(path)) == Some(e)
    requires IsDirectory(e) ==> EmptyAt(g, v, StartSector(e))
    ensures Plain(wd)
    ensures RemoveItem(g, v, wd, sector, path) ==
            if ParentOf(names, Parse(path)) == [] then RemoveAt(g, v, 0, e) else None
  {
    hide Reaches, GetItem, RemoveAt, Tokens, LookOf, Agrees, IsName, Parse, LooksUp, NamesItem, ParentOf, EmptyAt,
         GoodName, UpToSlash, Joined;
    var look := LookOf(g, v);
    var parent, last := ParentOf(names, Parse(path)), LastOf(path);
    FirstLookup(look, wd, sector, names, path, d);
    var o := GetItem(look, wd, sector, path, [], 0, false);
    FoundItem(look, parent, d, last, o);
    var item := parent + [last];
    ParentPath(item);
    assert item[..|parent|] == parent;
    RemoveFindsParentIff(look, wd, sector, item, Joined(parent), Joined(item));
    if parent == [] {
      RootIsFound(look, wd, sector, Joined(item), 1, true);
    }
  }

  /** The name Create_Item stores for the path. */
  function StoredFor(path: Text): Text
    requires path != [] && NUL !in path && Parse(path).toks != []
  {
    if SlashAndName(FullPath(path)) then [SLASH] + LastOf(path) else LastOf(path)
  }

  /** A slash and one component name an item of the root. */
  lemma SlashedInRoot(names: seq<Text>, path: Text)
    requires path != [] && NUL !in path && NamesItem(names, Parse(path)) && SlashAndName(FullPath(path))
    ensures ParentOf(names, Parse(path)) == []
  {
    var full := FullPath(path);
    var name := full[1..|full| - 1];
    assert full == [SLASH] + (name + [SLASH]);
    TokensOfSlash();
    TokensAppend([SLASH], name, name + [SLASH]);
    NamesInAppend([[]], [name]);
    assert Parse(path).toks == [[]] + [name] && Parse(path).absolute;
  }

  /** The stored name was free, unless it has a slash in front; and only in the root it has. */
  lemma NewNameWasFree(look: Look, names: seq<Text>, path: Text, d: Entry)
    requires path != [] && NUL !in path && NamesItem(names, Parse(path)) && Parse(path).toks != []
    requires look(d, LastOf(path)) == None && Reaches(look, ParentOf(names, Parse(path))) == Some(d)
    ensures look(d, StoredFor(path)) == None || SLASH in StoredFor(path)
    ensures if SlashAndName(FullPath(path)) then d == 0 else StoredFor(path) == LastOf(path)
  {
    hide ParentOf, Parse, NamesItem;
    if SlashAndName(FullPath(path)) {
      SlashedInRoot(names, path);
    }
  }

  /** The first lookup of an item of the root, whatever became of the caller's own directory. */
  lemma RootLookup(look: Look, wd: Text, sector: Entry, names: seq<Text>, path: Text)
    requires Kept(wd, sector, names) && path != [] && NUL !in path && NamesItem(names, Parse(path))
    requires Parse(path).toks != [] && IsName(LastOf(path)) && ParentOf(names, Parse(path)) == []
    ensures Plain(wd)
    ensures LooksUp(look, [], 0, LastOf(path), true, GetItem(look, wd, sector, path, [], 0, false))
  {
    hide LooksUp, GetItem, Parse, IsName, NamesIn, ParentOf, DotDots;
    LastNameIsLast(Parse(path).toks);
    GetRootItemIs(look, wd, sector, names, path);
  }

  lemma AgreeingIsKept(look: Look, wd: Text, sector: Entry, names: seq<Text>)
    requires Agrees(look, wd, sector, names)
    ensures Kept(wd, sector, names)
  {
  }

  // ----- the tree after a change of one directory -----

  /** The root, or a directory whose chain nothing else links into. */
  ghost predicate SafeDir(t: Table, s: Entry) {
    s == 0 || (2 <= s < TABLE_SIZE && HasChain(t, s) && t[s] != 0 && !HasPredecessor(t, s))
  }

  lemma SafeRoot(t: Table)
    ensures SafeDir(t, 0)
  {
  }

  /** Every directory on the way along names is safe. */
  ghost predicate WaySafe(g: Geometry, v: VolumeState, names: seq<Text>) {
    forall k | 0 <= k <= |names| ::
      var s := Reaches(LookOf(g, v), names[..k]);
      s.Some? ==> SafeDir(v.table, s.value)
  }

  lemma SparedLook(g: Geometry, v: VolumeState, w: VolumeState, s: Entry, x: seq<nat>, n: Text)
    requires v.Valid(g) && w.Valid(g) && s != 0 && Chain(v.table, x) && x[0] == s && Spared(g, v, w, x)
    ensures LookOf(g, w)(s, n) == LookOf(g, v)(s, n)
  {
    assert Chain(w.table, x);
    LookAt(g, v, s, x, n);
    LookAt(g, w, s, x, n);
  }
}

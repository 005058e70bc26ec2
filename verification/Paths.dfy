/** Get_Item and Move_To_Dir over a fixed tree of directories. The scan of one directory is the function look
    (DirectoryCode.LookupIn computes it on a volume). */
module Paths {
  import opened Fat12Types
  import opened Names
  import opened PathTexts

  type Look = (Entry, Text) -> Option<DirEntry>

  function BlankEntry(): DirEntry { seq(32, _ => 0) }

  function RootEntry(): DirEntry { BlankEntry()[11 := 0x10] }

  /** The variables of Get_Item while it follows components. */
  datatype Cursor = Cursor(item: DirEntry, dir: Entry, path: Text, count: int, found: bool)

  /** What Get_Item hands back; item None is the null pointer. */
  datatype Outcome = Outcome(item: Option<DirEntry>, path: Text, count: int, found: bool)

  const ERROR_FIND: int := -1

  function Entered(s: Cursor, tok: Text, e: DirEntry): Cursor {
    Cursor(e, StartSector(e), s.path + CString(tok) + [SLASH], s.count + 1, true)
  }

  /** The loop over the working directory's components, of which only the first n are entered. */
  function FollowDir(look: Look, toks: seq<Text>, n: nat, s: Cursor): Cursor
  {
    if toks == [] then s
    else if toks[0] == [] then FollowDir(look, toks[1..], n, s)
    else if n == 0 then s
    else
      match look(s.dir, toks[0])
      case Some(e) => FollowDir(look, toks[1..], n - 1, Entered(s, toks[0], e))
      case None => FollowDir(look, toks[1..], n - 1, s.(found := false))
  }

  /** The loop over the path's components. */
  function FollowPath(look: Look, toks: seq<Text>, s: Cursor): Outcome
  {
    if toks == [] then Outcome(Some(s.item), s.path, s.count, s.found)
    else if !IsName(toks[0]) then FollowPath(look, toks[1..], s)
    else if s.found && !IsDirectory(s.item) then Outcome(None, s.path, ERROR_FIND, false)
    else
      match look(s.dir, toks[0])
      case Some(e) => FollowPath(look, toks[1..], Entered(s, toks[0], e))
      case None =>
        if toks[1..] != [] then Outcome(None, s.path, ERROR_FIND, false)
        else Outcome(Some(s.item), s.path, s.count, false)
  }

  /** Paths come from C strings; Move_To_Dir adds a terminating zero. */
  predicate Plain(path: Text) {
    forall i | 0 <= i < |path| && path[i] == NUL :: i >= 1 && i == |path| - 1
  }

  /** Get_Path_Dir_Count. */
  function DirCount(path: Text): nat
    requires Plain(path)
  {
    if path == [] then 0 else |NamesIn(Tokens(Pushed(path)))|
  }

  /** A working directory as the kernel keeps it: a slash, then every component with a slash. */
  predicate Canonical(dir: Text, names: seq<Text>) { GoodNames(names) && dir == Joined(names) }

  /** What Get_Item looks at in a path: does it name the root outright, does it start with a slash, and its
      components. */
  datatype Parsed = Parsed(root: bool, absolute: bool, toks: seq<Text>)

  function Parse(path: Text): Parsed
    requires path != [] && Plain(path)
  {
    var here := Slashed(path);
    var full := Pushed(here);
    Parsed(CString(here) == [SLASH] || CString(here) == [DOT], full[0] == SLASH, Tokens(full))
  }

  /** Where the path's components are looked up from. */
  function StartOf(look: Look, dir: Text, dirSector: Entry, p: Parsed, ret: Text, count: int, found: bool): Cursor
    requires Plain(dir)
  {
    var up := DotDots(p.toks);
    var n := DirCount(dir) - up;
    if p.absolute then Cursor(BlankEntry(), 0, ret, count, found)
    else if up > 0 then
      FollowDir(look, Tokens(dir), if n > 0 then n else 0, Cursor(BlankEntry(), 0, ret, count, found))
    else Cursor(BlankEntry(), dirSector, dir, DirCount(dir), found)
  }

  function FindParsed(look: Look, dir: Text, dirSector: Entry, p: Parsed, ret: Text, count: int, found: bool): Outcome
    requires Plain(dir)
  {
    var up := DotDots(p.toks);
    if p.root then Outcome(Some(RootEntry()), ret, 0, true)
    else if DirCount(dir) < up then Outcome(None, ret, ERROR_FIND, false)
    else if DirCount(dir) == up && NamesIn(p.toks) == [] then Outcome(Some(RootEntry()), ret, 0, true)
    else FollowPath(look, p.toks, StartOf(look, dir, dirSector, p, ret, count, found))
  }

  /** Get_Item. The last three arguments are the caller's values of the reference parameters. */
  function GetItem(look: Look, dir: Text, dirSector: Entry, path: Text, ret: Text, count: int, found: bool): Outcome
    requires Plain(dir) && Plain(path) && (path == [] ==> dir != [])
  {
    FindParsed(look, dir, dirSector, Parse(if path == [] then dir else path), ret + [SLASH], count, found)
  }

  /** The working directory after Get_Item's outcome o, and whether the move succeeded. */
  function Moved(o: Outcome, dir: Text, dirSector: Entry): (bool, Text, Entry) {
    if !o.found then (false, dir, dirSector)
    else if o.count == 0 then (true, [SLASH], 0)
    else if o.item == None || !IsDirectory(o.item.value) then (false, dir, dirSector)
    else (true, o.path, StartSector(o.item.value))
  }

  /** Move_To_Dir for a nonempty path. */
  function MoveToDir(look: Look, dir: Text, dirSector: Entry, path: Text): (bool, Text, Entry)
    requires Plain(dir) && path != [] && NUL !in path
  {
    Moved(GetItem(look, dir, dirSector, path + [NUL], [], 0, false), dir, dirSector)
  }
}

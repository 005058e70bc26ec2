/** Get_Item, Move_To_Dir and the path handling of Create_Item and Remove_Item, as the loops over strings that
    the kernel runs. */
module PathCode {
  import opened Fat12Types
  import opened Names
  import opened PathTexts
  import opened Paths
  import opened PathMeaning

  method FindByte(s: Text, b: Byte) returns (i: nat)
    ensures i <= |s| && (i < |s| ==> s[i] == b) && forall k | 0 <= k < i :: s[k] != b
  {
    i := 0;
    while i < |s| && s[i] != b
      invariant i <= |s| && forall k | 0 <= k < i :: s[k] != b
    {
      i := i + 1;
    }
  }

  method ConvertSlashes(path: Text) returns (s: Text)
    ensures s == Slashed(path)
  {
    s := path;
    ghost var done := 0;
    var i := FindByte(s, BACKSLASH);
    while i < |s|
      invariant |s| == |path| && Slashed(s) == Slashed(path)
      invariant done <= i <= |s| && (i < |s| ==> s[i] == BACKSLASH) && forall k | 0 <= k < i :: s[k] != BACKSLASH
      decreases |s| - i
    {
      var t := s[i := SLASH];
      assert forall k | 0 <= k < |s| :: Slashed(t)[k] == Slashed(s)[k];
      s, done := t, i + 1;
      i := FindByte(s, BACKSLASH);
    }
    assert forall k | 0 <= k < |s| :: Slashed(s)[k] == s[k];
  }

  method SplitFirst(s: Text) returns (i: nat)
    ensures i == FirstSlash(s)
  {
    i := FindByte(s, SLASH);
    FirstSlashIs(s, i);
  }

  method PathDirCount(path: Text) returns (count: nat)
    requires Plain(path)
    ensures count == DirCount(path)
  {
    if |path| == 0 {
      return 0;
    }
    var rest := Pushed(path);
    count := 0;
    var i := SplitFirst(rest);
    while i < |rest|
      invariant i == FirstSlash(rest) && count + |NamesIn(Tokens(rest))| == DirCount(path)
      decreases |rest|
    {
      var tok := rest[..i];
      rest := rest[i + 1..];
      if i != 0 && CString(tok) != DOTDOT {
        count := count + 1;
      }
      i := SplitFirst(rest);
    }
  }

  method CountDotDots(full: Text) returns (n: nat)
    ensures n == DotDots(Tokens(full))
  {
    var rest := full;
    n := 0;
    var i := SplitFirst(rest);
    while i < |rest|
      invariant i == FirstSlash(rest) && n + DotDots(Tokens(rest)) == DotDots(Tokens(full))
      decreases |rest|
    {
      var tok := rest[..i];
      rest := rest[i + 1..];
      if CString(tok) == DOTDOT {
        n := n + 1;
      }
      i := SplitFirst(rest);
    }
  }

  /** The loop over the working directory, entering its first n components. */
  method WalkDir(look: Look, dir: Text, n: nat, s: Cursor) returns (r: Cursor)
    ensures r == FollowDir(look, Tokens(dir), n, s)
  {
    r := s;
    var rest, left := dir, n;
    var i := SplitFirst(rest);
    while i < |rest| && (i == 0 || left > 0)
      invariant i == FirstSlash(rest)
      invariant FollowDir(look, Tokens(rest), left, r) == FollowDir(look, Tokens(dir), n, s)
      decreases |rest|
    {
      ghost var toks := Tokens(rest);
      var tok := rest[..i];
      rest := rest[i + 1..];
      assert toks[0] == tok && toks[1..] == Tokens(rest);
      if i != 0 {
        var e := look(r.dir, tok);
        r := if e.Some? then Entered(r, tok, e.value) else r.(found := false);
        left := left - 1;
      }
      i := SplitFirst(rest);
    }
  }

  /** The loop over the path. */
  method WalkPath(look: Look, full: Text, s: Cursor) returns (o: Outcome)
    ensures o == FollowPath(look, Tokens(full), s)
  {
    var r, rest := s, full;
    var i := SplitFirst(rest);
    while i < |rest|
      invariant i == FirstSlash(rest)
      invariant FollowPath(look, Tokens(rest), r) == FollowPath(look, Tokens(full), s)
      decreases |rest|
    {
      var tok := rest[..i];
      rest := rest[i + 1..];
      if i != 0 && CString(tok) != DOTDOT {
        if r.found && !IsDirectory(r.item) {
          return Outcome(None, r.path, ERROR_FIND, false);
        }
        var e := look(r.dir, tok);
        if e.Some? {
          r := Entered(r, tok, e.value);
        } else {
          r := r.(found := false);
          var more := SplitFirst(rest);
          if more < |rest| {
            return Outcome(None, r.path, ERROR_FIND, false);
          }
        }
      }
      i := SplitFirst(rest);
    }
    o := Outcome(Some(r.item), r.path, r.count, r.found);
  }

  /** The end of Get_Item: choose where to start, then follow the path. */
  method Search(look: Look, dir: Text, dirSector: Entry, full: Text, depth: nat, up: nat, ret: Text, count: int,
                found: bool)
    returns (o: Outcome)
    requires Plain(dir) && full != [] && depth == DirCount(dir) && up == DotDots(Tokens(full)) && up <= depth
    ensures o == FollowPath(look, Tokens(full),
                            StartOf(look, dir, dirSector, Parsed(false, full[0] == SLASH, Tokens(full)), ret, count, found))
  {
    hide FollowPath, FollowDir, Tokens, DotDots, DirCount;
    var s := Cursor(BlankEntry(), 0, ret, count, found);
    if full[0] == SLASH {
    } else if up > 0 {
      s := WalkDir(look, dir, depth - up, s);
    } else {
      s := Cursor(BlankEntry(), dirSector, dir, depth, found);
    }
    o := WalkPath(look, full, s);
  }

  /** ret, count and found are the reference parameters on entry; the outcome holds them on return. */
  method GetItem(look: Look, dir: Text, dirSector: Entry, path: Text, ret: Text, count: int, found: bool)
    returns (o: Outcome)
    requires Plain(dir) && Plain(path) && (path == [] ==> dir != [])
    ensures o == Paths.GetItem(look, dir, dirSector, path, ret, count, found)
  {
    var here := ConvertSlashes(if |path| == 0 then dir else path);
    o := Locate(look, dir, dirSector, here, ret + [SLASH], count, found);
  }

  method Locate(look: Look, dir: Text, dirSector: Entry, here: Text, ret: Text, count: int, found: bool)
    returns (o: Outcome)
    requires Plain(dir) && here != [] && Plain(here)
    ensures var p := Parsed(CString(here) == [SLASH] || CString(here) == [DOT], Pushed(here)[0] == SLASH,
                            Tokens(Pushed(here)));
            o == FindParsed(look, dir, dirSector, p, ret, count, found)
  {
    if CString(here) == [SLASH] || CString(here) == [DOT] {
      return Outcome(Some(RootEntry()), ret, 0, true);
    }
    var full := Pushed(here);
    var up := CountDotDots(full);
    var depth := PathDirCount(dir);
    PushedTwice(here);
    var names := PathDirCount(full);
    if depth < up {
      return Outcome(None, ret, ERROR_FIND, false);
    }
    if depth - up == 0 && names == 0 {
      return Outcome(Some(RootEntry()), ret, 0, true);
    }
    o := Search(look, dir, dirSector, full, depth, up, ret, count, found);
  }

  lemma PushedTwice(s: Text)
    requires s != [] && Plain(s)
    ensures Plain(Pushed(s)) && Pushed(Pushed(s)) == Pushed(s)
  {
  }

  /** Move_To_Dir; the empty path only prints the working directory. */
  method MoveToDir(look: Look, dir: Text, dirSector: Entry, path: Text)
    returns (ok: bool, dir': Text, dirSector': Entry)
    requires Plain(dir) && NUL !in path
    ensures if path == [] then ok && dir' == dir && dirSector' == dirSector
            else (ok, dir', dirSector') == Paths.MoveToDir(look, dir, dirSector, path)
  {
    if |path| == 0 {
      return true, dir, dirSector;
    }
    assert forall i | 0 <= i < |path| :: path[i] in path;
    var o := GetItem(look, dir, dirSector, path + [NUL], [], 0, false);
    if !o.found {
      return false, dir, dirSector;
    }
    if o.count == 0 {
      return true, [SLASH], 0;
    }
    if o.item == None || !IsDirectory(o.item.value) {
      return false, dir, dirSector;
    }
    return true, o.path, StartSector(o.item.value);
  }

  /** The loop in Remove_Item that cuts the parent's path out of the found path. */
  method CutParentPath(found: Text, count: nat) returns (parent: Text)
    requires count >= 1
    ensures parent == UpToSlash(found, count)
  {
    hide UpToSlash;
    UpToNothing(found, count);
    parent := [];
    var j := 0;
    for i := 0 to |found|
      invariant j < count && parent + UpToSlash(found[i..], count - j) == UpToSlash(found, count)
    {
      UpToSlashStep(found, i, count - j);
      parent := parent + [found[i]];
      if found[i] == SLASH {
        j := j + 1;
      }
      if j > count - 1 {
        UpToNothing(found[i + 1..], 0);
        return;
      }
    }
    UpToNothing(found[|found|..], count - j);
  }

  lemma UpToSlashStep(s: Text, i: nat, k: nat)
    requires i < |s| && k > 0
    ensures UpToSlash(s[i..], k) == [s[i]] + UpToSlash(s[i + 1..], if s[i] == SLASH then k - 1 else k)
  {
  }

  lemma UpToNothing(s: Text, k: nat)
    ensures s == [] || k == 0 ==> UpToSlash(s, k) == []
    ensures s[0..] == s
  {
  }

  /** The loop in Create_Item that takes the file name off a path ending in a slash. */
  method TakeFileName(full: Text) returns (name: Text)
    requires |full| >= 2 && full[|full| - 1] == SLASH
    ensures name == FileNameOf(full)
  {
    var i := |full| - 2;
    while i > 0
      invariant 0 <= i <= |full| - 2 && NameStart(full, i) == NameStart(full, |full| - 2)
    {
      if full[i] == SLASH {
        i := i + 1;
        break;
      }
      i := i - 1;
    }
    name := full[i..|full| - 1];
  }
}

/** How the kernel's treatment of ".." compares with the usual one, and which parent directory Create_Item and
    Remove_Item look up. */
module PathMeaning {
  import opened Fat12Types
  import opened Names
  import opened PathTexts
  import opened Paths
  import opened WorkingDir

  // ----- ".." -----

  /** The usual meaning of a relative path: each ".." drops the last component collected so far. */
  function Normal(names: seq<Text>, toks: seq<Text>): Option<seq<Text>>
    decreases |toks|
  {
    if toks == [] then Some(names)
    else if IsName(toks[0]) then Normal(names + [toks[0]], toks[1..])
    else if CString(toks[0]) == DOTDOT then
      if names == [] then None else Normal(names[..|names| - 1], toks[1..])
    else Normal(names, toks[1..])
  }

  /** No ".." comes after a name. */
  predicate Leading(toks: seq<Text>)
  {
    if toks == [] then true
    else if IsName(toks[0]) then DotDots(toks[1..]) == 0
    else Leading(toks[1..])
  }

  /** Where the kernel goes: all ".." first, then all names. */
  function DropThenAppend(names: seq<Text>, toks: seq<Text>): seq<Text>
    requires DotDots(toks) <= |names|
  {
    names[..|names| - DotDots(toks)] + NamesIn(toks)
  }

  /** For a relative path Target is DropThenAppend. */
  lemma TargetIsDropThenAppend(names: seq<Text>, p: Parsed)
    requires !p.root && !p.absolute && DotDots(p.toks) <= |names|
    ensures Target(names, p) == DropThenAppend(names, p.toks)
  {
  }

  lemma {:induction false} NormalAppends(names: seq<Text>, toks: seq<Text>)
    requires DotDots(toks) == 0
    ensures Normal(names, toks) == Some(names + NamesIn(toks))
    decreases |toks|
  {
    if toks == [] {
      assert names + [] == names;
    } else if IsName(toks[0]) {
      NormalAppends(names + [toks[0]], toks[1..]);
      assert names + [toks[0]] + NamesIn(toks[1..]) == names + NamesIn(toks);
    } else {
      NormalAppends(names, toks[1..]);
      assert NamesIn(toks) == NamesIn(toks[1..]);
    }
  }

  lemma {:induction false} LeadingIsNormal(names: seq<Text>, toks: seq<Text>)
    requires Leading(toks) && DotDots(toks) <= |names|
    ensures Normal(names, toks) == Some(DropThenAppend(names, toks))
    decreases |toks|
  {
    if DotDots(toks) == 0 {
      NormalAppends(names, toks);
      assert names[..|names|] == names;
    } else {
      var rest := toks[1..];
      assert NamesIn(toks) == NamesIn(rest);
      if CString(toks[0]) == DOTDOT {
        var r := names[..|names| - 1];
        LeadingIsNormal(r, rest);
        assert r[..|r| - DotDots(rest)] == names[..|names| - DotDots(toks)];
      } else {
        LeadingIsNormal(names, rest);
      }
    }
  }

  function Copies(z: Text, m: nat): (r: seq<Text>)
    ensures |r| == m && forall i | 0 <= i < m :: r[i] == z
  {
    seq(m, _ => z)
  }

  /** More copies of z at the bottom than ".." to come: some z stays at the bottom. */
  lemma {:induction false} BottomStays(z: Text, m: nat, q: seq<Text>, toks: seq<Text>)
    requires m > DotDots(toks)
    ensures Normal(Copies(z, m) + q, toks).Some?
    ensures |Normal(Copies(z, m) + q, toks).value| > 0 && Normal(Copies(z, m) + q, toks).value[0] == z
    decreases |toks|
  {
    if toks != [] {
      var s, rest := Copies(z, m) + q, toks[1..];
      if IsName(toks[0]) {
        BottomStays(z, m, q + [toks[0]], rest);
        assert Copies(z, m) + (q + [toks[0]]) == s + [toks[0]];
      } else if CString(toks[0]) == DOTDOT {
        if q == [] {
          BottomStays(z, m - 1, [], rest);
          assert s[..|s| - 1] == Copies(z, m - 1) + [];
        } else {
          BottomStays(z, m, q[..|q| - 1], rest);
          assert s[..|s| - 1] == Copies(z, m) + q[..|q| - 1];
        }
      } else {
        BottomStays(z, m, q, rest);
      }
    }
  }

  /** With a name on top and ".." to come, one ".." takes that name instead of a z. */
  lemma {:induction false} NameIsDropped(z: Text, m: nat, q: seq<Text>, toks: seq<Text>)
    requires m == DotDots(toks) > 0 && q != []
    ensures Normal(Copies(z, m) + q, toks).Some?
    ensures |Normal(Copies(z, m) + q, toks).value| > 0 && Normal(Copies(z, m) + q, toks).value[0] == z
    decreases |toks|
  {
    var s, rest := Copies(z, m) + q, toks[1..];
    if IsName(toks[0]) {
      NameIsDropped(z, m, q + [toks[0]], rest);
      assert Copies(z, m) + (q + [toks[0]]) == s + [toks[0]];
    } else if CString(toks[0]) == DOTDOT {
      BottomStays(z, m, q[..|q| - 1], rest);
      assert s[..|s| - 1] == Copies(z, m) + q[..|q| - 1];
    } else {
      NameIsDropped(z, m, q, rest);
    }
  }

  lemma {:induction false} NotLeadingKeepsBottom(z: Text, m: nat, toks: seq<Text>)
    requires m == DotDots(toks) && !Leading(toks)
    ensures Normal(Copies(z, m), toks).Some?
    ensures |Normal(Copies(z, m), toks).value| > 0 && Normal(Copies(z, m), toks).value[0] == z
    decreases |toks|
  {
    var rest := toks[1..];
    if IsName(toks[0]) {
      NameIsDropped(z, m, [toks[0]], rest);
    } else if CString(toks[0]) == DOTDOT {
      NotLeadingKeepsBottom(z, m - 1, rest);
      assert Copies(z, m)[..m - 1] == Copies(z, m - 1);
    } else {
      NotLeadingKeepsBottom(z, m, rest);
    }
  }

  function LongestOf(toks: seq<Text>): (n: nat)
    ensures forall i | 0 <= i < |toks| :: |toks[i]| <= n
  {
    if toks == [] then 0
    else
      var r := LongestOf(toks[1..]);
      assert forall i | 1 <= i < |toks| :: toks[i] == toks[1..][i - 1];
      if |toks[0]| > r then |toks[0]| else r
  }

  /** The kernel gives a path its usual meaning, from every working directory that is deep enough, exactly when
      all its ".." come before its names. */
  lemma UsualMeaningIff(toks: seq<Text>)
    ensures (forall names | DotDots(toks) <= |names| :: Normal(names, toks) == Some(DropThenAppend(names, toks)))
            <==> Leading(toks)
  {
    if Leading(toks) {
      forall names | DotDots(toks) <= |names| ensures Normal(names, toks) == Some(DropThenAppend(names, toks)) {
        LeadingIsNormal(names, toks);
      }
    } else {
      var z: Text := seq(LongestOf(NamesIn(toks)) + 1, _ => 0x41);
      var m := DotDots(toks);
      NotLeadingKeepsBottom(z, m, toks);
      assert Copies(z, m)[..0] + NamesIn(toks) == NamesIn(toks);
      assert DropThenAppend(Copies(z, m), toks) == NamesIn(toks);
      assert z !in NamesIn(toks);
    }
  }

  // ----- the parent directory -----

  /** The part of a path up to its k-th slash. */
  function UpToSlash(path: Text, k: nat): Text
    decreases |path|
  {
    if path == [] || k == 0 then []
    else [path[0]] + UpToSlash(path[1..], if path[0] == SLASH then k - 1 else k)
  }

  lemma {:induction false} UpToSlashOver(a: Text, b: Text, k: nat)
    requires SLASH !in a && k > 0
    ensures UpToSlash(a + b, k) == a + UpToSlash(b, k)
  {
    if a == [] {
      assert a + b == b;
    } else {
      assert a[0] in a;
      assert (a + b)[1..] == a[1..] + b;
      UpToSlashOver(a[1..], b, k);
      assert a == [a[0]] + a[1..];
    }
  }

  /** Components with a slash behind each. */
  function Listed(names: seq<Text>): Text {
    if names == [] then [] else names[0] + [SLASH] + Listed(names[1..])
  }

  lemma {:induction false} ListedAppend(names: seq<Text>, last: Text)
    ensures Listed(names + [last]) == Listed(names) + last + [SLASH]
  {
    if names == [] {
      assert [last][1..] == [];
      assert names + [last] == [last];
    } else {
      assert (names + [last])[1..] == names[1..] + [last];
      ListedAppend(names[1..], last);
    }
  }

  lemma {:induction false} JoinedIsListed(names: seq<Text>)
    ensures Joined(names) == [SLASH] + Listed(names)
  {
    if names != [] {
      JoinedIsListed(names[..|names| - 1]);
      ListedAppend(names[..|names| - 1], names[|names| - 1]);
      assert names == names[..|names| - 1] + [names[|names| - 1]];
    }
  }

  lemma {:induction false} UpToSlashListed(names: seq<Text>, k: nat)
    requires GoodNames(names) && k <= |names|
    ensures UpToSlash(Listed(names), k) == Listed(names[..k])
    decreases |names|
  {
    if k > 0 {
      assert GoodName(names[0]);
      var rest := names[1..];
      UpToSlashOver(names[0], [SLASH] + Listed(rest), k);
      assert Listed(names) == names[0] + ([SLASH] + Listed(rest));
      assert ([SLASH] + Listed(rest))[1..] == Listed(rest);
      UpToSlashListed(rest, k - 1);
      assert names[..k][1..] == rest[..k - 1];
    }
  }

  /** Remove_Item cuts the found path at its count-th slash; that is the parent's path. */
  lemma ParentPath(names: seq<Text>)
    requires GoodNames(names) && names != []
    ensures UpToSlash(Joined(names), |names|) == Joined(names[..|names| - 1])
  {
    JoinedIsListed(names);
    JoinedIsListed(names[..|names| - 1]);
    assert ([SLASH] + Listed(names))[1..] == Listed(names);
    UpToSlashListed(names, |names| - 1);
  }

  lemma ParseJoined(names: seq<Text>)
    requires GoodNames(names) && names != []
    ensures Plain(Joined(names))
    ensures var p := Parse(Joined(names));
            !p.root && p.absolute && NamesIn(p.toks) == names && DotDots(p.toks) == 0
  {
    hide Tokens, NamesIn, DotDots, CString;
    var j := Joined(names);
    JoinedNoBackslash(names);
    JoinedClean(names);
    assert Slashed(j) == j;
    CStringClean(j);
    JoinedIsListed(names);
    NamesOfJoined(names);
    assert GoodName(names[0]);
    assert |j| >= 3;
  }

  lemma {:induction false} JoinedNoBackslash(names: seq<Text>)
    requires GoodNames(names)
    ensures BACKSLASH !in Joined(names)
  {
    if names != [] {
      assert GoodName(names[|names| - 1]);
      JoinedNoBackslash(names[..|names| - 1]);
    }
  }

  lemma DeepParentIsNull(look: Look, dir: Text, sector: Entry, parent: seq<Text>, ret: Text, count: int)
    requires Plain(dir) && GoodNames(parent) && parent != []
    ensures Plain(Joined(parent))
    ensures GetItem(look, dir, sector, Joined(parent), ret, count, true).item == None
  {
    hide Tokens, NamesIn, Joined, Parse, FollowDir, FollowPath, DirCount;
    ParseJoined(parent);
    var p := Parse(Joined(parent));
    NotPastBlank(look, p.toks, Cursor(BlankEntry(), 0, ret + [SLASH], count, true));
  }

  /** Remove_Item passes Get_Item's reference parameters on: found is still true when the parent is looked up.
      So the parent of an item that was found is found exactly when it is the root; else the result is null. */
  lemma RemoveFindsParentIff(look: Look, dir: Text, sector: Entry, item: seq<Text>, path: Text, ret: Text)
    requires Plain(dir) && GoodNames(item) && item != [] && path == UpToSlash(Joined(item), |item|)
    ensures Plain(path)
    ensures GetItem(look, dir, sector, path, ret, |item|, true).item.Some? <==> |item| == 1
  {
    ParentPath(item);
    ParentLookup(look, dir, sector, item[..|item| - 1], path, ret, |item|);
  }

  lemma ParentLookup(look: Look, dir: Text, sector: Entry, parent: seq<Text>, path: Text, ret: Text, count: int)
    requires Plain(dir) && GoodNames(parent) && path == Joined(parent)
    ensures Plain(path) && (GetItem(look, dir, sector, path, ret, count, true).item.Some? <==> parent == [])
  {
    if parent == [] {
      RootIsFound(look, dir, sector, ret, count, true);
    } else {
      DeepParentIsNull(look, dir, sector, parent, ret, count);
    }
  }

  lemma RootIsFound(look: Look, dir: Text, sector: Entry, ret: Text, count: int, found: bool)
    requires Plain(dir)
    ensures Plain(Joined([]))
    ensures GetItem(look, dir, sector, Joined([]), ret, count, found) ==
            Outcome(Some(RootEntry()), ret + [SLASH], 0, true)
    ensures StartSector(RootEntry()) == 0
  {
    RootPathParses();
  }

  lemma RootPathParses()
    ensures Plain([SLASH]) && Parse([SLASH]).root
  {
  }

  lemma {:induction false} NotPastBlank(look: Look, toks: seq<Text>, s: Cursor)
    requires s.found && !IsDirectory(s.item) && NamesIn(toks) != []
    ensures FollowPath(look, toks, s).item == None
  {
    if !IsName(toks[0]) {
      NotPastBlank(look, toks[1..], s);
    }
  }

  /** Create_Item looks the parent up again by its full path, with found false, and gets its sector. */
  lemma CreateFindsParent(look: Look, dir: Text, sector: Entry, names: seq<Text>, parent: seq<Text>, ret: Text, count: int)
    requires Agrees(look, dir, sector, names) && GoodNames(parent) && parent != [] && Reaches(look, parent).Some?
    ensures Plain(dir) && Plain(Joined(parent))
    ensures var o := GetItem(look, dir, sector, Joined(parent), ret, count, false);
            o.found && o.item.Some? && Reaches(look, parent) == Some(StartSector(o.item.value))
  {
    DirCountOf(names);
    ParseJoined(parent);
    var p := Parse(Joined(parent));
    assert NamesIn(p.toks) != [];
    FollowFrom(look, p.toks, Cursor(BlankEntry(), 0, ret + [SLASH], count, false));
  }

  /** The entry a path from the root leads to does not depend on the caller's path and count. */
  lemma FollowFrom(look: Look, toks: seq<Text>, s: Cursor)
    requires GoodNames(NamesIn(toks)) && NamesIn(toks) != [] && !s.found && s.dir == 0
    requires Reaches(look, NamesIn(toks)).Some?
    ensures var o := FollowPath(look, toks, s);
            o.found && o.item.Some? && Reaches(look, NamesIn(toks)) == Some(StartSector(o.item.value))
  {
    var s0 := s.(path := [SLASH], count := 0);
    FollowPathTo(look, [], toks, s0);
    assert [] + NamesIn(toks) == NamesIn(toks);
    PathAndCountIgnored(look, toks, s, s0);
  }

  lemma {:induction false} PathAndCountIgnored(look: Look, toks: seq<Text>, s: Cursor, s0: Cursor)
    requires s.item == s0.item && s.dir == s0.dir && s.found == s0.found
    ensures FollowPath(look, toks, s).item == FollowPath(look, toks, s0).item
    ensures FollowPath(look, toks, s).found == FollowPath(look, toks, s0).found
    decreases |toks|
  {
    if toks != [] {
      if !IsName(toks[0]) {
        PathAndCountIgnored(look, toks[1..], s, s0);
      } else if !(s.found && !IsDirectory(s.item)) {
        var e := look(s.dir, toks[0]);
        if e.Some? {
          PathAndCountIgnored(look, toks[1..], Entered(s, toks[0], e.value), Entered(s0, toks[0], e.value));
        }
      }
    }
  }

  // ----- the name Create_Item stores -----

  /** Where the file name starts: behind the last slash before the final one, except that index 0 is never
      looked at. */
  function NameStart(s: Text, i: nat): (r: nat)
    requires i < |s|
    ensures r <= i + 1
  {
    if i == 0 then 0 else if s[i] == SLASH then i + 1 else NameStart(s, i - 1)
  }

  /** The file name taken from a path that ends in a slash. */
  function FileNameOf(s: Text): Text
    requires |s| >= 2 && s[|s| - 1] == SLASH
  {
    s[NameStart(s, |s| - 2)..|s| - 1]
  }

  /** name is the last component of the path s, which ends in a slash. */
  predicate IsLastComponent(s: Text, name: Text)
    requires |s| >= 2 && s[|s| - 1] == SLASH
  {
    var k := |s| - 1 - |name|;
    && k >= 0 && name == s[k..|s| - 1] && (k > 0 ==> s[k - 1] == SLASH)
    && forall i | k <= i < |s| - 1 :: s[i] != SLASH
  }

  lemma {:induction false} NameStartIs(s: Text, i: nat)
    requires i < |s|
    ensures var r := NameStart(s, i);
            && (forall h | r <= h <= i && h > 0 :: s[h] != SLASH)
            && (r > 0 ==> r >= 2 && s[r - 1] == SLASH)
  {
    if i > 0 && s[i] != SLASH {
      NameStartIs(s, i - 1);
    }
  }

  /** Create_Item stores the path's last component, except for a path like "/name": there it keeps the slash. */
  lemma FileNameIsLastIff(s: Text)
    requires |s| >= 2 && s[|s| - 1] == SLASH
    ensures IsLastComponent(s, FileNameOf(s)) <==>
            !(s[0] == SLASH && forall i | 0 < i < |s| - 1 :: s[i] != SLASH)
  {
    var r := NameStart(s, |s| - 2);
    NameStartIs(s, |s| - 2);
    assert |FileNameOf(s)| == |s| - 1 - r;
    assert r > 0 ==> s[r - 1] == SLASH && 0 < r - 1 < |s| - 1;
  }
}

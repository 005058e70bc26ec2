/** Path strings: separators, components and the joined form of a working directory. */
module PathTexts {
  import opened Fat12Types
  import opened Names

  const NUL: Byte := 0
  const BACKSLASH: Byte := 0x5C
  const DOTDOT: Text := [DOT, DOT]

  /** What a C string function sees of s. */
  function CString(s: Text): (r: Text)
    ensures |r| <= |s| && r == s[..|r|] && NUL !in r
    ensures |r| < |s| ==> s[|r|] == NUL
  {
    if s == [] || s[0] == NUL then [] else [s[0]] + CString(s[1..])
  }

  function Slashed(s: Text): (r: Text)
    ensures |r| == |s|
  {
    seq(|s|, i requires 0 <= i < |s| => if s[i] == BACKSLASH then SLASH else s[i])
  }

  /** Push_Back: a slash is put at the end, over a terminating zero, unless there is one. */
  function Pushed(s: Text): (r: Text)
    requires s != [] && (s[|s| - 1] == NUL ==> |s| >= 2)
  {
    var i := if s[|s| - 1] == NUL then 2 else 1;
    if s[|s| - i] != SLASH then s[..|s| - (i - 1)] + [SLASH] else s
  }

  function FirstSlash(s: Text): (i: nat)
    ensures i <= |s| && (i < |s| ==> s[i] == SLASH)
    ensures forall k | 0 <= k < i :: s[k] != SLASH
  {
    if s == [] || s[0] == SLASH then 0 else 1 + FirstSlash(s[1..])
  }

  /** The pieces that end in a slash; what follows the last slash is dropped. */
  function Tokens(s: Text): (r: seq<Text>)
    decreases |s|
  {
    var i := FirstSlash(s);
    if i == |s| then [] else [s[..i]] + Tokens(s[i + 1..])
  }

  predicate IsName(tok: Text) { tok != [] && CString(tok) != DOTDOT }

  function NamesIn(toks: seq<Text>): (r: seq<Text>)
    ensures |r| <= |toks|
  {
    if toks == [] then [] else (if IsName(toks[0]) then [toks[0]] else []) + NamesIn(toks[1..])
  }

  function DotDots(toks: seq<Text>): (n: nat)
    ensures n <= |toks|
  {
    if toks == [] then 0 else (if CString(toks[0]) == DOTDOT then 1 else 0) + DotDots(toks[1..])
  }

  // ----- canonical working directories -----

  predicate GoodName(n: Text) { IsName(n) && SLASH !in n && NUL !in n && BACKSLASH !in n }

  predicate GoodNames(names: seq<Text>) { forall i | 0 <= i < |names| :: GoodName(names[i]) }

  function Joined(names: seq<Text>): (r: Text)
    ensures |r| >= 1 && r[|r| - 1] == SLASH
  {
    if names == [] then [SLASH] else Joined(names[..|names| - 1]) + names[|names| - 1] + [SLASH]
  }

  lemma FirstSlashIs(s: Text, i: nat)
    requires i <= |s| && (i < |s| ==> s[i] == SLASH) && forall k | 0 <= k < i :: s[k] != SLASH
    ensures FirstSlash(s) == i
  {
  }

  lemma TokensOfOne(tok: Text)
    requires SLASH !in tok
    ensures Tokens(tok + [SLASH]) == [tok]
  {
    var all := tok + [SLASH];
    assert forall k | 0 <= k < |tok| :: all[k] == tok[k];
    assert all[..|tok|] == tok;
    FirstSlashIs(all, |tok|);
    assert all[|tok| + 1..] == [];
    assert Tokens([]) == [];
  }

  lemma {:induction false} TokensAppend(s: Text, tok: Text, end: Text)
    requires SLASH !in tok && end == tok + [SLASH]
    requires s == [] || s[|s| - 1] == SLASH
    ensures Tokens(s + end) == Tokens(s) + [tok]
    decreases |s|
  {
    if s == [] {
      TokensOfOne(tok);
      assert s + end == end;
    } else {
      hide Tokens, FirstSlash;
      var i := FirstSlash(s);
      assert s[|s| - 1] == SLASH;
      TokensSplit(s, end);
      var r := s[i + 1..];
      assert r == [] || r[|r| - 1] == SLASH;
      TokensAppend(r, tok, end);
      assert [s[..i]] + (Tokens(r) + [tok]) == [s[..i]] + Tokens(r) + [tok];
    }
  }

  /** The first token of s stays the first when something is appended. */
  lemma TokensSplit(s: Text, tail: Text)
    requires FirstSlash(s) < |s|
    ensures var i := FirstSlash(s);
            Tokens(s) == [s[..i]] + Tokens(s[i + 1..]) && Tokens(s + tail) == [s[..i]] + Tokens(s[i + 1..] + tail)
  {
    var i := FirstSlash(s);
    var all := s + tail;
    FirstSlashIs(all, i);
    assert all[..i] == s[..i] && all[i + 1..] == s[i + 1..] + tail;
  }

  lemma TokensOfSlash()
    ensures Tokens([SLASH]) == [[]]
  {
  }

  lemma LastGood(names: seq<Text>)
    requires GoodNames(names) && names != []
    ensures var r, last := names[..|names| - 1], names[|names| - 1];
            GoodNames(r) && SLASH !in last && Joined(names) == Joined(r) + (last + [SLASH])
  {
    assert GoodName(names[|names| - 1]);
  }

  lemma {:induction false} TokensOfJoined(names: seq<Text>)
    requires GoodNames(names)
    ensures Tokens(Joined(names)) == [[]] + names
  {
    if names == [] {
      TokensOfSlash();
    } else {
      hide *;
      var r, last := names[..|names| - 1], names[|names| - 1];
      LastGood(names);
      TokensOfJoined(r);
      TokensAppend(Joined(r), last, last + [SLASH]);
      assert [[]] + names == [[]] + r + [last];
    }
  }

  lemma NamesStep(toks: seq<Text>)
    requires toks != []
    ensures NamesIn(toks) == if IsName(toks[0]) then [toks[0]] + NamesIn(toks[1..]) else NamesIn(toks[1..])
  {
  }

  lemma {:induction false} NamesInAppend(a: seq<Text>, b: seq<Text>)
    ensures NamesIn(a + b) == NamesIn(a) + NamesIn(b)
  {
    if a == [] {
      assert a + b == b;
    } else {
      assert (a + b)[1..] == a[1..] + b && (a + b)[0] == a[0];
      NamesInAppend(a[1..], b);
      NamesStep(a);
      NamesStep(a + b);
    }
  }

  lemma {:induction false} DotDotsAppend(a: seq<Text>, b: seq<Text>)
    ensures DotDots(a + b) == DotDots(a) + DotDots(b)
  {
    if a == [] {
      assert a + b == b;
    } else {
      assert (a + b)[1..] == a[1..] + b;
      DotDotsAppend(a[1..], b);
    }
  }

  lemma {:induction false} GoodNamesAreNames(names: seq<Text>)
    requires GoodNames(names)
    ensures NamesIn(names) == names && DotDots(names) == 0
  {
    if names != [] {
      var r := names[1..];
      assert forall i | 0 <= i < |r| :: r[i] == names[i + 1];
      GoodNamesAreNames(r);
      assert GoodName(names[0]);
      assert names == [names[0]] + r;
    }
  }

  /** The names of a canonical working directory are found again in it. */
  lemma NamesOfJoined(names: seq<Text>)
    requires GoodNames(names)
    ensures NamesIn(Tokens(Joined(names))) == names && DotDots(Tokens(Joined(names))) == 0
  {
    TokensOfJoined(names);
    GoodNamesAreNames(names);
    NamesInAppend([[]], names);
    DotDotsAppend([[]], names);
    assert NamesIn([[]]) == [] && DotDots([[]]) == 0;
  }

  /** Every token of a path without zeros, backslashes replaced, is free of slashes, zeros and backslashes. */
  lemma {:induction false} TokensClean(s: Text)
    requires BACKSLASH !in s && (forall i | 0 <= i < |s| && s[i] == NUL :: i == |s| - 1)
    requires s != [] ==> s[|s| - 1] == SLASH || (|s| >= 2 && s[|s| - 1] == NUL && s[|s| - 2] == SLASH)
    ensures forall i | 0 <= i < |Tokens(s)| ::
              SLASH !in Tokens(s)[i] && NUL !in Tokens(s)[i] && BACKSLASH !in Tokens(s)[i]
    decreases |s|
  {
    var i := FirstSlash(s);
    if i < |s| {
      var tok := s[..i];
      forall b | b in tok ensures b != NUL && b != BACKSLASH {
        var k :| 0 <= k < |tok| && tok[k] == b;
        assert s[k] == b;
      }
      var r := s[i + 1..];
      if r != [] && r != [NUL] {
        assert forall k | 0 <= k < |r| :: r[k] == s[i + 1 + k];
        TokensClean(r);
      } else if r == [NUL] {
        FirstSlashIs(r, 1);
      }
    }
  }

  lemma {:induction false} NamesAreGood(toks: seq<Text>)
    requires forall i | 0 <= i < |toks| :: SLASH !in toks[i] && NUL !in toks[i] && BACKSLASH !in toks[i]
    ensures GoodNames(NamesIn(toks))
  {
    if toks != [] {
      assert forall i | 0 <= i < |toks[1..]| :: toks[1..][i] == toks[i + 1];
      NamesAreGood(toks[1..]);
    }
  }
}

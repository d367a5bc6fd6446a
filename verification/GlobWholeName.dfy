/** For which patterns the unanchored search of searchFilesRec accepts the same names as the glob itself. */
module GlobWholeName {
  import opened GlobPattern

  predicate Wild(c: char) {
    c == '*' || c == '?'
  }

  /** The wildcards at the start of p include a '*'. */
  predicate OpenStart(p: string) {
    p != "" && (p[0] == '*' || (p[0] == '?' && OpenStart(p[1..])))
  }

  predicate AllWild(p: string) {
    forall i :: 0 <= i < |p| ==> Wild(p[i])
  }

  /** The wildcards at the end of p include a '*'. */
  predicate OpenEnd(p: string) {
    p != "" && ((p[0] == '*' && AllWild(p[1..])) || OpenEnd(p[1..]))
  }

  // ---- such patterns match inside a longer name as a whole ----

  lemma {:induction false} ExtendLeft(p: string, x: char, s: string)
    requires OpenStart(p) && GlobMatches(p, s)
    ensures GlobMatches(p, [x] + s)
  {
    if p[0] == '*' {
      var k :| 0 <= k <= |s| && GlobMatches(p[1..], s[k..]);
      assert ([x] + s)[k + 1..] == s[k..];
    } else {
      ExtendLeft(p[1..], s[0], s[1..]);
      assert ([x] + s)[1..] == [s[0]] + s[1..];
    }
  }

  /** Wildcards only count characters. */
  lemma {:induction false} AllWildCounts(p: string, s: string, t: string)
    requires AllWild(p) && |s| == |t| && GlobMatches(p, s)
    ensures GlobMatches(p, t)
    decreases |p|
  {
    if p != "" {
      assert Wild(p[0]);
      if p[0] == '*' {
        var k :| 0 <= k <= |s| && GlobMatches(p[1..], s[k..]);
        AllWildCounts(p[1..], s[k..], t[k..]);
      } else {
        AllWildCounts(p[1..], s[1..], t[1..]);
      }
    }
  }

  lemma {:induction false} ExtendRight(p: string, s: string, x: char)
    requires OpenEnd(p) && GlobMatches(p, s)
    ensures GlobMatches(p, s + [x])
    decreases |p|
  {
    var t := s + [x];
    if p[0] == '*' {
      var k :| 0 <= k <= |s| && GlobMatches(p[1..], s[k..]);
      if AllWild(p[1..]) {
        AllWildCounts(p[1..], s[k..], t[k + 1..]);
      } else {
        ExtendRight(p[1..], s[k..], x);
        assert t[k..] == s[k..] + [x];
      }
    } else {
      ExtendRight(p[1..], s[1..], x);
      assert t[1..] == s[1..] + [x];
    }
  }

  lemma {:induction false} GrowLeft(p: string, s: string, i: nat, j: nat)
    requires OpenStart(p) && i <= j <= |s| && GlobMatches(p, s[i..j])
    ensures GlobMatches(p, s[..j])
    decreases i
  {
    if i > 0 {
      ExtendLeft(p, s[i - 1], s[i..j]);
      assert [s[i - 1]] + s[i..j] == s[i - 1..j];
      GrowLeft(p, s, i - 1, j);
    } else {
      assert s[i..j] == s[..j];
    }
  }

  lemma {:induction false} GrowRight(p: string, s: string, j: nat)
    requires OpenEnd(p) && j <= |s| && GlobMatches(p, s[..j])
    ensures GlobMatches(p, s)
    decreases |s| - j
  {
    if j < |s| {
      ExtendRight(p, s[..j], s[j]);
      assert s[..j] + [s[j]] == s[..j + 1];
      GrowRight(p, s, j + 1);
    } else {
      assert s[..j] == s;
    }
  }

  // ---- any other pattern has a name that tells the two apart ----

  /** A name that matches p: nothing for '*', x for '?'. */
  function Fill(p: string, x: char): string {
    if p == "" then ""
    else (if p[0] == '*' then "" else if p[0] == '?' then [x] else [p[0]]) + Fill(p[1..], x)
  }

  lemma {:induction false} FillMatches(p: string, x: char)
    ensures GlobMatches(p, Fill(p, x))
  {
    if p != "" {
      FillMatches(p[1..], x);
      var s := Fill(p, x);
      if p[0] == '*' {
        assert s[0..] == Fill(p[1..], x);
      } else {
        assert s[1..] == Fill(p[1..], x);
      }
    }
  }

  lemma {:induction false} FillIsNewlineFree(p: string, x: char)
    requires NoNewline(p) && x != '\n'
    ensures NoNewline(Fill(p, x))
  {
    if p != "" {
      FillIsNewlineFree(p[1..], x);
      assert p[0] != '\n';
    }
  }

  /** A closed start pins the first literal to its place. */
  lemma {:induction false} ClosedStart(p: string, x: char)
    requires !OpenStart(p) && (FirstLiteral(p) != "" ==> FirstLiteral(p) != [x])
    ensures !GlobMatches(p, [x] + Fill(p, x))
  {
    if p != "" && p[0] == '?' {
      ClosedStart(p[1..], x);
      assert ([x] + Fill(p, x))[1..] == [x] + Fill(p[1..], x);
    }
  }

  /** The first character of p that is not '?', as a string; empty if there is none or it is a '*'. */
  function FirstLiteral(p: string): string {
    if p == "" || p[0] == '*' then ""
    else if p[0] == '?' then FirstLiteral(p[1..])
    else [p[0]]
  }

  /** Without '*' a pattern fixes the length and every literal's place. */
  lemma {:induction false} StarFree(p: string, s: string)
    requires '*' !in p && GlobMatches(p, s)
    ensures |s| == |p| && forall i :: 0 <= i < |p| && p[i] != '?' ==> s[i] == p[i]
  {
    if p != "" {
      StarFree(p[1..], s[1..]);
      forall i | 0 <= i < |p| && p[i] != '?' ensures s[i] == p[i] {
        if i > 0 {
          assert p[1..][i - 1] == p[i] && s[1..][i - 1] == s[i];
        }
      }
    }
  }

  lemma {:induction false} StarFreeFill(p: string, x: char)
    requires '*' !in p
    ensures |Fill(p, x)| == |p| && forall i :: 0 <= i < |p| ==> Fill(p, x)[i] == if p[i] == '?' then x else p[i]
  {
    if p != "" {
      StarFreeFill(p[1..], x);
      forall i | 0 < i < |p| ensures Fill(p, x)[i] == if p[i] == '?' then x else p[i] {
        assert p[1..][i - 1] == p[i];
      }
    }
  }

  lemma {:induction false} FillConcat(p: string, q: string, x: char)
    ensures Fill(p + q, x) == Fill(p, x) + Fill(q, x)
  {
    if p == "" {
      assert p + q == q;
    } else {
      assert (p + q)[1..] == p[1..] + q;
      FillConcat(p[1..], q, x);
    }
  }

  /** What follows the last '*' has to match the end of the name. */
  lemma {:induction false} TailMatches(p: string, tail: string, s: string)
    requires '*' !in tail && GlobMatches(p + tail, s)
    ensures |s| >= |tail| && GlobMatches(tail, s[|s| - |tail|..])
    decreases |p|
  {
    if p == "" {
      assert p + tail == tail;
      StarFree(tail, s);
      assert s[0..] == s;
    } else {
      assert (p + tail)[1..] == p[1..] + tail;
      if p[0] == '*' {
        var k :| 0 <= k <= |s| && GlobMatches((p + tail)[1..], s[k..]);
        TailMatches(p[1..], tail, s[k..]);
        assert s[k..][|s[k..]| - |tail|..] == s[|s| - |tail|..];
      } else {
        TailMatches(p[1..], tail, s[1..]);
        assert s[1..][|s[1..]| - |tail|..] == s[|s| - |tail|..];
      }
    }
  }

  /** The part of p after its last '*' (all of p if there is none). */
  function AfterLastStar(p: string): (n: nat)
    ensures n <= |p| && '*' !in p[n..]
    ensures n > 0 ==> p[n - 1] == '*'
  {
    if p == "" then 0
    else
      var n := AfterLastStar(p[1..]);
      assert p[1..][n..] == p[n + 1..];
      if n > 0 || p[0] == '*' then n + 1
      else
        assert p == [p[0]] + p[1..];
        assert p[0..] == p && p[1..][0..] == p[1..];
        0
  }

  lemma {:induction false} ClosedEndHasLiteral(p: string)
    requires !OpenEnd(p) && '*' in p
    ensures !AllWild(p[AfterLastStar(p)..])
  {
    var n := AfterLastStar(p[1..]);
    assert p == [p[0]] + p[1..];
    if n > 0 {
      assert '*' in p[1..];
      ClosedEndHasLiteral(p[1..]);
      assert p[1..][n..] == p[n + 1..];
    } else {
      assert p[1..][0..] == p[1..];
      assert p[0] == '*';
      assert p[1..][n..] == p[n + 1..];
    }
  }

  /** The last character of q that is no wildcard. */
  function LastLiteral(q: string): (i: nat)
    requires !AllWild(q)
    ensures i < |q| && !Wild(q[i]) && forall j :: i < j < |q| ==> Wild(q[j])
  {
    var n := |q| - 1;
    if Wild(q[n]) then
      assert forall j :: 0 <= j < n ==> q[j] == q[..n][j];
      var i := LastLiteral(q[..n]);
      assert q[..n][i] == q[i];
      i
    else n
  }

  /** A character that is not c, and no line break. */
  function Other(c: string): (x: char)
    ensures x != '\n' && c != [x]
  {
    if c == "a" then 'b' else 'a'
  }

  lemma ClosedEnd(p: string) returns (x: char)
    requires !OpenEnd(p)
    ensures x != '\n' && !GlobMatches(p, Fill(p, x) + [x])
  {
    if '*' !in p {
      x := 'a';
      StarFreeFill(p, x);
      if GlobMatches(p, Fill(p, x) + [x]) {
        StarFree(p, Fill(p, x) + [x]);
      }
    } else {
      var n := AfterLastStar(p);
      ClosedEndHasLiteral(p);
      x := Other([p[n..][LastLiteral(p[n..])]]);
      assert p == p[..n] + p[n..];
      TailMismatch(p[..n], p[n..], x);
    }
  }

  /** One more character puts the last literal of the tail where a wildcard's x is. */
  lemma TailMismatch(head: string, tail: string, x: char)
    requires '*' !in tail && !AllWild(tail) && x != tail[LastLiteral(tail)]
    ensures !GlobMatches(head + tail, Fill(head + tail, x) + [x])
  {
    var s := Fill(head + tail, x) + [x];
    var i := LastLiteral(tail);
    StarFreeFill(tail, x);
    FillConcat(head, tail, x);
    EndOf(Fill(head, x), Fill(tail, x), x);
    var end := s[|s| - |tail|..];
    assert i + 1 < |tail| ==> Wild(tail[i + 1]) && tail[i + 1] in tail;
    assert end[i] == x;
    if GlobMatches(head + tail, s) {
      TailMatches(head, tail, s);
      StarFree(tail, end);
    }
  }

  lemma EndOf(a: string, b: string, x: char)
    requires b != ""
    ensures var s := a + b + [x];
            s[|s| - |b|..] == b[1..] + [x]
  {
  }

  ghost predicate SearchIsGlob(p: string) {
    forall name :: NoNewline(name) ==> (FileNameAccepted(p, name) <==> GlobMatches(p, name))
  }

  // ---- dots and newlines in the pattern ----

  lemma CharacterOf(s: string, k: nat, c: char)
    requires k <= |s| && c in s[k..]
    ensures c in s
  {
  }

  /** What the glob names itself has to be in the name. */
  lemma {:induction false} LiteralNeeded(p: string, c: char, s: string)
    requires c in p && !Wild(c) && GlobMatches(p, s)
    ensures c in s
    decreases |p|
  {
    assert p == [p[0]] + p[1..];
    if p[0] == '*' {
      var k :| 0 <= k <= |s| && GlobMatches(p[1..], s[k..]);
      LiteralNeeded(p[1..], c, s[k..]);
      CharacterOf(s, k, c);
    } else if p[0] != c {
      LiteralNeeded(p[1..], c, s[1..]);
      CharacterOf(s, 1, c);
    }
  }

  lemma {:induction false} NewlineNeeded(p: string, s: string)
    requires '\n' in p && RegexMatches(Terms(p), s)
    ensures '\n' in s
    decreases |p| + |s|
  {
    assert p == [p[0]] + p[1..] && Terms(p)[1..] == Terms(p[1..]);
    if p[0] == '*' {
      if RegexMatches(Terms(p[1..]), s) {
        NewlineNeeded(p[1..], s);
      } else {
        NewlineNeeded(p, s[1..]);
        CharacterOf(s, 1, '\n');
      }
    } else if p[0] != '\n' {
      NewlineNeeded(p[1..], s[1..]);
      CharacterOf(s, 1, '\n');
    }
  }

  /** With a newline in the pattern neither the search nor the glob accepts any name without one. */
  lemma NewlineNeverMatches(p: string, name: string)
    requires PlainPattern(p) && '\n' in p && NoNewline(name)
    ensures !FileNameAccepted(p, name) && !GlobMatches(p, name)
  {
    TranslationReads(p);
    forall i, j | 0 <= i <= j <= |name| ensures !RegexMatches(Terms(p), name[i..j]) {
      if RegexMatches(Terms(p), name[i..j]) {
        NewlineNeeded(p, name[i..j]);
      }
    }
    if GlobMatches(p, name) {
      LiteralNeeded(p, '\n', name);
    }
  }

  /** Dots become question marks. */
  function Relaxed(p: string): string {
    Subst(p, '.', "?")
  }

  /** A name for the regular expression with a letter wherever the pattern has a '?' or a dot. */
  lemma {:induction false} FillRead(p: string)
    ensures RegexMatches(Terms(p), Fill(Relaxed(p), 'a'))
    ensures '.' !in Fill(Relaxed(p), 'a') && (NoNewline(p) ==> NoNewline(Fill(Relaxed(p), 'a')))
  {
    if p != "" {
      FillRead(p[1..]);
      var q, s := Relaxed(p), Fill(Relaxed(p), 'a');
      assert q[1..] == Relaxed(p[1..]) && Terms(p)[1..] == Terms(p[1..]);
      var rest := Fill(Relaxed(p[1..]), 'a');
      assert NoNewline(p) ==> p[0] != '\n' && NoNewline(p[1..]);
      if p[0] == '*' {
        assert q[0] == '*' && s == rest;
      } else {
        assert s == [if p[0] == '?' || p[0] == '.' then 'a' else p[0]] + rest;
        assert s[1..] == rest;
      }
    }
  }

  lemma DotTellsApart(p: string)
    requires PlainPattern(p) && '.' in p && NoNewline(p)
    ensures !SearchIsGlob(p)
  {
    TranslationReads(p);
    FillRead(p);
    var name := Fill(Relaxed(p), 'a');
    assert name[0..|name|] == name;
    assert FileNameAccepted(p, name);
    if GlobMatches(p, name) {
      LiteralNeeded(p, '.', name);
    }
  }

  /** The search accepts exactly the names that match the pattern as a whole if and only if the pattern has no dot
      and the wildcards at both of its ends include a '*'. (A pattern with a newline in it never matches at all.) */
  lemma SearchIsGlobExactly(p: string)
    requires PlainPattern(p)
    ensures SearchIsGlob(p) <==> '\n' in p || (OpenStart(p) && OpenEnd(p) && '.' !in p)
  {
    if '\n' in p {
      forall name | NoNewline(name) ensures FileNameAccepted(p, name) <==> GlobMatches(p, name) {
        NewlineNeverMatches(p, name);
      }
    } else if '.' in p {
      DotTellsApart(p);
    } else {
      WithoutDots(p);
    }
  }

  lemma WithoutDots(p: string)
    requires PlainPattern(p) && '.' !in p && NoNewline(p)
    ensures SearchIsGlob(p) <==> OpenStart(p) && OpenEnd(p)
  {
    forall name | NoNewline(name) && OpenStart(p) && OpenEnd(p)
      ensures FileNameAccepted(p, name) <==> GlobMatches(p, name)
    {
      AcceptedWithoutDots(p, name);
      if i, j :| 0 <= i <= j <= |name| && GlobMatches(p, name[i..j]) {
        GrowLeft(p, name, i, j);
        GrowRight(p, name, j);
      }
      assert name[0..|name|] == name;
    }
    if !OpenStart(p) {
      var x := Other(FirstLiteral(p));
      ClosedStart(p, x);
      AcceptedPart(p, [x], Fill(p, x), "", x);
      assert [x] + Fill(p, x) + "" == [x] + Fill(p, x);
    } else if !OpenEnd(p) {
      var x := ClosedEnd(p);
      AcceptedPart(p, "", Fill(p, x), [x], x);
      assert "" + Fill(p, x) + [x] == Fill(p, x) + [x];
    }
  }

  lemma AcceptedPart(p: string, left: string, part: string, right: string, x: char)
    requires PlainPattern(p) && '.' !in p && NoNewline(p)
    requires part == Fill(p, x) && x != '\n' && NoNewline(left) && NoNewline(right)
    ensures FileNameAccepted(p, left + part + right) && NoNewline(left + part + right)
  {
    FillMatches(p, x);
    FillIsNewlineFree(p, x);
    var name := left + part + right;
    AcceptedWithoutDots(p, name);
    assert name[|left|..|left| + |part|] == part;
  }
}

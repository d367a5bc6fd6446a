/** Utils::String::split (helpers/UtilsString.h) and the use searchFiles makes of it
    (helpers/UtilsgetFileContent.h). */
module StringSplit {

  /** std::string::npos; size_t arithmetic wraps one above it. */
  const NPOS: nat := 0xFFFF_FFFF_FFFF_FFFF

  predicate FreeOf(s: string, delimiters: string) {
    forall i :: 0 <= i < |s| ==> s[i] !in delimiters
  }

  // ---- specification ----

  /** The position of the first delimiter, or the length. */
  function FirstDelimiter(s: string, delimiters: string): (n: nat)
    ensures n <= |s| && FreeOf(s[..n], delimiters)
    ensures n < |s| ==> s[n] in delimiters
  {
    if s == "" || s[0] in delimiters then 0
    else
      var n := 1 + FirstDelimiter(s[1..], delimiters);
      assert forall i :: 0 < i < n ==> s[i] == s[1..][..n - 1][i - 1];
      n
  }

  function Pieces(s: string, delimiters: string): (pieces: seq<string>)
    ensures pieces != []
    decreases |s|
  {
    var n := FirstDelimiter(s, delimiters);
    if n == |s| then [s] else [s[..n]] + Pieces(s[n + 1..], delimiters)
  }

  /** The delimiters of s, in order. */
  function Cuts(s: string, delimiters: string): string {
    if s == "" then ""
    else if s[0] in delimiters then [s[0]] + Cuts(s[1..], delimiters)
    else Cuts(s[1..], delimiters)
  }

  function Interleave(pieces: seq<string>, cuts: string): string
    requires |pieces| == |cuts| + 1
  {
    if cuts == "" then pieces[0] else pieces[0] + [cuts[0]] + Interleave(pieces[1..], cuts[1..])
  }

  /** pieces and cuts are a way of cutting s at delimiters that leaves none inside a piece. */
  ghost predicate CutsInto(s: string, delimiters: string, pieces: seq<string>, cuts: string) {
    && |pieces| == |cuts| + 1
    && (forall i :: 0 <= i < |pieces| ==> FreeOf(pieces[i], delimiters))
    && (forall i :: 0 <= i < |cuts| ==> cuts[i] in delimiters)
    && Interleave(pieces, cuts) == s
  }

  lemma {:induction false} CutsSkip(s: string, delimiters: string, n: nat)
    requires n <= |s| && FreeOf(s[..n], delimiters)
    ensures Cuts(s, delimiters) == Cuts(s[n..], delimiters)
  {
    if n > 0 {
      assert s[0] == s[..n][0];
      assert s[1..][..n - 1] == s[..n][1..];
      CutsSkip(s[1..], delimiters, n - 1);
      assert s[1..][n - 1..] == s[n..];
    } else {
      assert s[n..] == s;
    }
  }

  lemma {:induction false} SplitCuts(s: string, delimiters: string)
    ensures CutsInto(s, delimiters, Pieces(s, delimiters), Cuts(s, delimiters))
    decreases |s|
  {
    var n := FirstDelimiter(s, delimiters);
    CutsAtFirst(s, delimiters, n);
    if n < |s| {
      SplitCuts(s[n + 1..], delimiters);
      OneMorePiece(s[..n], s[n], s[n + 1..], delimiters,
                   Pieces(s[n + 1..], delimiters), Cuts(s[n + 1..], delimiters));
    }
  }

  lemma CutsAtFirst(s: string, delimiters: string, n: nat)
    requires n == FirstDelimiter(s, delimiters)
    ensures n == |s| ==> Cuts(s, delimiters) == "" && FreeOf(s, delimiters)
    ensures n < |s| ==> Cuts(s, delimiters) == [s[n]] + Cuts(s[n + 1..], delimiters)
    ensures n < |s| ==> s[..n] + [s[n]] + s[n + 1..] == s
  {
    CutsSkip(s, delimiters, n);
    if n == |s| {
      assert s[..n] == s && s[n..] == "";
    } else {
      assert s[n..][0] == s[n] && s[n..][1..] == s[n + 1..];
    }
  }

  lemma OneMorePiece(piece: string, cut: char, rest: string, delimiters: string, pieces: seq<string>, cuts: string)
    requires FreeOf(piece, delimiters) && cut in delimiters && CutsInto(rest, delimiters, pieces, cuts)
    ensures CutsInto(piece + [cut] + rest, delimiters, [piece] + pieces, [cut] + cuts)
  {
    assert ([piece] + pieces)[1..] == pieces && ([cut] + cuts)[1..] == cuts;
  }

  lemma {:induction false} FirstDelimiterIs(s: string, delimiters: string, k: nat)
    requires k <= |s| && FreeOf(s[..k], delimiters) && (k < |s| ==> s[k] in delimiters)
    ensures FirstDelimiter(s, delimiters) == k
  {
    if k > 0 {
      assert s[0] == s[..k][0] && s[1..][..k - 1] == s[..k][1..];
      FirstDelimiterIs(s[1..], delimiters, k - 1);
    }
  }

  /** The first piece of any cutting ends where the first delimiter is. */
  lemma FirstPiece(s: string, delimiters: string, pieces: seq<string>, cuts: string)
    requires CutsInto(s, delimiters, pieces, cuts)
    ensures FirstDelimiter(s, delimiters) == |pieces[0]| && pieces[0] == s[..|pieces[0]|]
    ensures cuts == "" ==> s == pieces[0]
    ensures cuts != "" ==> |pieces[0]| < |s| && s[|pieces[0]|] == cuts[0]
                           && s[|pieces[0]| + 1..] == Interleave(pieces[1..], cuts[1..])
  {
    var k := |pieces[0]|;
    if cuts != "" {
      assert s == pieces[0] + [cuts[0]] + Interleave(pieces[1..], cuts[1..]);
    }
    assert pieces[0] == s[..k];
    FirstDelimiterIs(s, delimiters, k);
  }

  lemma {:induction false} OnlyOneCutting(s: string, delimiters: string, pieces: seq<string>, cuts: string)
    requires CutsInto(s, delimiters, pieces, cuts)
    ensures pieces == Pieces(s, delimiters) && cuts == Cuts(s, delimiters)
    decreases |s|
  {
    FirstPiece(s, delimiters, pieces, cuts);
    var n := |pieces[0]|;
    CutsSkip(s, delimiters, n);
    if cuts == "" {
      assert pieces == [pieces[0]];
    } else {
      var rest := s[n + 1..];
      OnlyOneCutting(rest, delimiters, pieces[1..], cuts[1..]);
      assert pieces == [pieces[0]] + pieces[1..] && cuts == [cuts[0]] + cuts[1..];
      assert s[n..][0] == s[n] && s[n..][1..] == rest;
    }
  }

  /** split is characterised completely: its pieces, interleaved with the delimiters of s in order, rebuild s,
      no piece holds a delimiter, and they are the only pieces with these two properties. */
  lemma SplitExactly(s: string, delimiters: string, pieces: seq<string>, cuts: string)
    ensures CutsInto(s, delimiters, pieces, cuts)
            <==> pieces == Pieces(s, delimiters) && cuts == Cuts(s, delimiters)
  {
    SplitCuts(s, delimiters);
    if CutsInto(s, delimiters, pieces, cuts) {
      OnlyOneCutting(s, delimiters, pieces, cuts);
    }
  }

  // ---- the code ----

  /** std::string::find_first_of */
  method FindFirstOf(s: string, delimiters: string, pos: nat) returns (at: nat)
    requires |s| < NPOS && pos <= |s|
    ensures at == if pos + FirstDelimiter(s[pos..], delimiters) < |s| then pos + FirstDelimiter(s[pos..], delimiters)
                  else NPOS
  {
    at := pos;
    while at < |s| && s[at] !in delimiters
      invariant pos <= at <= |s|
      invariant pos + FirstDelimiter(s[pos..], delimiters) == at + FirstDelimiter(s[at..], delimiters)
    {
      assert s[at..][1..] == s[at + 1..];
      at := at + 1;
    }
    if at == |s| {
      at := NPOS;
    }
  }

  /** std::string::substr: a count past the end is cut off. */
  function Substr(s: string, pos: nat, count: nat): string
    requires pos <= |s|
  {
    if pos + count < |s| then s[pos..pos + count] else s[pos..]
  }

  /** A size_t sum or difference. */
  function Wrap(n: int): nat
    requires 0 <= n + NPOS && n <= NPOS + 1
  {
    if n < 0 then n + NPOS + 1 else if n > NPOS then n - (NPOS + 1) else n
  }

  lemma PieceStep(s: string, delimiters: string, current: nat, next: nat)
    requires current <= |s| < NPOS
    requires next == if current + FirstDelimiter(s[current..], delimiters) < |s|
                     then current + FirstDelimiter(s[current..], delimiters) else NPOS
    ensures var piece := Substr(s, current, Wrap(next - current));
            Pieces(s[current..], delimiters) ==
            if next == NPOS then [piece] else [piece] + Pieces(s[next + 1..], delimiters)
  {
    var n := FirstDelimiter(s[current..], delimiters);
    SubstrIs(s, current, n, next);
    OnePiece(s[current..], delimiters, n);
  }

  lemma OnePiece(s: string, delimiters: string, n: nat)
    requires n == FirstDelimiter(s, delimiters)
    ensures Pieces(s, delimiters) == if n == |s| then [s] else [s[..n]] + Pieces(s[n + 1..], delimiters)
  {
  }

  /** substr of what lies between current and next, and of what lies after next. */
  lemma SubstrIs(s: string, current: nat, n: nat, next: nat)
    requires current + n <= |s| < NPOS
    requires next == if current + n < |s| then current + n else NPOS
    ensures current + n < |s| ==> Substr(s, current, Wrap(next - current)) == s[current..][..n]
    ensures current + n < |s| ==> s[current..][n + 1..] == s[next + 1..]
    ensures current + n == |s| ==> Substr(s, current, Wrap(next - current)) == s[current..]
  {
    if current + n < |s| {
      assert s[current..][n + 1..] == s[next + 1..];
    }
  }

  lemma Regroup(done: seq<string>, piece: string, rest: seq<string>)
    ensures done + ([piece] + rest) == done + [piece] + rest
  {
  }

  /** The loop: `next` starts at npos, so that the first `current` is npos + 1, which wraps to 0. */
  method Split(stringList: seq<string>, s: string, delimiters: string) returns (result: seq<string>)
    requires |s| < NPOS
    ensures result == stringList + Pieces(s, delimiters)
  {
    result := stringList;
    var next: nat := NPOS;
    assert s[Wrap(next + 1)..] == s;
    while true
      invariant next == NPOS || next < |s|
      invariant result + Pieces(s[Wrap(next + 1)..], delimiters) == stringList + Pieces(s, delimiters)
      decreases |s| - Wrap(next + 1)
    {
      var current := Wrap(next + 1);
      next := FindFirstOf(s, delimiters, current);
      PieceStep(s, delimiters, current, next);
      if next != NPOS {
        Regroup(result, Substr(s, current, Wrap(next - current)), Pieces(s[next + 1..], delimiters));
      }
      result := result + [Substr(s, current, Wrap(next - current))];
      if next == NPOS {
        return;
      }
    }
  }

  // ---- searchFiles ----

  function Join(pieces: seq<string>): string {
    if pieces == [] then ""
    else if |pieces| == 1 then pieces[0]
    else pieces[0] + "/" + Join(pieces[1..])
  }

  lemma {:induction false} JoinIsInterleave(pieces: seq<string>, cuts: string)
    requires |pieces| == |cuts| + 1 && forall i :: 0 <= i < |cuts| ==> cuts[i] == '/'
    ensures Join(pieces) == Interleave(pieces, cuts)
  {
    if cuts != "" {
      JoinIsInterleave(pieces[1..], cuts[1..]);
      assert pieces[0] + "/" == pieces[0] + [cuts[0]];
    }
  }

  /** searchFiles drops the first piece of the path and walks "/" followed by the others. For a path with a
      "/" in it that is the path it was given exactly when the path is absolute. */
  lemma WalkedPathIsInput(path: string)
    requires |Pieces(path, "/")| > 1
    ensures "/" + Join(Pieces(path, "/")[1..]) == path <==> path[0] == '/'
  {
    SplitCuts(path, "/");
    var pieces, cuts := Pieces(path, "/"), Cuts(path, "/");
    JoinIsInterleave(pieces[1..], cuts[1..]);
    FirstPiece(path, "/", pieces, cuts);
    if path[0] == '/' {
      assert FirstDelimiter(path, "/") == 0;
      assert path == [cuts[0]] + path[1..];
    } else {
      assert |pieces[0]| > 0;
    }
  }
}

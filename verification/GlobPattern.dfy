/** The wildcard translation inside searchFilesRec (helpers/UtilsgetFileContent.h) and what the resulting
    std::regex_search accepts. */
module GlobPattern {
  import opened Options

  const ANY_RUN: string := "[^\\n]*"
  const ANY_ONE: string := "[^\\n]{1}"

  // ---- the translation ----

  /** Every c becomes `with`; the rest stays. */
  function Subst(s: string, c: char, with: string): string {
    if s == "" then "" else (if s[0] == c then with else [s[0]]) + Subst(s[1..], c, with)
  }

  /** The character homomorphism the two loops together amount to. */
  function Translate(p: string): string {
    if p == "" then ""
    else (if p[0] == '*' then ANY_RUN else if p[0] == '?' then ANY_ONE else [p[0]]) + Translate(p[1..])
  }

  lemma {:induction false} SubstConcat(a: string, b: string, c: char, with: string)
    ensures Subst(a + b, c, with) == Subst(a, c, with) + Subst(b, c, with)
  {
    if a == "" {
      assert a + b == b;
    } else {
      assert (a + b)[1..] == a[1..] + b;
      SubstConcat(a[1..], b, c, with);
    }
  }

  lemma {:induction false} SubstAbsent(s: string, c: char, with: string)
    requires c !in s
    ensures Subst(s, c, with) == s
  {
    if s != "" {
      SubstAbsent(s[1..], c, with);
    }
  }

  /** The second loop finds no '?' in what the first loop inserted. */
  lemma {:induction false} TwoPasses(p: string)
    ensures Subst(Subst(p, '*', ANY_RUN), '?', ANY_ONE) == Translate(p)
  {
    if p != "" {
      TwoPasses(p[1..]);
      var head := if p[0] == '*' then ANY_RUN else [p[0]];
      SubstConcat(head, Subst(p[1..], '*', ANY_RUN), '?', ANY_ONE);
      if p[0] == '?' {
        assert head[1..] == "";
        assert Subst(head, '?', ANY_ONE) == ANY_ONE + "";
      } else {
        SubstAbsent(head, '?', ANY_ONE);
      }
    }
  }

  /** std::string::find; None is npos. */
  method Find(s: string, c: char, pos: nat) returns (at: Option<nat>)
    requires pos <= |s|
    ensures at.None? ==> c !in s[pos..]
    ensures at.Some? ==> pos <= at.value < |s| && s[at.value] == c && c !in s[pos..at.value]
  {
    var i := pos;
    while i < |s| && s[i] != c
      invariant pos <= i <= |s| && c !in s[pos..i]
    {
      assert s[pos..i + 1] == s[pos..i] + [s[i]];
      i := i + 1;
    }
    if i < |s| {
      at := Some(i);
    } else {
      assert s[pos..i] == s[pos..];
      at := None;
    }
  }

  lemma SubstNext(gap: string, todo: string, c: char, with: string)
    requires c !in gap
    ensures Subst(gap + [c] + todo, c, with) == gap + with + Subst(todo, c, with)
  {
    SubstConcat(gap + [c], todo, c, with);
    SubstConcat(gap, [c], c, with);
    SubstAbsent(gap, c, with);
    assert [c][1..] == "" && Subst([c], c, with) == with + "";
  }

  lemma SubstStep(before: string, gap: string, todo: string, c: char, with: string)
    requires c !in gap
    ensures before + Subst(gap + [c] + todo, c, with) == before + gap + with + Subst(todo, c, with)
  {
    SubstNext(gap, todo, c, with);
  }

  /** One of the loops: replace in place at pos, then skip what was inserted. */
  method ReplaceLoop(pattern: string, c: char, with: string, skip: nat) returns (result: string)
    requires skip == |with|
    ensures result == Subst(pattern, c, with)
  {
    result := pattern;
    var pos := 0;
    ghost var todo := pattern;
    while true
      invariant pos <= |result| && result[pos..] == todo
      invariant result[..pos] + Subst(todo, c, with) == Subst(pattern, c, with)
      decreases |todo|
    {
      var at := Find(result, c, pos);
      if at.None? {
        SubstAbsent(todo, c, with);
        assert result == result[..pos] + todo;
        return;
      }
      ghost var gap, rest := result[pos..at.value], result[at.value + 1..];
      assert todo == gap + [c] + rest;
      SubstStep(result[..pos], gap, rest, c, with);
      ghost var before := result[..pos];
      result := result[..at.value] + with + result[at.value + 1..];
      pos := at.value + skip;
      assert result[..pos] == before + gap + with;
      assert result[pos..] == rest;
      todo := rest;
    }
  }

  method TranslatePattern(currentPath: string) returns (pattern: string)
    ensures pattern == Translate(currentPath)
  {
    pattern := ReplaceLoop(currentPath, '*', "[^\\n]*", 6);
    pattern := ReplaceLoop(pattern, '?', "[^\\n]{1}", 8);
    TwoPasses(currentPath);
  }

  // ---- what the glob means ----

  /** '*' stands for any run of characters, '?' for any one character, and anything else for itself. */
  ghost predicate GlobMatches(p: string, s: string)
    decreases |p|
  {
    if p == "" then s == ""
    else if p[0] == '*' then exists k :: 0 <= k <= |s| && GlobMatches(p[1..], s[k..])
    else s != "" && (p[0] == '?' || p[0] == s[0]) && GlobMatches(p[1..], s[1..])
  }

  ghost predicate SubstringMatches(p: string, s: string) {
    exists i, j :: 0 <= i <= j <= |s| && GlobMatches(p, s[i..j])
  }

  // ---- what the regular expression means: the part of ECMAScript syntax the translation can produce ----

  datatype Atom = Literal(c: char) | NotNewline | Dot {
    predicate Accepts(x: char) {
      match this
      case Literal(c) => x == c
      case NotNewline => x != '\n'
      case Dot => !LineTerminator(x)
    }
  }

  predicate LineTerminator(x: char) {
    x in {'\n', '\r', '\U{2028}', '\U{2029}'}
  }

  datatype Term = Once(atom: Atom) | Repeated(atom: Atom)

  const SPECIAL: set<char> := {'^', '$', '\\', '.', '*', '+', '?', '(', ')', '[', ']', '{', '}', '|'}

  /** An atom: the class [^\n], a dot, or a character that is not special. */
  function ReadAtom(r: string): Option<(Atom, string)> {
    if r == "" then None
    else if |r| >= 5 && r[..5] == "[^\\n]" then Some((NotNewline, r[5..]))
    else if r[0] == '.' then Some((Dot, r[1..]))
    else if r[0] in SPECIAL then None
    else Some((Literal(r[0]), r[1..]))
  }

  /** A sequence of atoms, each alone or followed by * or {1}; None for anything else. */
  function ReadRegex(r: string): Option<seq<Term>> {
    if r == "" then Some([])
    else
      match ReadAtom(r)
      case None => None
      case Some((atom, rest)) =>
        var repeated := |rest| >= 1 && rest[0] == '*';
        var after := if repeated then rest[1..] else if |rest| >= 3 && rest[..3] == "{1}" then rest[3..] else rest;
        match ReadRegex(after)
        case None => None
        case Some(terms) => Some([if repeated then Repeated(atom) else Once(atom)] + terms)
  }

  predicate RegexMatches(terms: seq<Term>, s: string)
    decreases |terms| + |s|
  {
    if terms == [] then s == ""
    else match terms[0]
      case Once(atom) => s != "" && atom.Accepts(s[0]) && RegexMatches(terms[1..], s[1..])
      case Repeated(atom) =>
        || RegexMatches(terms[1..], s)
        || (s != "" && atom.Accepts(s[0]) && RegexMatches(terms, s[1..]))
  }

  /** std::regex_search */
  ghost predicate RegexSearch(r: string, s: string) {
    ReadRegex(r).Some? && exists i, j :: 0 <= i <= j <= |s| && RegexMatches(ReadRegex(r).value, s[i..j])
  }

  /** What searchFilesRec accepts for a path component p that contains a wildcard. */
  ghost predicate FileNameAccepted(p: string, name: string) {
    RegexSearch(Translate(p), name)
  }

  // ---- the translation gives the expression the glob asks for ----

  /** No special character but the two wildcards and the dot. */
  predicate PlainPattern(p: string) {
    forall i :: 0 <= i < |p| ==> p[i] !in {'^', '$', '\\', '+', '(', ')', '[', ']', '{', '}', '|'}
  }

  function TermOf(c: char): Term {
    if c == '*' then Repeated(NotNewline)
    else if c == '?' then Once(NotNewline)
    else if c == '.' then Once(Dot)
    else Once(Literal(c))
  }

  function Terms(p: string): seq<Term> {
    if p == "" then [] else [TermOf(p[0])] + Terms(p[1..])
  }

  /** The translation never puts a quantifier after an atom that already is one character. */
  lemma TranslatedStart(p: string)
    requires PlainPattern(p)
    ensures Translate(p) != "" ==> Translate(p)[0] !in {'*', '{'}
  {
    if p != "" {
      assert p[0] !in {'^', '$', '\\', '+', '(', ')', '[', ']', '{', '}', '|'};
    }
  }

  /** How a translated wildcard reads, and how any other character does. */
  lemma ReadWildcard(rest: string, quantifier: string)
    requires ReadRegex(rest).Some? && quantifier in {"*", "{1}"}
    ensures ReadRegex("[^\\n]" + quantifier + rest)
            == Some([if quantifier == "*" then Repeated(NotNewline) else Once(NotNewline)] + ReadRegex(rest).value)
  {
    ReadClass(quantifier + rest);
    assert "[^\\n]" + quantifier + rest == "[^\\n]" + (quantifier + rest);
    Quantified(quantifier, rest);
  }

  lemma ReadClass(rest: string)
    ensures ReadAtom("[^\\n]" + rest) == Some((NotNewline, rest))
  {
    assert ("[^\\n]" + rest)[..5] == "[^\\n]" && ("[^\\n]" + rest)[5..] == rest;
  }

  lemma Quantified(quantifier: string, rest: string)
    requires quantifier in {"*", "{1}"}
    ensures var s := quantifier + rest;
            && s[..|quantifier|] == quantifier && s[|quantifier|..] == rest
            && s[0] == (if quantifier == "*" then '*' else '{')
  {
  }

  lemma ReadOther(c: char, rest: string)
    requires ReadRegex(rest).Some? && (c !in SPECIAL || c == '.')
    requires rest != "" ==> rest[0] !in {'*', '{'}
    ensures ReadRegex([c] + rest) == Some([TermOf(c)] + ReadRegex(rest).value)
  {
    var r := [c] + rest;
    assert r[1..] == rest;
    assert r[0] != '[';
    assert |rest| >= 3 ==> rest[..3][0] == rest[0] && rest[..3] != "{1}";
    assert |r| >= 5 ==> r[..5][0] == r[0] && r[..5] != "[^\\n]";
  }

  lemma {:induction false} TranslationReads(p: string)
    requires PlainPattern(p)
    ensures ReadRegex(Translate(p)) == Some(Terms(p))
  {
    if p != "" {
      var rest := Translate(p[1..]);
      TranslationReads(p[1..]);
      TranslatedStart(p[1..]);
      assert p[0] !in {'^', '$', '\\', '+', '(', ')', '[', ']', '{', '}', '|'};
      if p[0] == '*' {
        ReadWildcard(rest, "*");
        assert ANY_RUN == "[^\\n]" + "*";
      } else if p[0] == '?' {
        ReadWildcard(rest, "{1}");
        assert ANY_ONE == "[^\\n]" + "{1}";
      } else {
        ReadOther(p[0], rest);
      }
    }
  }

  predicate NoNewline(s: string) {
    forall i :: 0 <= i < |s| ==> s[i] != '\n'
  }

  /** What one pattern character other than '*' stands for in the search. */
  predicate StandsFor(c: char, x: char) {
    if c == '?' then x != '\n'
    else if c == '.' then x !in {'\n', '\r', '\U{2028}', '\U{2029}'}
    else x == c
  }

  /** The glob the search amounts to: no wildcard takes a newline, and a dot is a wildcard that takes no line
      terminator at all. */
  ghost predicate LineGlob(p: string, s: string)
    decreases |p|
  {
    if p == "" then s == ""
    else if p[0] == '*' then exists k :: 0 <= k <= |s| && NoNewline(s[..k]) && LineGlob(p[1..], s[k..])
    else s != "" && StandsFor(p[0], s[0]) && LineGlob(p[1..], s[1..])
  }

  lemma LongerRun(s: string, k: nat)
    requires s != "" && k < |s|
    ensures s[1..][k..] == s[k + 1..]
    ensures NoNewline(s[..k + 1]) <==> s[0] != '\n' && NoNewline(s[1..][..k])
  {
    assert s[..k + 1] == [s[0]] + s[1..][..k];
    assert forall i :: 0 <= i < k ==> s[1..][..k][i] == s[..k + 1][i + 1];
  }

  /** A starred class takes any number of characters up to a newline. */
  lemma {:induction false} RepeatedMatches(terms: seq<Term>, s: string)
    requires terms != [] && terms[0] == Repeated(NotNewline)
    ensures RegexMatches(terms, s) <==>
            exists k :: 0 <= k <= |s| && NoNewline(s[..k]) && RegexMatches(terms[1..], s[k..])
    decreases |s|
  {
    assert s[0..] == s && NoNewline(s[..0]);
    if s != "" {
      RepeatedMatches(terms, s[1..]);
      if k :| 0 <= k <= |s[1..]| && NoNewline(s[1..][..k]) && RegexMatches(terms[1..], s[1..][k..]) {
        LongerRun(s, k);
      }
      if k :| 0 <= k <= |s| && NoNewline(s[..k]) && RegexMatches(terms[1..], s[k..]) {
        if k > 0 {
          LongerRun(s, k - 1);
        }
      }
    }
  }

  lemma {:induction false} TermsMatchGlob(p: string, s: string)
    requires PlainPattern(p)
    ensures RegexMatches(Terms(p), s) <==> LineGlob(p, s)
    decreases |p|
  {
    if p != "" {
      assert Terms(p)[1..] == Terms(p[1..]);
      if p[0] == '*' {
        RepeatedMatches(Terms(p), s);
        forall k | 0 <= k <= |s|
          ensures RegexMatches(Terms(p[1..]), s[k..]) <==> LineGlob(p[1..], s[k..])
        {
          TermsMatchGlob(p[1..], s[k..]);
        }
      } else if s != "" {
        TermsMatchGlob(p[1..], s[1..]);
      }
    }
  }

  /** A file name is accepted exactly when some part of it matches the pattern as such a glob. */
  lemma AcceptedExactly(p: string, name: string)
    requires PlainPattern(p)
    ensures FileNameAccepted(p, name) <==> exists i, j :: 0 <= i <= j <= |name| && LineGlob(p, name[i..j])
  {
    TranslationReads(p);
    forall i, j | 0 <= i <= j <= |name|
      ensures RegexMatches(Terms(p), name[i..j]) <==> LineGlob(p, name[i..j])
    {
      TermsMatchGlob(p, name[i..j]);
    }
  }

  /** Without dots, and on names without newlines, that is the glob itself. */
  lemma {:induction false} LineGlobIsGlob(p: string, s: string)
    requires '.' !in p && NoNewline(s)
    ensures LineGlob(p, s) <==> GlobMatches(p, s)
    decreases |p|
  {
    if p != "" {
      if p[0] == '*' {
        forall k | 0 <= k <= |s| ensures LineGlob(p[1..], s[k..]) <==> GlobMatches(p[1..], s[k..]) {
          LineGlobIsGlob(p[1..], s[k..]);
        }
      } else if s != "" {
        LineGlobIsGlob(p[1..], s[1..]);
      }
    }
  }

  lemma AcceptedWithoutDots(p: string, name: string)
    requires PlainPattern(p) && '.' !in p && NoNewline(name)
    ensures FileNameAccepted(p, name) <==> SubstringMatches(p, name)
  {
    AcceptedExactly(p, name);
    forall i, j | 0 <= i <= j <= |name| ensures LineGlob(p, name[i..j]) <==> GlobMatches(p, name[i..j]) {
      LineGlobIsGlob(p, name[i..j]);
    }
  }
}

/** Glob patterns and the skip decision of the secret guard (lib/brain/secret-guard.js). The pattern is
    rewritten to regular-expression text pass by pass, as strings; the text is then read back and matched. */
module SecretGuard {
  import opened Basics

  /** Upper-casing of one character, as the `i` flag compares it. */
  type CaseFold = char -> char

  /** Only the slash itself folds to what the slash folds to. */
  ghost predicate SlashIsAlone(fold: CaseFold) {
    forall c :: fold(c) == fold('/') ==> c == '/'
  }

  // ---- The rewriting passes ----

  predicate Special(c: char) {
    c in ".+^${}()|[]\\"
  }

  function Escape(c: char): string {
    if Special(c) then ['\\', c] else [c]
  }

  function EscapePass(s: string): string {
    if s == "" then "" else Escape(s[0]) + EscapePass(s[1..])
  }

  /** `**` to NUL, from the left. */
  function DoubleStarPass(s: string): string {
    if s == "" then ""
    else if "**" <= s then ['\0'] + DoubleStarPass(s[2..])
    else [s[0]] + DoubleStarPass(s[1..])
  }

  /** Every `c` to `text`. */
  function ReplacePass(s: string, c: char, text: string): string {
    if s == "" then ""
    else (if s[0] == c then text else [s[0]]) + ReplacePass(s[1..], c, text)
  }

  const NOT_SLASH := "[^/]"
  const NOT_SLASH_STAR := "[^/]*"
  const ANY_STAR := ".*"
  const TAIL := "(/.*)?$"
  const SEGMENT_START := "(^|/)"

  function LatePasses(s: string): string {
    ReplacePass(ReplacePass(ReplacePass(s, '*', NOT_SLASH_STAR), '?', NOT_SLASH), '\0', ANY_STAR)
  }

  function Rewrite(pattern: string): string {
    LatePasses(DoubleStarPass(EscapePass(pattern)))
  }

  function DropTrailingSlash(pattern: string): string {
    if pattern != "" && pattern[|pattern| - 1] == '/' then pattern[..|pattern| - 1] else pattern
  }

  predicate LeadingSlash(pattern: string) {
    pattern != "" && pattern[0] == '/'
  }

  /** The glob without its anchoring slashes. */
  function Core(pattern: string): string {
    var p := DropTrailingSlash(pattern);
    if LeadingSlash(p) then p[1..] else p
  }

  predicate Anchored(pattern: string) {
    LeadingSlash(DropTrailingSlash(pattern)) || '/' in Core(pattern)
  }

  /** The text handed to the RegExp constructor. */
  function RegexText(pattern: string): string {
    (if Anchored(pattern) then "^" else SEGMENT_START) + Rewrite(Core(pattern)) + TAIL
  }

  // ---- Reading the text as a regular expression ----

  datatype Atom = Literal(c: char) | NotSlash | NotSlashStar | AnyStar

  /** The part of regular-expression syntax that occurs: escapes, plain characters, `[^/]`, `[^/]*`, `.*`.
      Anything else, a stray quantifier included, is not read. */
  function ReadAtoms(s: string): Option<seq<Atom>> {
    if s == "" then Some([])
    else if s[0] == '\\' then
      if |s| >= 2 && Special(s[1]) then Prefixed(Literal(s[1]), ReadAtoms(s[2..])) else None
    else if NOT_SLASH_STAR <= s then Prefixed(NotSlashStar, ReadAtoms(s[5..]))
    else if NOT_SLASH <= s then Prefixed(NotSlash, ReadAtoms(s[4..]))
    else if ANY_STAR <= s then Prefixed(AnyStar, ReadAtoms(s[2..]))
    else if Special(s[0]) || s[0] == '*' || s[0] == '?' then None
    else Prefixed(Literal(s[0]), ReadAtoms(s[1..]))
  }

  function Prefixed(atom: Atom, rest: Option<seq<Atom>>): Option<seq<Atom>> {
    if rest.Some? then Some([atom] + rest.value) else None
  }

  datatype Regex = Regex(fromStart: bool, atoms: seq<Atom>)

  /** `^body(/.*)?$` or `(^|/)body(/.*)?$`. */
  function ReadRegex(s: string): Option<Regex> {
    if |s| < |TAIL| || s[|s| - |TAIL|..] != TAIL then None
    else
      var front := s[..|s| - |TAIL|];
      if "^" <= front then
        var atoms := ReadAtoms(front[1..]);
        if atoms.Some? then Some(Regex(true, atoms.value)) else None
      else if SEGMENT_START <= front then
        var atoms := ReadAtoms(front[5..]);
        if atoms.Some? then Some(Regex(false, atoms.value)) else None
      else None
  }

  // ---- Matching ----

  /** What `.` does not match. */
  predicate LineTerminator(c: char) {
    c == '\n' || c == '\r' || c as int == 0x2028 || c as int == 0x2029
  }

  predicate OneLine(s: string) {
    forall i :: 0 <= i < |s| ==> !LineTerminator(s[i])
  }

  predicate SlashFree(fold: CaseFold, s: string) {
    forall i :: 0 <= i < |s| ==> fold(s[i]) != fold('/')
  }

  /** The atoms match all of `s`, followed by the optional tail. */
  predicate Matches(fold: CaseFold, atoms: seq<Atom>, s: string) {
    if atoms == [] then s == "" || (fold(s[0]) == fold('/') && OneLine(s[1..]))
    else
      match atoms[0]
      case Literal(c) => s != "" && fold(s[0]) == fold(c) && Matches(fold, atoms[1..], s[1..])
      case NotSlash => s != "" && fold(s[0]) != fold('/') && Matches(fold, atoms[1..], s[1..])
      case NotSlashStar => exists k :: 0 <= k <= |s| && SlashFree(fold, s[..k]) && Matches(fold, atoms[1..], s[k..])
      case AnyStar => exists k :: 0 <= k <= |s| && OneLine(s[..k]) && Matches(fold, atoms[1..], s[k..])
  }

  /** RegExp.test: a search, which `^` or `(^|/)` ties to the start or to a segment. */
  predicate Test(fold: CaseFold, regex: Regex, path: string) {
    if regex.fromStart then Matches(fold, regex.atoms, path)
    else
      exists j :: 0 <= j <= |path| &&
        (j == 0 || fold(path[j - 1]) == fold('/')) && Matches(fold, regex.atoms, path[j..])
  }

  // ---- The direct matcher ----

  /** `**` (or a NUL) is any run on one line, `*` any run inside a segment, `?` one character of a segment, and
      a match may stop at a slash, if no line break follows. */
  predicate GlobFrom(fold: CaseFold, p: string, s: string)
    decreases |p|, |s|
  {
    if p == "" then s == "" || (s[0] == '/' && OneLine(s[1..]))
    else if "**" <= p then
      GlobFrom(fold, p[2..], s) || (s != "" && !LineTerminator(s[0]) && GlobFrom(fold, p, s[1..]))
    else if p[0] == '\0' then
      GlobFrom(fold, p[1..], s) || (s != "" && !LineTerminator(s[0]) && GlobFrom(fold, p, s[1..]))
    else if p[0] == '*' then
      GlobFrom(fold, p[1..], s) || (s != "" && s[0] != '/' && GlobFrom(fold, p, s[1..]))
    else if p[0] == '?' then s != "" && s[0] != '/' && GlobFrom(fold, p[1..], s[1..])
    else s != "" && fold(s[0]) == fold(p[0]) && GlobFrom(fold, p[1..], s[1..])
  }

  /** A glob with a slash matches from the root, one without at any segment. */
  predicate GlobMatches(fold: CaseFold, pattern: string, path: string) {
    if Anchored(pattern) then GlobFrom(fold, Core(pattern), path)
    else
      exists j :: 0 <= j <= |path| && (j == 0 || path[j - 1] == '/') && GlobFrom(fold, Core(pattern), path[j..])
  }

  // ---- The passes do not interfere ----

  function TokenOf(c: char): Atom {
    if c == '\0' then AnyStar else if c == '*' then NotSlashStar else if c == '?' then NotSlash else Literal(c)
  }

  /** The glob read from left to right. */
  function Tokens(p: string): seq<Atom> {
    if p == "" then []
    else if "**" <= p then [AnyStar] + Tokens(p[2..])
    else [TokenOf(p[0])] + Tokens(p[1..])
  }

  function Show(atom: Atom): string {
    match atom
    case Literal(c) => Escape(c)
    case NotSlash => NOT_SLASH
    case NotSlashStar => NOT_SLASH_STAR
    case AnyStar => ANY_STAR
  }

  function ShowAll(atoms: seq<Atom>): string {
    if atoms == [] then "" else Show(atoms[0]) + ShowAll(atoms[1..])
  }

  lemma {:induction false} ReplaceSplit(a: string, b: string, c: char, text: string)
    ensures ReplacePass(a + b, c, text) == ReplacePass(a, c, text) + ReplacePass(b, c, text)
  {
    if a == "" {
      assert a + b == b;
    } else {
      assert (a + b)[1..] == a[1..] + b;
      ReplaceSplit(a[1..], b, c, text);
    }
  }

  lemma {:induction false} ReplaceAbsent(s: string, c: char, text: string)
    requires c !in s
    ensures ReplacePass(s, c, text) == s
  {
    if s != "" {
      ReplaceAbsent(s[1..], c, text);
    }
  }

  lemma LateSplit(a: string, b: string)
    ensures LatePasses(a + b) == LatePasses(a) + LatePasses(b)
  {
    ReplaceSplit(a, b, '*', NOT_SLASH_STAR);
    var a1, b1 := ReplacePass(a, '*', NOT_SLASH_STAR), ReplacePass(b, '*', NOT_SLASH_STAR);
    ReplaceSplit(a1, b1, '?', NOT_SLASH);
    ReplaceSplit(ReplacePass(a1, '?', NOT_SLASH), ReplacePass(b1, '?', NOT_SLASH), '\0', ANY_STAR);
  }

  lemma ReplaceOne(c: char, d: char, text: string)
    ensures ReplacePass([c], d, text) == if c == d then text else [c]
  {
    assert [c][1..] == "";
    assert ReplacePass("", d, text) == "";
  }

  /** What the three late passes make of one character that is left over from the early ones. */
  lemma LateOnOne(c: char)
    ensures LatePasses([c]) == if c == '*' then NOT_SLASH_STAR
                               else if c == '?' then NOT_SLASH
                               else if c == '\0' then ANY_STAR else [c]
  {
    ReplaceOne(c, '*', NOT_SLASH_STAR);
    if c == '*' {
      ReplaceAbsent(NOT_SLASH_STAR, '?', NOT_SLASH);
      ReplaceAbsent(NOT_SLASH_STAR, '\0', ANY_STAR);
    } else {
      ReplaceOne(c, '?', NOT_SLASH);
      if c == '?' {
        ReplaceAbsent(NOT_SLASH, '\0', ANY_STAR);
      } else {
        ReplaceOne(c, '\0', ANY_STAR);
      }
    }
  }

  lemma LateOnEscape(c: char)
    requires Special(c)
    ensures LatePasses(['\\', c]) == ['\\', c]
  {
    ReplaceAbsent(['\\', c], '*', NOT_SLASH_STAR);
    ReplaceAbsent(['\\', c], '?', NOT_SLASH);
    ReplaceAbsent(['\\', c], '\0', ANY_STAR);
  }

  /** Escaping keeps a leading run of stars as it is. */
  lemma EscapeKeepsStars(p: string)
    ensures "**" <= p <==> "**" <= EscapePass(p)
    ensures "**" <= p ==> EscapePass(p)[2..] == EscapePass(p[2..])
  {
    if |p| >= 2 {
      assert p[1..][1..] == p[2..];
      assert EscapePass(p) == Escape(p[0]) + (Escape(p[1]) + EscapePass(p[2..]));
    } else if |p| == 1 {
      assert EscapePass(p) == Escape(p[0]) + EscapePass(p[1..]);
      assert EscapePass(p[1..]) == "";
      assert EscapePass(p) == Escape(p[0]);
      assert Special(p[0]) ==> EscapePass(p)[0] == '\\';
    }
  }

  lemma PassOverEscape(c: char, rest: string)
    requires Special(c)
    ensures DoubleStarPass(['\\', c] + rest) == ['\\', c] + DoubleStarPass(rest)
  {
    var e := ['\\', c] + rest;
    assert e[1..] == [c] + rest && e[1..][1..] == rest;
    assert e[0] != '*' && e[1] != '*';
  }

  lemma PassOverOne(c: char, rest: string)
    requires !("**" <= [c] + rest)
    ensures DoubleStarPass([c] + rest) == [c] + DoubleStarPass(rest)
  {
    assert ([c] + rest)[1..] == rest;
  }

  lemma EarlyStep(p: string)
    requires p != ""
    ensures "**" <= p ==> DoubleStarPass(EscapePass(p)) == ['\0'] + DoubleStarPass(EscapePass(p[2..]))
    ensures !("**" <= p) ==> DoubleStarPass(EscapePass(p)) == Escape(p[0]) + DoubleStarPass(EscapePass(p[1..]))
  {
    EscapeKeepsStars(p);
    if "**" <= p {
      assert EscapePass(p)[2..] == EscapePass(p[2..]);
    } else if Special(p[0]) {
      PassOverEscape(p[0], EscapePass(p[1..]));
    } else {
      PassOverOne(p[0], EscapePass(p[1..]));
    }
  }

  lemma LateOnToken(c: char)
    ensures LatePasses(Escape(c)) == Show(TokenOf(c))
  {
    if Special(c) {
      LateOnEscape(c);
    } else {
      LateOnOne(c);
    }
  }

  lemma DoubleStarTranslates(p: string)
    requires "**" <= p && Rewrite(p[2..]) == ShowAll(Tokens(p[2..]))
    ensures Rewrite(p) == ShowAll(Tokens(p))
  {
    EarlyStep(p);
    LateSplit(['\0'], DoubleStarPass(EscapePass(p[2..])));
    LateOnOne('\0');
    assert Tokens(p)[1..] == Tokens(p[2..]);
  }

  lemma OneCharacterTranslates(p: string)
    requires p != "" && !("**" <= p) && Rewrite(p[1..]) == ShowAll(Tokens(p[1..]))
    ensures Rewrite(p) == ShowAll(Tokens(p))
  {
    EarlyStep(p);
    LateSplit(Escape(p[0]), DoubleStarPass(EscapePass(p[1..])));
    LateOnToken(p[0]);
    assert Tokens(p)[1..] == Tokens(p[1..]);
  }

  /** The five passes together are the single left-to-right translation. */
  lemma {:induction false} PassesDoNotInterfere(p: string)
    ensures Rewrite(p) == ShowAll(Tokens(p))
  {
    if p == "" {
      assert EscapePass(p) == "" && DoubleStarPass("") == "";
      assert LatePasses("") == "";
    } else if "**" <= p {
      PassesDoNotInterfere(p[2..]);
      DoubleStarTranslates(p);
    } else {
      PassesDoNotInterfere(p[1..]);
      OneCharacterTranslates(p);
    }
  }

  // ---- The text reads back as the tokens ----

  predicate Readable(atoms: seq<Atom>) {
    forall i :: 0 <= i < |atoms| ==> atoms[i].Literal? ==> atoms[i].c != '*' && atoms[i].c != '?'
  }

  lemma {:induction false} TokensAreReadable(p: string)
    ensures Readable(Tokens(p))
  {
    if p != "" {
      TokensAreReadable(if "**" <= p then p[2..] else p[1..]);
    }
  }

  /** What follows an atom's text never starts with a quantifier. */
  lemma ShowNeverStartsWithStar(atoms: seq<Atom>)
    requires Readable(atoms)
    ensures ShowAll(atoms) != "" ==> ShowAll(atoms)[0] != '*'
  {
  }

  lemma ReadOne(atom: Atom, rest: string)
    requires atom.Literal? ==> atom.c != '*' && atom.c != '?'
    requires rest != "" ==> rest[0] != '*'
    ensures ReadAtoms(Show(atom) + rest) == Prefixed(atom, ReadAtoms(rest))
  {
    var s := Show(atom) + rest;
    match atom
    case Literal(c) =>
      if Special(c) {
        assert s[2..] == rest;
      } else {
        assert s[0] == c && s[1..] == rest;
      }
    case NotSlash =>
      assert s[4..] == rest;
      assert NOT_SLASH <= s && s[0] == '[';
      assert !(NOT_SLASH_STAR <= s) by {
        if |rest| > 0 {
          assert s[4] == rest[0];
        }
      }
    case NotSlashStar =>
      assert s[5..] == rest;
      assert NOT_SLASH_STAR <= s && s[0] == '[';
    case AnyStar =>
      assert s[2..] == rest;
      assert ANY_STAR <= s && s[0] == '.';
  }

  lemma OneAtomReadsBack(atom: Atom, rest: seq<Atom>, shown: string)
    requires atom.Literal? ==> atom.c != '*' && atom.c != '?'
    requires shown != "" ==> shown[0] != '*'
    requires ReadAtoms(shown) == Some(rest)
    ensures ReadAtoms(Show(atom) + shown) == Some([atom] + rest)
  {
    ReadOne(atom, shown);
  }

  lemma {:induction false} ShownAtomsReadBack(atoms: seq<Atom>)
    requires Readable(atoms)
    ensures ReadAtoms(ShowAll(atoms)) == Some(atoms)
  {
    if atoms != [] {
      ShownAtomsReadBack(atoms[1..]);
      ShowNeverStartsWithStar(atoms[1..]);
      OneAtomReadsBack(atoms[0], atoms[1..], ShowAll(atoms[1..]));
      assert atoms == [atoms[0]] + atoms[1..];
    } else {
      assert ShowAll(atoms) == "";
    }
  }

  /** The constructed text is a regular expression, with the glob's tokens as its body. */
  lemma TextReadsBack(pattern: string)
    ensures ReadRegex(RegexText(pattern)) == Some(Regex(Anchored(pattern), Tokens(Core(pattern))))
  {
    var body := Rewrite(Core(pattern));
    PassesDoNotInterfere(Core(pattern));
    TokensAreReadable(Core(pattern));
    ShownAtomsReadBack(Tokens(Core(pattern)));
    var s := RegexText(pattern);
    var front := (if Anchored(pattern) then "^" else SEGMENT_START) + body;
    assert s[..|s| - |TAIL|] == front && s[|s| - |TAIL|..] == TAIL;
    if Anchored(pattern) {
      assert front[0] == '^' && front[1..] == body;
    } else {
      assert front[0] == '(' && SEGMENT_START <= front && front[5..] == body;
    }
  }

  // ---- The regular expression and the direct matcher agree ----

  /** Some run of free characters, then something accepted. */
  ghost predicate RunThen(free: char -> bool, accepted: iset<string>, s: string) {
    exists k :: 0 <= k <= |s| && (forall i :: 0 <= i < k ==> free(s[i])) && s[k..] in accepted
  }

  /** A run is empty, or one free character and a run. */
  lemma RunStep(free: char -> bool, accepted: iset<string>, s: string)
    ensures RunThen(free, accepted, s) <==>
            s in accepted || (s != "" && free(s[0]) && RunThen(free, accepted, s[1..]))
  {
    assert s[0..] == s;
    if k :| 0 < k <= |s| && (forall i :: 0 <= i < k ==> free(s[i])) && s[k..] in accepted {
      assert s[1..][k - 1..] == s[k..];
    }
    if s != "" {
      if k :| 0 <= k <= |s[1..]| && (forall i :: 0 <= i < k ==> free(s[1..][i])) && s[1..][k..] in accepted {
        assert s[1..][k..] == s[k + 1..];
        assert free(s[0]) ==> forall i :: 0 <= i < k + 1 ==> free(s[i]) by {
          assert forall i :: 1 <= i < k + 1 ==> s[i] == s[1..][i - 1];
        }
      }
    }
  }

  ghost function Accepted(fold: CaseFold, atoms: seq<Atom>): iset<string> {
    iset s: string | Matches(fold, atoms, s)
  }

  lemma StarIsRun(fold: CaseFold, rest: seq<Atom>, s: string)
    ensures Matches(fold, [NotSlashStar] + rest, s) <==>
            RunThen(c => fold(c) != fold('/'), Accepted(fold, rest), s)
  {
    assert ([NotSlashStar] + rest)[1..] == rest;
    assert forall k :: 0 <= k <= |s| ==>
             (SlashFree(fold, s[..k]) <==> forall i :: 0 <= i < k ==> fold(s[i]) != fold('/'));
  }

  lemma AnyIsRun(fold: CaseFold, rest: seq<Atom>, s: string)
    ensures Matches(fold, [AnyStar] + rest, s) <==> RunThen(c => !LineTerminator(c), Accepted(fold, rest), s)
  {
    assert ([AnyStar] + rest)[1..] == rest;
    assert forall k :: 0 <= k <= |s| ==> (OneLine(s[..k]) <==> forall i :: 0 <= i < k ==> !LineTerminator(s[i]));
  }

  lemma StarStep(fold: CaseFold, rest: seq<Atom>, s: string)
    ensures Matches(fold, [NotSlashStar] + rest, s) <==>
            Matches(fold, rest, s) ||
            (s != "" && fold(s[0]) != fold('/') && Matches(fold, [NotSlashStar] + rest, s[1..]))
  {
    StarIsRun(fold, rest, s);
    RunStep(c => fold(c) != fold('/'), Accepted(fold, rest), s);
    if s != "" {
      StarIsRun(fold, rest, s[1..]);
    }
  }

  lemma AnyStep(fold: CaseFold, rest: seq<Atom>, s: string)
    ensures Matches(fold, [AnyStar] + rest, s) <==>
            Matches(fold, rest, s) ||
            (s != "" && !LineTerminator(s[0]) && Matches(fold, [AnyStar] + rest, s[1..]))
  {
    AnyIsRun(fold, rest, s);
    RunStep(c => !LineTerminator(c), Accepted(fold, rest), s);
    if s != "" {
      AnyIsRun(fold, rest, s[1..]);
    }
  }

  lemma {:induction false} GlobIsMatch(fold: CaseFold, p: string, s: string)
    requires SlashIsAlone(fold)
    ensures GlobFrom(fold, p, s) <==> Matches(fold, Tokens(p), s)
    decreases |p|, |s|
  {
    if p == "" {
    } else if "**" <= p || p[0] == '\0' {
      var rest := if "**" <= p then p[2..] else p[1..];
      GlobIsMatch(fold, rest, s);
      AnyStep(fold, Tokens(rest), s);
      if s != "" {
        GlobIsMatch(fold, p, s[1..]);
      }
    } else {
      GlobIsMatch(fold, p[1..], s);
      assert Tokens(p)[1..] == Tokens(p[1..]);
      if s != "" {
        GlobIsMatch(fold, p[1..], s[1..]);
        GlobIsMatch(fold, p, s[1..]);
      }
      StarStep(fold, Tokens(p[1..]), s);
    }
  }

  /** The compiled pattern accepts exactly the paths that the direct matcher accepts: for every pattern and
      every path, with no condition on their characters. */
  lemma RegexIsGlob(fold: CaseFold, pattern: string, path: string)
    requires SlashIsAlone(fold)
    ensures var regex := ReadRegex(RegexText(pattern));
            regex.Some? && (Test(fold, regex.value, path) <==> GlobMatches(fold, pattern, path))
  {
    TextReadsBack(pattern);
    var core := Core(pattern);
    if Anchored(pattern) {
      GlobIsMatch(fold, core, path);
    } else {
      forall j | 0 <= j <= |path| ensures GlobFrom(fold, core, path[j..]) <==> Matches(fold, Tokens(core), path[j..]) {
        GlobIsMatch(fold, core, path[j..]);
      }
    }
  }

  // ---- What `**` between slashes matches ----

  /** What one atom matches whole. */
  ghost predicate Eats(fold: CaseFold, atom: Atom, u: string) {
    match atom
    case Literal(c) => |u| == 1 && fold(u[0]) == fold(c)
    case NotSlash => |u| == 1 && fold(u[0]) != fold('/')
    case NotSlashStar => SlashFree(fold, u)
    case AnyStar => OneLine(u)
  }

  /** The atoms match `u` whole, with no tail after it. */
  ghost predicate Exact(fold: CaseFold, atoms: seq<Atom>, u: string) {
    if atoms == [] then u == ""
    else exists k :: 0 <= k <= |u| && Eats(fold, atoms[0], u[..k]) && Exact(fold, atoms[1..], u[k..])
  }

  lemma MatchesByEating(fold: CaseFold, atoms: seq<Atom>, s: string)
    requires atoms != []
    ensures Matches(fold, atoms, s) <==>
            exists k :: 0 <= k <= |s| && Eats(fold, atoms[0], s[..k]) && Matches(fold, atoms[1..], s[k..])
  {
    if s != "" && Eats(fold, atoms[0], s[..1]) && Matches(fold, atoms[1..], s[1..]) {
      assert s[..1][0] == s[0];
    }
    assert s != "" ==> s[..1][0] == s[0];
    if Matches(fold, atoms, s) && (atoms[0].Literal? || atoms[0].NotSlash?) {
      assert Eats(fold, atoms[0], s[..1]) && Matches(fold, atoms[1..], s[1..]);
    }
  }

  ghost predicate CutAt(fold: CaseFold, a: seq<Atom>, b: seq<Atom>, s: string, i: nat)
    requires i <= |s|
  {
    Exact(fold, a, s[..i]) && Matches(fold, b, s[i..])
  }

  /** Matching one list of atoms after another. */
  lemma {:induction false} MatchesCut(fold: CaseFold, a: seq<Atom>, b: seq<Atom>, s: string)
    ensures Matches(fold, a + b, s) <==> exists i :: 0 <= i <= |s| && CutAt(fold, a, b, s, i)
    decreases |a|
  {
    if a == [] {
      assert a + b == b && s[0..] == s;
      assert Matches(fold, b, s) ==> CutAt(fold, a, b, s, 0);
    } else {
      var both := a + b;
      assert both[0] == a[0] && both[1..] == a[1..] + b;
      MatchesByEating(fold, both, s);
      forall k | 0 <= k <= |s|
        ensures Matches(fold, a[1..] + b, s[k..]) <==>
                exists i :: 0 <= i <= |s[k..]| && CutAt(fold, a[1..], b, s[k..], i)
      {
        MatchesCut(fold, a[1..], b, s[k..]);
      }
      if Matches(fold, both, s) {
        var k :| 0 <= k <= |s| && Eats(fold, a[0], s[..k]) && Matches(fold, both[1..], s[k..]);
        var i :| 0 <= i <= |s[k..]| && CutAt(fold, a[1..], b, s[k..], i);
        EatFirst(fold, a, b, s, k, i);
      }
      if i :| 0 <= i <= |s| && CutAt(fold, a, b, s, i) {
        var k := EatenFirst(fold, a, b, s, i);
        assert CutAt(fold, a[1..], b, s[k..], i - k);
        assert Eats(fold, both[0], s[..k]) && Matches(fold, both[1..], s[k..]);
      }
    }
  }

  lemma CutTwice(s: string, k: nat, i: nat)
    requires k <= i <= |s|
    ensures s[..i][..k] == s[..k] && s[..i][k..] == s[k..][..i - k] && s[k..][i - k..] == s[i..]
  {
  }

  lemma EatFirst(fold: CaseFold, a: seq<Atom>, b: seq<Atom>, s: string, k: nat, i: nat)
    requires a != [] && k <= |s| && i <= |s| - k && Eats(fold, a[0], s[..k]) && CutAt(fold, a[1..], b, s[k..], i)
    ensures CutAt(fold, a, b, s, k + i)
  {
    CutTwice(s, k, k + i);
  }

  lemma EatenFirst(fold: CaseFold, a: seq<Atom>, b: seq<Atom>, s: string, i: nat) returns (k: nat)
    requires a != [] && i <= |s| && CutAt(fold, a, b, s, i)
    ensures k <= i && Eats(fold, a[0], s[..k]) && CutAt(fold, a[1..], b, s[k..], i - k)
  {
    var u := s[..i];
    k :| 0 <= k <= |u| && Eats(fold, a[0], u[..k]) && Exact(fold, a[1..], u[k..]);
    CutTwice(s, k, i);
  }

  lemma {:induction false} TokensCut(p: string, r: string)
    ensures Tokens(p + "/" + r) == Tokens(p) + ([Literal('/')] + Tokens(r))
    decreases |p|
  {
    var whole := p + "/" + r;
    if p == "" {
      assert whole[0] == '/' && whole[1..] == r && !("**" <= whole);
    } else {
      var n := if "**" <= p then 2 else 1;
      assert whole[n..] == p[n..] + "/" + r && whole[0] == p[0];
      assert whole[|p|] == '/' && (|p| > 1 ==> whole[1] == p[1]);
      assert "**" <= whole <==> "**" <= p;
      TokensCut(p[n..], r);
    }
  }

  /** The glob `p` matches `u` whole. */
  ghost predicate Whole(fold: CaseFold, p: string, u: string) {
    Exact(fold, Tokens(p), u)
  }

  /** `p` matches up to the slash at `i`, and `r` from behind it. */
  ghost predicate SlashAt(fold: CaseFold, p: string, r: string, s: string, i: nat)
    requires i < |s|
  {
    s[i] == '/' && Whole(fold, p, s[..i]) && GlobFrom(fold, r, s[i + 1..])
  }

  /** A glob is cut at any of its slashes. */
  lemma SlashSplits(fold: CaseFold, p: string, r: string, s: string)
    requires SlashIsAlone(fold)
    ensures GlobFrom(fold, p + "/" + r, s) <==> exists i :: 0 <= i < |s| && SlashAt(fold, p, r, s, i)
  {
    var a, b := Tokens(p), [Literal('/')] + Tokens(r);
    GlobIsMatch(fold, p + "/" + r, s);
    TokensCut(p, r);
    MatchesCut(fold, a, b, s);
    assert b[1..] == Tokens(r);
    forall i | 0 <= i <= |s| ensures CutAt(fold, a, b, s, i) <==> i < |s| && SlashAt(fold, p, r, s, i) {
      if i < |s| {
        assert s[i..][0] == s[i] && s[i..][1..] == s[i + 1..];
        GlobIsMatch(fold, r, s[i + 1..]);
      }
    }
  }

  lemma WholeDoubleStar(fold: CaseFold, u: string)
    ensures Whole(fold, "**", u) <==> OneLine(u)
  {
    assert "**"[2..] == "" && Tokens("**") == [AnyStar];
    assert u[..|u|] == u && u[|u|..] == "";
    if OneLine(u) {
      assert Eats(fold, AnyStar, u[..|u|]) && Exact(fold, [AnyStar][1..], u[|u|..]);
    }
    if Whole(fold, "**", u) {
      var k :| 0 <= k <= |u| && Eats(fold, AnyStar, u[..k]) && Exact(fold, [AnyStar][1..], u[k..]);
      assert u[..k] == u;
    }
  }

  /** Some slash ends a run on one line, and `q` matches from behind it. */
  ghost predicate AfterSomeSlash(fold: CaseFold, q: string, s: string) {
    exists j :: 0 <= j < |s| && s[j] == '/' && OneLine(s[..j]) && GlobFrom(fold, q, s[j + 1..])
  }

  /** `**` with a slash behind it needs that slash. */
  lemma DoubleStarNeedsItsSlash(fold: CaseFold, q: string, s: string)
    requires SlashIsAlone(fold)
    ensures GlobFrom(fold, "**/" + q, s) <==> AfterSomeSlash(fold, q, s)
  {
    SlashSplits(fold, "**", q, s);
    assert "**" + "/" + q == "**/" + q;
    forall j | 0 <= j < |s|
      ensures SlashAt(fold, "**", q, s, j) <==> s[j] == '/' && OneLine(s[..j]) && GlobFrom(fold, q, s[j + 1..])
    {
      WholeDoubleStar(fold, s[..j]);
    }
  }

  /** Between two slashes it needs both: what `/**/` matches starts with one and has a later one. */
  lemma DoubleStarNeedsBothSlashes(fold: CaseFold, q: string, s: string)
    requires SlashIsAlone(fold)
    ensures GlobFrom(fold, "/**/" + q, s) <==> s != "" && s[0] == '/' && AfterSomeSlash(fold, q, s[1..])
  {
    var whole := "/**/" + q;
    assert whole[0] == '/' && whole[1..] == "**/" + q && !("**" <= whole);
    if s != "" {
      DoubleStarNeedsItsSlash(fold, q, s[1..]);
    }
  }

  /** `**` between `p` and `q` as documented, any number of segments: the two slashes at `i` and `j` are one if it
      stands for no segment. */
  ghost predicate SegmentsAt(fold: CaseFold, p: string, q: string, s: string, i: nat, j: nat)
    requires i <= j < |s|
  {
    && s[i] == '/' && s[j] == '/' && Whole(fold, p, s[..i]) && GlobFrom(fold, q, s[j + 1..])
    && (i < j ==> OneLine(s[i + 1..j]))
  }

  ghost predicate NoSegment(fold: CaseFold, p: string, q: string, s: string) {
    exists i :: 0 <= i < |s| && SegmentsAt(fold, p, q, s, i, i)
  }

  ghost predicate SomeSegments(fold: CaseFold, p: string, q: string, s: string) {
    exists i, j :: 0 <= i < j < |s| && SegmentsAt(fold, p, q, s, i, j)
  }

  /** For every text before and after the `**`: the code accepts exactly the paths that it documents with at least one
      segment for it, and so misses exactly those that have no reading but the one without a segment. */
  lemma DoubleStarExactly(fold: CaseFold, p: string, q: string, s: string)
    requires SlashIsAlone(fold)
    ensures GlobFrom(fold, p + "/**/" + q, s) <==> SomeSegments(fold, p, q, s)
    ensures GlobFrom(fold, p + "/" + q, s) <==> NoSegment(fold, p, q, s)
  {
    SlashSplits(fold, p, q, s);
    forall i | 0 <= i < |s| ensures SlashAt(fold, p, q, s, i) <==> SegmentsAt(fold, p, q, s, i, i) {
    }
    SlashSplits(fold, p, "**/" + q, s);
    assert p + "/**/" + q == p + "/" + ("**/" + q);
    if i :| 0 <= i < |s| && SlashAt(fold, p, "**/" + q, s, i) {
      SegmentsFrom(fold, p, q, s, i);
    }
    if i, j :| 0 <= i < j < |s| && SegmentsAt(fold, p, q, s, i, j) {
      SegmentsFrom(fold, p, q, s, i);
    }
  }

  lemma SegmentsFrom(fold: CaseFold, p: string, q: string, s: string, i: nat)
    requires SlashIsAlone(fold) && i < |s|
    ensures SlashAt(fold, p, "**/" + q, s, i) <==> exists j :: i < j < |s| && SegmentsAt(fold, p, q, s, i, j)
  {
    var rest := s[i + 1..];
    DoubleStarNeedsItsSlash(fold, q, rest);
    forall j | i < j < |s|
      ensures rest[j - i - 1] == s[j] && rest[..j - i - 1] == s[i + 1..j] && rest[j - i - 1 + 1..] == s[j + 1..]
    {
    }
    if AfterSomeSlash(fold, q, rest) && SlashAt(fold, p, "**/" + q, s, i) {
      var j :| 0 <= j < |rest| && rest[j] == '/' && OneLine(rest[..j]) && GlobFrom(fold, q, rest[j + 1..]);
      assert rest[..j] == s[i + 1..i + 1 + j] && rest[j + 1..] == s[i + 1 + j + 1..];
      assert SegmentsAt(fold, p, q, s, i, i + 1 + j);
    }
    if j :| i < j < |s| && SegmentsAt(fold, p, q, s, i, j) {
      assert rest[j - i - 1] == '/' && OneLine(rest[..j - i - 1]) && GlobFrom(fold, q, rest[j - i - 1 + 1..]);
    }
  }

  predicate Plain(p: string) {
    forall i :: 0 <= i < |p| ==> p[i] != '*' && p[i] != '?' && p[i] != '\0'
  }

  lemma {:induction false} PlainMatchesItself(fold: CaseFold, p: string, u: string)
    requires Plain(p)
    ensures Whole(fold, p, u) ==> |u| == |p|
    ensures Whole(fold, p, p) && GlobFrom(fold, p, p)
    decreases |p|
  {
    if p != "" {
      assert !("**" <= p) && Tokens(p) == [Literal(p[0])] + Tokens(p[1..]);
      assert Tokens(p)[1..] == Tokens(p[1..]);
      assert Eats(fold, Literal(p[0]), p[..1]);
      PlainMatchesItself(fold, p[1..], if u == "" then u else u[1..]);
      if Whole(fold, p, u) {
        var k :| 0 <= k <= |u| && Eats(fold, Tokens(p)[0], u[..k]) && Exact(fold, Tokens(p)[1..], u[k..]);
      }
    }
  }

  lemma OnlyOneSlashAfter(fold: CaseFold, p: string, q: string, s: string)
    requires Plain(p) && '/' !in q && s == p + "/" + q
    ensures !SomeSegments(fold, p, q, s)
  {
    forall j | |p| < j < |s| ensures s[j] != '/' {
      assert s[j] == q[j - |p| - 1] && s[j] in q;
    }
    if i, j :| 0 <= i < j < |s| && SegmentsAt(fold, p, q, s, i, j) {
      PlainMatchesItself(fold, p, s[..i]);
    }
  }

  lemma ZeroSegmentsAt(fold: CaseFold, p: string, q: string, s: string)
    requires Plain(p) && Plain(q) && s == p + "/" + q
    ensures NoSegment(fold, p, q, s)
  {
    PlainMatchesItself(fold, p, p);
    PlainMatchesItself(fold, q, q);
    assert s[..|p|] == p && s[|p| + 1..] == q && s[|p|] == '/';
    assert SegmentsAt(fold, p, q, s, |p|, |p|);
  }

  /** A pattern with a slash inside stands as it is and matches from the root. */
  lemma InnerSlashAnchors(p: string, r: string)
    requires r != ""
    ensures var pattern := p + "/" + r;
            p != "" && p[0] != '/' && r[|r| - 1] != '/' ==> Core(pattern) == pattern && Anchored(pattern)
  {
    var pattern := p + "/" + r;
    assert pattern[|pattern| - 1] == r[|r| - 1] && pattern[|p|] == '/';
  }

  /** For all plain text around it: `p/**/q` does not match `p/q`, if `q` has no slash. */
  lemma PlainZeroSegmentsAreMissed(fold: CaseFold, p: string, q: string)
    requires SlashIsAlone(fold) && Plain(p) && Plain(q) && '/' !in q
    ensures GlobFrom(fold, p + "/" + q, p + "/" + q)
    ensures !GlobFrom(fold, p + "/**/" + q, p + "/" + q)
    ensures p != "" && p[0] != '/' && q != "" ==> !GlobMatches(fold, p + "/**/" + q, p + "/" + q)
  {
    InnerSlashAnchors(p, "**/" + q);
    assert p + "/" + ("**/" + q) == p + "/**/" + q;
    DoubleStarExactly(fold, p, q, p + "/" + q);
    OnlyOneSlashAfter(fold, p, q, p + "/" + q);
    ZeroSegmentsAt(fold, p, q, p + "/" + q);
  }

  // ---- Where a pattern is anchored ----

  /** A pattern without a slash matches from the start of every segment, and a slash at its end changes nothing. */
  lemma NoSlashMatchesAnySegment(fold: CaseFold, p: string, path: string)
    requires SlashIsAlone(fold) && p != "" && '/' !in p
    ensures Test(fold, Compile(p), path) <==>
            exists j :: 0 <= j <= |path| && (j == 0 || path[j - 1] == '/') && GlobFrom(fold, p, path[j..])
    ensures Test(fold, Compile(p + "/"), path) <==> Test(fold, Compile(p), path)
  {
    RegexIsGlob(fold, p, path);
    RegexIsGlob(fold, p + "/", path);
    assert p[0] in p && p[|p| - 1] in p;
    assert (p + "/")[..|p + "/"| - 1] == p;
  }

  /** A slash at the start ties it to the root, and so does one inside. */
  lemma SlashMatchesFromTheRoot(fold: CaseFold, p: string, q: string, path: string)
    requires SlashIsAlone(fold) && q != "" && q[|q| - 1] != '/'
    ensures Test(fold, Compile("/" + q), path) <==> GlobFrom(fold, q, path)
    ensures p != "" && p[0] != '/' ==> (Test(fold, Compile(p + "/" + q), path) <==> GlobFrom(fold, p + "/" + q, path))
  {
    RegexIsGlob(fold, "/" + q, path);
    RegexIsGlob(fold, p + "/" + q, path);
    InnerSlashAnchors(p, q);
    assert ("/" + q)[|"/" + q| - 1] == q[|q| - 1] && ("/" + q)[1..] == q && ("/" + q)[0] == '/';
  }

  // ---- The skip decision ----

  datatype Rule = Rule(regex: Regex, negated: bool)

  /** Rule `k` matches and no later one does. */
  predicate Decides(fold: CaseFold, rules: seq<Rule>, path: string, k: int) {
    && 0 <= k < |rules| && Test(fold, rules[k].regex, path)
    && forall j :: k < j < |rules| ==> !Test(fold, rules[j].regex, path)
  }

  predicate NoneMatches(fold: CaseFold, rules: seq<Rule>, path: string) {
    forall j :: 0 <= j < |rules| ==> !Test(fold, rules[j].regex, path)
  }

  /** Rule `k` decides, or `k` is -1 and no rule matches. */
  predicate LastMatch(fold: CaseFold, rules: seq<Rule>, path: string, k: int) {
    if k == -1 then NoneMatches(fold, rules, path) else Decides(fold, rules, path, k)
  }

  lemma LastMatchStep(fold: CaseFold, rules: seq<Rule>, next: Rule, path: string, k: int)
    requires LastMatch(fold, rules, path, k)
    ensures LastMatch(fold, rules + [next], path, if Test(fold, next.regex, path) then |rules| else k)
  {
  }

  /** Walk the rules; the last match wins. There is always exactly one such `last`. */
  method FoldRules(fold: CaseFold, rules: seq<Rule>, path: string) returns (ignored: bool, negated: bool, last: int)
    ensures LastMatch(fold, rules, path, last)
    ensures ignored <==> last >= 0 && !rules[last].negated
    ensures negated <==> last >= 0 && rules[last].negated
  {
    ignored, negated, last := false, false, -1;
    for i := 0 to |rules|
      invariant -1 <= last < i && LastMatch(fold, rules[..i], path, last)
      invariant ignored <==> last >= 0 && !rules[last].negated
      invariant negated <==> last >= 0 && rules[last].negated
    {
      LastMatchStep(fold, rules[..i], rules[i], path, last);
      assert rules[..i + 1] == rules[..i] + [rules[i]];
      if Test(fold, rules[i].regex, path) {
        ignored, negated, last := !rules[i].negated, rules[i].negated, i;
      }
    }
    assert rules[..|rules|] == rules;
  }

  lemma OneLastMatch(fold: CaseFold, rules: seq<Rule>, path: string, a: int, b: int)
    requires LastMatch(fold, rules, path, a) && LastMatch(fold, rules, path, b)
    ensures a == b
  {
  }

  predicate Hit(fold: CaseFold, patterns: seq<Regex>, basename: string, path: string) {
    exists i :: 0 <= i < |patterns| && (Test(fold, patterns[i], basename) || Test(fold, patterns[i], path))
  }

  method AnyHit(fold: CaseFold, patterns: seq<Regex>, basename: string, path: string) returns (hit: bool)
    ensures hit == Hit(fold, patterns, basename, path)
  {
    for i := 0 to |patterns|
      invariant forall j :: 0 <= j < i ==> !Test(fold, patterns[j], basename) && !Test(fold, patterns[j], path)
    {
      if Test(fold, patterns[i], basename) || Test(fold, patterns[i], path) {
        return true;
      }
    }
    return false;
  }

  function Compile(pattern: string): (r: Regex)
    ensures ReadRegex(RegexText(pattern)) == Some(r)
  {
    TextReadsBack(pattern);
    ReadRegex(RegexText(pattern)).value
  }

  /** A compiled list of patterns hits exactly what one of the globs matches. */
  lemma CompiledHit(fold: CaseFold, patterns: seq<string>, basename: string, path: string)
    requires SlashIsAlone(fold)
    ensures Hit(fold, seq(|patterns|, i requires 0 <= i < |patterns| => Compile(patterns[i])), basename, path) <==>
            exists i :: 0 <= i < |patterns| &&
              (GlobMatches(fold, patterns[i], basename) || GlobMatches(fold, patterns[i], path))
  {
    var compiled := seq(|patterns|, i requires 0 <= i < |patterns| => Compile(patterns[i]));
    forall i | 0 <= i < |patterns|
      ensures compiled[i] == Compile(patterns[i])
      ensures Test(fold, Compile(patterns[i]), basename) <==> GlobMatches(fold, patterns[i], basename)
      ensures Test(fold, Compile(patterns[i]), path) <==> GlobMatches(fold, patterns[i], path)
    {
      RegexIsGlob(fold, patterns[i], basename);
      RegexIsGlob(fold, patterns[i], path);
    }
  }

  datatype Guard = Guard(strict: seq<Regex>, overridable: seq<Regex>, rules: seq<Rule>,
                         honorGitignore: bool, honorNegations: bool)

  /** A file outside the root or under a strict pattern is always skipped. Otherwise the last matching ignore
      rule decides: a negation lets the file through the overridable patterns, if negations are honoured; an
      overridable pattern skips it; and a positive rule skips it, if ignore rules are honoured. */
  predicate Skips(fold: CaseFold, guard: Guard, escapesRoot: bool, basename: string, path: string, last: int)
    requires last < |guard.rules|
  {
    || escapesRoot
    || Hit(fold, guard.strict, basename, path)
    || (!(guard.honorNegations && last >= 0 && guard.rules[last].negated) &&
        (Hit(fold, guard.overridable, basename, path)
         || (guard.honorGitignore && last >= 0 && !guard.rules[last].negated)))
  }

  method ShouldSkip(fold: CaseFold, guard: Guard, escapesRoot: bool, basename: string, path: string)
    returns (skip: bool)
    ensures exists last :: -1 <= last < |guard.rules| && LastMatch(fold, guard.rules, path, last)
                           && skip == Skips(fold, guard, escapesRoot, basename, path, last)
  {
    var ignored, negated, last := FoldRules(fold, guard.rules, path);
    if escapesRoot {
      return true;
    }
    var hit := AnyHit(fold, guard.strict, basename, path);
    if hit {
      return true;
    }
    if guard.honorNegations && negated {
      return false;
    }
    hit := AnyHit(fold, guard.overridable, basename, path);
    if hit {
      return true;
    }
    return guard.honorGitignore && ignored;
  }

  // ---- The regular-expression syntax that is read ----

  /** Every character that means something to a regular expression is escaped by the rewriting, and is not read as
      itself without the escape. */
  lemma MetacharactersAreEscaped(c: char)
    requires c == '.' || c == '+' || c == '^' || c == '$' || c == '{' || c == '}' || c == '(' || c == ')' || c == '|'
             || c == '[' || c == ']' || c == '\\'
    ensures EscapePass([c]) == ['\\', c] && ReadAtoms([c]).None?
  {
    assert Special(c);
    assert [c][1..] == "" && EscapePass("") == "";
    assert |[c]| < |NOT_SLASH| && |[c]| < |ANY_STAR|;
  }

  /** `**` stops at every line break. */
  lemma LineBreaksStopTheStars(fold: CaseFold, c: char)
    requires c == '\n' || c == '\r' || c as int == 0x2028 || c as int == 0x2029
    ensures !GlobFrom(fold, "**", [c])
  {
    assert LineTerminator(c) && "**"[2..] == "" && c != '/';
  }
}

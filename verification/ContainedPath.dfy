/** The lexical containment gate that every state path passes through
    (lib/util/contained-path.js). */
module ContainedPath {

  datatype Containment = Contained(path: string) | Rejected

  /** The characters that JavaScript's trim() removes. */
  predicate IsSpace(c: char) {
    var n := c as int;
    || 9 <= n <= 13 || n == 32 || n == 0xA0 || n == 0x1680 || 0x2000 <= n <= 0x200A
    || n == 0x2028 || n == 0x2029 || n == 0x202F || n == 0x205F || n == 0x3000 || n == 0xFEFF
  }

  predicate Blank(s: string) {
    forall i :: 0 <= i < |s| ==> IsSpace(s[i])
  }

  function FoldSlashes(s: string): (r: string)
    ensures |r| == |s|
    ensures forall i :: 0 <= i < |s| ==> r[i] == if s[i] == '\\' then '/' else s[i]
  {
    seq(|s|, i requires 0 <= i < |s| => if s[i] == '\\' then '/' else s[i])
  }

  predicate Letter(c: char) {
    'a' <= c <= 'z' || 'A' <= c <= 'Z'
  }

  /** `C:/...` */
  predicate DriveAbsolute(s: string) {
    |s| >= 3 && Letter(s[0]) && s[1] == ':' && s[2] == '/'
  }

  function DropSlashes(s: string): string {
    if s != "" && s[0] == '/' then DropSlashes(s[1..]) else s
  }

  /** A leading `./`, with every slash that follows the dot. */
  function StripDotSlash(s: string): string {
    if "./" <= s then DropSlashes(s[1..]) else s
  }

  predicate Includes(s: string, t: string) {
    t <= s || (s != "" && Includes(s[1..], t))
  }

  predicate EndsWith(s: string, t: string) {
    |t| <= |s| && s[|s| - |t|..] == t
  }

  /** The four textual tests for a parent-directory segment. */
  predicate Traverses(s: string) {
    s == ".." || "../" <= s || Includes(s, "/../") || EndsWith(s, "/..")
  }

  /** Split at every slash. */
  function Segments(s: string): (r: seq<string>)
    ensures |r| >= 1
  {
    if s == "" then [""]
    else
      var rest := Segments(s[1..]);
      if s[0] == '/' then [""] + rest else [[s[0]] + rest[0]] + rest[1..]
  }

  function Join(segments: seq<string>): string {
    if segments == [] then ""
    else if |segments| == 1 then segments[0]
    else segments[0] + "/" + Join(segments[1..])
  }

  /** Drop the segments that name no directory of their own. */
  function Kept(segments: seq<string>): seq<string> {
    if segments == [] then []
    else if segments[0] == "" || segments[0] == "." then Kept(segments[1..])
    else [segments[0]] + Kept(segments[1..])
  }

  /** POSIX normalization of a relative path that holds no `..` segment, without its trailing slashes. */
  function Normalize(s: string): string {
    var kept := Kept(Segments(s));
    if kept == [] then "." else Join(kept)
  }

  function Contain(value: string): Containment {
    if Blank(value) || '\0' in value then Rejected
    else
      var normalized := FoldSlashes(value);
      if "/" <= normalized || DriveAbsolute(normalized) then Rejected
      else
        var stripped := StripDotSlash(normalized);
        if Traverses(stripped) then Rejected
        else
          var canonical := Normalize(stripped);
          if canonical == "" || canonical == "." then Rejected else Contained(canonical)
  }

  /** What a canonical path looks like: slash-separated proper names. */
  predicate NormalForm(p: string) {
    && (forall segment :: segment in Segments(p) ==> segment != "" && segment != "." && segment != "..")
    && '\\' !in p && '\0' !in p
  }

  // ---- Splitting and joining ----

  predicate SlashFree(segments: seq<string>) {
    forall i :: 0 <= i < |segments| ==> '/' !in segments[i]
  }

  lemma {:induction false} SegmentsAreSlashFree(s: string)
    ensures SlashFree(Segments(s))
  {
    if s != "" {
      SegmentsAreSlashFree(s[1..]);
    }
  }

  lemma {:induction false} JoinOfSegments(s: string)
    ensures Join(Segments(s)) == s
  {
    if s != "" {
      var rest := Segments(s[1..]);
      JoinOfSegments(s[1..]);
      if s[0] == '/' {
        assert ([""] + rest)[1..] == rest;
      } else {
        var whole := [[s[0]] + rest[0]] + rest[1..];
        assert whole[1..] == rest[1..];
        assert s == [s[0]] + s[1..];
      }
    }
  }

  lemma {:induction false} SegmentsOfPrefixed(name: string, s: string)
    requires '/' !in name
    ensures Segments(name + "/" + s) == [name] + Segments(s)
  {
    if name == "" {
      assert (name + "/" + s)[1..] == s;
    } else {
      assert (name + "/" + s)[1..] == name[1..] + "/" + s;
      SegmentsOfPrefixed(name[1..], s);
      assert name == [name[0]] + name[1..];
    }
  }

  lemma {:induction false} SegmentsOfName(name: string)
    requires '/' !in name
    ensures Segments(name) == [name]
  {
    if name != "" {
      SegmentsOfName(name[1..]);
      assert name == [name[0]] + name[1..];
    }
  }

  lemma {:induction false} SegmentsOfJoin(segments: seq<string>)
    requires segments != [] && SlashFree(segments)
    ensures Segments(Join(segments)) == segments
  {
    if |segments| == 1 {
      SegmentsOfName(segments[0]);
    } else {
      SegmentsOfJoin(segments[1..]);
      SegmentsOfPrefixed(segments[0], Join(segments[1..]));
    }
  }

  /** No character appears in a segment that was not in the string. */
  lemma {:induction false} SegmentCharacters(s: string, c: char)
    requires c !in s
    ensures forall segment :: segment in Segments(s) ==> c !in segment
  {
    if s != "" {
      SegmentCharacters(s[1..], c);
    }
  }

  lemma {:induction false} JoinCharacters(segments: seq<string>, c: char)
    requires c != '/'
    requires forall segment :: segment in segments ==> c !in segment
    ensures c !in Join(segments)
  {
    if |segments| > 1 {
      JoinCharacters(segments[1..], c);
    }
  }

  lemma {:induction false} KeptIsSubset(segments: seq<string>)
    ensures forall segment :: segment in Kept(segments) <==> segment in segments && segment != "" && segment != "."
  {
    if segments != [] {
      KeptIsSubset(segments[1..]);
      assert segments == [segments[0]] + segments[1..];
    }
  }

  lemma {:induction false} KeptOfProperNames(segments: seq<string>)
    requires "" !in segments && "." !in segments
    ensures Kept(segments) == segments
  {
    if segments != [] {
      KeptOfProperNames(segments[1..]);
    }
  }

  // ---- The textual traversal tests find exactly the `..` segments ----

  lemma FirstSegmentIsParent(s: string)
    ensures Segments(s)[0] == ".." <==> s == ".." || "../" <= s
  {
    JoinOfSegments(s);
    if "../" <= s {
      assert s == ".." + "/" + s[3..];
      SegmentsOfPrefixed("..", s[3..]);
    } else if s == ".." {
      SegmentsOfName("..");
    }
  }

  lemma EndsWithStep(s: string)
    requires s != ""
    ensures EndsWith(s, "/..") <==> s == "/.." || EndsWith(s[1..], "/..")
  {
    if |s| > 3 {
      assert s[|s| - 3..] == s[1..][|s[1..]| - 3..];
    } else if |s| == 3 {
      assert s[0..] == s;
    }
  }

  /** Peeling the first character off the two tests that look behind a slash. */
  lemma LaterTestsStep(s: string)
    requires s != ""
    ensures (Includes(s, "/../") || EndsWith(s, "/..")) <==>
            || (s[0] == '/' && (s[1..] == ".." || "../" <= s[1..]))
            || Includes(s[1..], "/../") || EndsWith(s[1..], "/..")
  {
    var t := s[1..];
    EndsWithStep(s);
    assert s == [s[0]] + t;
    assert "/../" <= s <==> s[0] == '/' && "../" <= t;
    assert s == "/.." <==> s[0] == '/' && t == "..";
  }

  lemma {:induction false} LaterSegmentIsParent(s: string)
    ensures ".." in Segments(s)[1..] <==> Includes(s, "/../") || EndsWith(s, "/..")
  {
    if s != "" {
      var t := s[1..];
      LaterSegmentIsParent(t);
      LaterTestsStep(s);
      if s[0] == '/' {
        FirstSegmentIsParent(t);
        assert Segments(s)[1..] == Segments(t);
        assert Segments(t) == [Segments(t)[0]] + Segments(t)[1..];
      } else {
        assert Segments(s)[1..] == Segments(t)[1..];
      }
    }
  }

  lemma TraversesExactly(s: string)
    ensures Traverses(s) <==> ".." in Segments(s)
  {
    FirstSegmentIsParent(s);
    LaterSegmentIsParent(s);
    assert Segments(s) == [Segments(s)[0]] + Segments(s)[1..];
  }

  // ---- The gate's result ----

  lemma {:induction false} DropSlashesCharacters(s: string, c: char)
    requires c !in s
    ensures c !in DropSlashes(s)
  {
    if s != "" && s[0] == '/' {
      DropSlashesCharacters(s[1..], c);
    }
  }

  lemma NormalizeIsNormal(s: string)
    requires !Traverses(s) && '\\' !in s && '\0' !in s
    ensures Normalize(s) == "." || NormalForm(Normalize(s))
  {
    var segments := Segments(s);
    var kept := Kept(segments);
    if kept != [] {
      TraversesExactly(s);
      KeptIsSubset(segments);
      SegmentsAreSlashFree(s);
      forall i | 0 <= i < |kept| ensures '/' !in kept[i] {
        assert kept[i] in segments;
      }
      SegmentsOfJoin(kept);
      SegmentCharacters(s, '\\');
      SegmentCharacters(s, '\0');
      JoinCharacters(kept, '\\');
      JoinCharacters(kept, '\0');
    }
  }

  /** Every accepted path comes out in normal form: no empty, `.` or `..` segment, no backslash, no NUL. */
  lemma ContainedIsNormal(value: string)
    requires Contain(value).Contained?
    ensures NormalForm(Contain(value).path)
  {
    var normalized := FoldSlashes(value);
    assert '\\' !in normalized && '\0' !in normalized;
    DropSlashesCharacters(normalized[1..], '\\');
    DropSlashesCharacters(normalized[1..], '\0');
    NormalizeIsNormal(StripDotSlash(normalized));
  }

  lemma StartsWithDotSlash(p: string)
    requires "./" <= p
    ensures Segments(p)[0] == "."
  {
    assert p == "." + "/" + p[2..];
    SegmentsOfPrefixed(".", p[2..]);
  }

  lemma NormalFormStart(p: string)
    requires NormalForm(p)
    ensures p != "" && p != "." && p[0] != '/' && !("./" <= p) && !Traverses(p) && FoldSlashes(p) == p
  {
    TraversesExactly(p);
    assert Segments(p)[0] in Segments(p);
    if "./" <= p {
      StartsWithDotSlash(p);
      assert false;
    }
    if p == "." {
      SegmentsOfName(p);
      assert false;
    }
  }

  /** Passing a canonical path through the gate again returns it unchanged, or rejects it:
      exactly the blank paths and those that now look like a Windows drive are rejected. */
  lemma NormalReentry(p: string)
    requires NormalForm(p)
    ensures Contain(p) == if Blank(p) || DriveAbsolute(p) then Rejected else Contained(p)
  {
    NormalFormStart(p);
    KeptOfProperNames(Segments(p));
    JoinOfSegments(p);
  }

  /** Every canonical path has a second accepted spelling. With NormalReentry this makes the gate
      idempotent on its own results exactly for the paths that are neither blank nor drive-like. */
  lemma DottedSpelling(p: string)
    requires NormalForm(p)
    ensures Contain("./" + p) == Contained(p) && "./" + p != p
  {
    var value := "./" + p;
    NormalFormStart(p);
    assert !IsSpace(value[0]);
    assert value[1..] == "/" + p && value[1..][1..] == p;
    assert FoldSlashes(value) == value;
    assert DropSlashes(value[1..]) == p;
    KeptOfProperNames(Segments(p));
    JoinOfSegments(p);
  }

  /** The gate accepts `./p` for every canonical `p`, and rejects its own answer exactly for blank and drive-like
      ones. */
  lemma GateIsIdempotentExactly(p: string)
    requires NormalForm(p)
    ensures Contain("./" + p) == Contained(p)
    ensures Contain(Contain("./" + p).path) == Contain("./" + p) <==> !Blank(p) && !DriveAbsolute(p)
  {
    DottedSpelling(p);
    NormalReentry(p);
  }

  /** For example `./C:/x`: the gate accepts every relative path that starts with a drive name, and then rejects its own
      answer. */
  lemma DriveFailsReentry(p: string, drive: char, name: string)
    requires Letter(drive) && NormalForm(name) && p == [drive, ':'] + "/" + name
    ensures Contain("./" + p) == Contained(p) && Contain(p) == Rejected
  {
    SegmentsOfPrefixed([drive, ':'], name);
    assert forall segment :: segment in Segments(p) ==> segment == [drive, ':'] || segment in Segments(name);
    NormalFormStart(name);
    assert DriveAbsolute(p) && !IsSpace(p[0]);
    GateIsIdempotentExactly(p);
    NormalReentry(p);
  }

  // ---- Exactly what the gate accepts ----

  lemma {:induction false} DroppedSlashes(s: string)
    ensures Kept(Segments(DropSlashes(s))) == Kept(Segments(s))
    ensures ".." in Segments(DropSlashes(s)) <==> ".." in Segments(s)
  {
    if s != "" && s[0] == '/' {
      DroppedSlashes(s[1..]);
      assert Segments(s) == [""] + Segments(s[1..]);
      assert Segments(s)[1..] == Segments(s[1..]);
    }
  }

  lemma StrippedDotSlash(s: string)
    ensures Kept(Segments(StripDotSlash(s))) == Kept(Segments(s))
    ensures ".." in Segments(StripDotSlash(s)) <==> ".." in Segments(s)
  {
    if "./" <= s {
      assert s == "." + "/" + s[2..] && s[1..] == "" + "/" + s[2..];
      SegmentsOfPrefixed(".", s[2..]);
      SegmentsOfPrefixed("", s[2..]);
      DroppedSlashes(s[1..]);
      assert Segments(s)[1..] == Segments(s[2..]) && Segments(s[1..])[1..] == Segments(s[2..]);
    }
  }

  lemma KeptSome(segments: seq<string>)
    ensures Kept(segments) != [] <==> exists segment :: segment in segments && segment != "" && segment != "."
  {
    KeptIsSubset(segments);
    if Kept(segments) != [] {
      assert Kept(segments)[0] in Kept(segments);
    }
  }

  lemma JoinIsNoDot(segments: seq<string>)
    requires segments != [] && segments[0] != "" && segments[0] != "."
    ensures Join(segments) != "" && Join(segments) != "."
  {
    if |segments| > 1 {
      var joined := segments[0] + "/" + Join(segments[1..]);
      assert joined[|segments[0]|] == '/';
    }
  }

  lemma KeptStarts(segments: seq<string>)
    ensures Kept(segments) != [] ==> Kept(segments)[0] != "" && Kept(segments)[0] != "."
  {
    KeptIsSubset(segments);
    if Kept(segments) != [] {
      assert Kept(segments)[0] in Kept(segments);
    }
  }

  /** A path is accepted if and only if it is not blank, holds no NUL, does not start at a root or a drive, with
      backslashes read as slashes, names no parent directory and names something; and then it is what it names. */
  lemma ContainExactly(value: string)
    ensures var folded := FoldSlashes(value);
            Contain(value).Contained? <==>
              && !Blank(value) && '\0' !in value
              && folded[0] != '/' && !DriveAbsolute(folded)
              && ".." !in Segments(folded)
              && exists segment :: segment in Segments(folded) && segment != "" && segment != "."
    ensures Contain(value).Contained? ==> Contain(value).path == Join(Kept(Segments(FoldSlashes(value))))
  {
    var folded := FoldSlashes(value);
    StrippedDotSlash(folded);
    TraversesExactly(StripDotSlash(folded));
    KeptSome(Segments(folded));
    KeptStarts(Segments(folded));
    if Kept(Segments(folded)) != [] {
      JoinIsNoDot(Kept(Segments(folded)));
    }
  }
}

/** Why and where the segmenter cuts, in terms of the messages alone. */
module ChunkReasons {
  import opened Basics
  import opened Chunker

  // ---- Counting ----

  /** All tool uses of some messages, in order. */
  function Uses(msgs: seq<Message>): seq<Tool> {
    if msgs == [] then [] else Uses(msgs[..|msgs| - 1]) + msgs[|msgs| - 1].tools
  }

  lemma {:induction false} CountInIsMultiplicity(tools: seq<Tool>, tool: Tool)
    ensures CountIn(tools, tool) == multiset(tools)[tool]
  {
    if tools != [] {
      var n := |tools| - 1;
      CountInIsMultiplicity(tools[..n], tool);
      assert tools == tools[..n] + [tools[n]];
    }
  }

  /** The counts are the multiplicities among all tool uses. */
  lemma {:induction false} CountIsMultiplicity(msgs: seq<Message>, tool: Tool)
    ensures Count(msgs, tool) == multiset(Uses(msgs))[tool]
  {
    if msgs != [] {
      var n := |msgs| - 1;
      CountIsMultiplicity(msgs[..n], tool);
      CountInIsMultiplicity(msgs[n].tools, tool);
    }
  }

  lemma {:induction false} FourTools(tools: seq<Tool>)
    ensures |tools| == multiset(tools)[ReadTool] + multiset(tools)[EditTool] + multiset(tools)[BashTool]
                       + multiset(tools)[OtherTool]
  {
    if tools != [] {
      var n := |tools| - 1;
      FourTools(tools[..n]);
      assert tools == tools[..n] + [tools[n]];
      assert tools[n].ReadTool? || tools[n].EditTool? || tools[n].BashTool? || tools[n].OtherTool?;
    }
  }

  lemma TotalIsLength(msgs: seq<Message>)
    ensures Total(msgs) == |Uses(msgs)|
  {
    CountIsMultiplicity(msgs, ReadTool);
    CountIsMultiplicity(msgs, EditTool);
    CountIsMultiplicity(msgs, BashTool);
    CountIsMultiplicity(msgs, OtherTool);
    FourTools(Uses(msgs));
  }

  /** One message's tokens are its own; with TokensSplit that fixes every sum. */
  lemma TokensOfOne(m: Message)
    ensures Tokens([]) == 0 && Tokens([m]) == m.tokens
  {
    assert [m][..0] == [];
  }

  // ---- The signals, spelled out ----

  /** `tool` makes up more than half of all tool uses. */
  predicate MostlyUsed(msgs: seq<Message>, tool: Tool) {
    2 * multiset(Uses(msgs))[tool] > |Uses(msgs)|
  }

  lemma MostlyIsMajority(msgs: seq<Message>, tool: Tool)
    ensures IsMajority(msgs, tool) <==> MostlyUsed(msgs, tool)
  {
    CountIsMultiplicity(msgs, tool);
    TotalIsLength(msgs);
  }

  lemma DominantIsMostlyUsed(msgs: seq<Message>, tool: Tool)
    ensures Dominant(msgs) == Some(tool) <==> MostlyUsed(msgs, tool)
  {
    MostlyIsMajority(msgs, tool);
    if Dominant(msgs).Some? && MostlyUsed(msgs, tool) {
      TwoMajorities(msgs, tool, Dominant(msgs).value);
    }
  }

  lemma TwoMajorities(msgs: seq<Message>, a: Tool, b: Tool)
    requires IsMajority(msgs, a) && IsMajority(msgs, b)
    ensures a == b
  {
    assert a.ReadTool? || a.EditTool? || a.BashTool? || a.OtherTool?;
    assert b.ReadTool? || b.EditTool? || b.BashTool? || b.OtherTool?;
  }

  /** The later messages mostly use `tool`; the earlier ones mostly use another, and this one in less than 30% of their
      uses. */
  predicate TurnsTo(earlier: seq<Message>, later: seq<Message>, tool: Tool) {
    && MostlyUsed(later, tool)
    && (exists other :: other != tool && MostlyUsed(earlier, other))
    && 10 * multiset(Uses(earlier))[tool] < 3 * |Uses(earlier)|
  }

  /** In the chunk so far, of at least `toolShift` messages, the last ten turn to some tool. */
  predicate ToolsShift(opts: Options, msgs: seq<Message>, lo: nat, i: nat)
    requires lo < i < |msgs|
  {
    var cut := if i - lo > 10 then i - 10 else lo;
    i - lo >= opts.toolShift && exists tool :: TurnsTo(msgs[lo..cut], msgs[cut..i], tool)
  }

  /** In the chunk so far, of at least `fileSet` messages, some file was touched; the next message touches two different
      files or more, and none of those before. */
  predicate FilesMove(opts: Options, msgs: seq<Message>, lo: nat, i: nat)
    requires lo < i < |msgs|
  {
    && i - lo >= opts.fileSet
    && (exists k :: lo <= k < i && msgs[k].files != [])
    && (exists a, b :: 0 <= a < |msgs[i].files| && 0 <= b < |msgs[i].files| && msgs[i].files[a] != msgs[i].files[b])
    && (forall k, f :: lo <= k < i && f in msgs[k].files ==> f !in msgs[i].files)
  }

  /** This signal fires at message `i` of a chunk that starts at `lo`. */
  predicate Fires(sig: Signals, opts: Options, msgs: seq<Message>, lo: nat, i: nat, reason: Reason)
    requires lo < i < |msgs|
  {
    var cur, prev := msgs[i], msgs[i - 1];
    match reason
    case FixedWindow => i - lo >= opts.window
    case TimeGap => cur.time.Some? && prev.time.Some? && cur.time.value - prev.time.value > opts.gap
    case SkillInvocation => cur.fromUser && cur.text != "" && sig.skill(cur.text)
    case PhaseMarker => cur.fromUser && cur.text != "" && sig.phase(cur.text)
    case ToolShift => ToolsShift(opts, msgs, lo, i)
    case FileSetChange => FilesMove(opts, msgs, lo, i)
    case EndOfSession => false
  }

  /** The order in which the signals are looked at. */
  function Rank(reason: Reason): nat {
    match reason
    case FixedWindow => 0
    case TimeGap => 1
    case SkillInvocation => 2
    case PhaseMarker => 3
    case ToolShift => 4
    case FileSetChange => 5
    case EndOfSession => 6
  }

  predicate FirstToFire(sig: Signals, opts: Options, msgs: seq<Message>, lo: nat, i: nat, reason: Reason)
    requires lo < i < |msgs|
  {
    && Fires(sig, opts, msgs, lo, i, reason)
    && forall earlier :: Rank(earlier) < Rank(reason) ==> !Fires(sig, opts, msgs, lo, i, earlier)
  }

  lemma TurnsExactly(earlier: seq<Message>, later: seq<Message>, tool: Tool)
    ensures TurnsTo(earlier, later, tool) <==>
              && Dominant(later) == Some(tool) && Dominant(earlier).Some? && Dominant(earlier) != Some(tool)
              && 10 * Count(earlier, tool) < 3 * Total(earlier)
  {
    DominantIsMostlyUsed(later, tool);
    DominantIsMostlyUsed(earlier, tool);
    CountIsMultiplicity(earlier, tool);
    TotalIsLength(earlier);
    if Dominant(earlier).Some? {
      DominantIsMostlyUsed(earlier, Dominant(earlier).value);
    }
    if other :| other != tool && MostlyUsed(earlier, other) {
      DominantIsMostlyUsed(earlier, other);
    }
  }

  lemma SomeTurn(earlier: seq<Message>, later: seq<Message>)
    ensures (exists tool :: TurnsTo(earlier, later, tool)) <==>
              && Dominant(later).Some? && Dominant(earlier).Some? && Dominant(later) != Dominant(earlier)
              && 10 * Count(earlier, Dominant(later).value) < 3 * Total(earlier)
  {
    if Dominant(later).Some? {
      TurnsExactly(earlier, later, Dominant(later).value);
    }
    if tool :| TurnsTo(earlier, later, tool) {
      TurnsExactly(earlier, later, tool);
    }
  }

  lemma DominantHasUses(msgs: seq<Message>)
    requires Dominant(msgs).Some?
    ensures Total(msgs) > 0 && 2 * Count(msgs, Dominant(msgs).value) > Total(msgs)
  {
    var tool := Dominant(msgs).value;
    assert IsMajority(msgs, tool);
    assert tool.ReadTool? || tool.EditTool? || tool.BashTool? || tool.OtherTool?;
  }

  lemma ShiftedIsTurn(chunk: seq<Message>)
    ensures var cut := if |chunk| > 10 then |chunk| - 10 else 0;
            Shifted(chunk) <==> exists tool :: TurnsTo(chunk[..cut], chunk[cut..], tool)
  {
    var cut := if |chunk| > 10 then |chunk| - 10 else 0;
    SomeTurn(chunk[..cut], chunk[cut..]);
    if Dominant(chunk[cut..]).Some? {
      DominantHasUses(chunk[cut..]);
    }
    if Dominant(chunk[..cut]).Some? {
      DominantHasUses(chunk[..cut]);
    }
  }

  lemma ShiftedIsSpelledOut(opts: Options, msgs: seq<Message>, lo: nat, i: nat)
    requires lo < i < |msgs|
    ensures ToolsShift(opts, msgs, lo, i) <==> i - lo >= opts.toolShift && Shifted(msgs[lo..i])
  {
    ShiftedIsTurn(msgs[lo..i]);
    CutOfStretch(msgs, lo, if i - lo > 10 then i - 10 else lo, i);
  }

  lemma CutOfStretch(msgs: seq<Message>, lo: nat, cut: nat, i: nat)
    requires lo <= cut <= i <= |msgs|
    ensures msgs[lo..i][cut - lo..] == msgs[cut..i] && msgs[lo..i][..cut - lo] == msgs[lo..cut]
  {
  }

  /** The files of a stretch of messages. */
  lemma FilesOfStretch(msgs: seq<Message>, lo: nat, i: nat, f: string)
    requires lo <= i <= |msgs|
    ensures f in FilesOf(msgs[lo..i]) <==> exists k :: lo <= k < i && f in msgs[k].files
  {
    var chunk := msgs[lo..i];
    if k :| lo <= k < i && f in msgs[k].files {
      assert chunk[k - lo] == msgs[k] && msgs[k] in chunk;
    }
    if m :| m in chunk && f in m.files {
      var k :| 0 <= k < |chunk| && chunk[k] == m;
      assert f in msgs[lo + k].files;
    }
  }

  lemma SomeFile(msgs: seq<Message>, lo: nat, i: nat)
    requires lo <= i <= |msgs|
    ensures FilesOf(msgs[lo..i]) != {} <==> exists k :: lo <= k < i && msgs[k].files != []
  {
    var prior := FilesOf(msgs[lo..i]);
    if f :| f in prior {
      FilesOfStretch(msgs, lo, i, f);
    }
    if k :| lo <= k < i && msgs[k].files != [] {
      assert msgs[k].files[0] in msgs[k].files;
      FilesOfStretch(msgs, lo, i, msgs[k].files[0]);
      assert msgs[k].files[0] in prior;
    }
  }

  lemma FilesChangedIsSpelledOut(opts: Options, msgs: seq<Message>, lo: nat, i: nat)
    requires lo < i < |msgs|
    ensures FilesMove(opts, msgs, lo, i) <==> i - lo >= opts.fileSet && FilesChanged(msgs[lo..i], msgs[i])
  {
    var prior, latest := FilesOf(msgs[lo..i]), FilesOf([msgs[i]]);
    SomeFile(msgs, lo, i);
    assert forall f :: f in latest <==> f in msgs[i].files;
    TwoOrMore(msgs[i].files, latest);
    forall f ensures f in prior <==> exists k :: lo <= k < i && f in msgs[k].files {
      FilesOfStretch(msgs, lo, i, f);
    }
    if latest * prior == {} {
      forall k, f | lo <= k < i && f in msgs[k].files ensures f !in msgs[i].files {
        assert f in prior && f !in latest * prior;
      }
    } else {
      var f :| f in latest * prior;
      var k :| lo <= k < i && f in msgs[k].files;
    }
  }

  lemma TwoOrMore(files: seq<string>, names: set<string>)
    requires forall f :: f in names <==> f in files
    ensures |names| >= 2 <==> exists a, b :: 0 <= a < |files| && 0 <= b < |files| && files[a] != files[b]
  {
    if |names| >= 2 {
      var a, b := TwoOfThem(files, names);
      assert files[a] != files[b];
    }
    if a, b :| 0 <= a < |files| && 0 <= b < |files| && files[a] != files[b] {
      var two := {files[a], files[b]};
      assert files[a] in two && two - {files[a]} == {files[b]};
      SubsetSize(two, names);
    }
  }

  lemma TwoOfThem(files: seq<string>, names: set<string>) returns (a: nat, b: nat)
    requires (forall f :: f in names ==> f in files) && |names| >= 2
    ensures a < |files| && b < |files| && files[a] != files[b]
  {
    var x :| x in names;
    var rest := names - {x};
    assert names == rest + {x};
    var y :| y in rest;
    a :| 0 <= a < |files| && files[a] == x;
    b :| 0 <= b < |files| && files[b] == y;
  }

  lemma {:induction false} SubsetSize(a: set<string>, b: set<string>)
    requires a <= b
    ensures |a| <= |b|
  {
    if a != {} {
      var x :| x in a;
      SubsetSize(a - {x}, b - {x});
    }
  }

  lemma BoundaryFires(sig: Signals, opts: Options, msgs: seq<Message>, lo: nat, i: nat, reason: Reason)
    requires lo < i < |msgs|
    ensures Boundary(sig, opts, msgs, lo, i) == Some(reason) ==> Fires(sig, opts, msgs, lo, i, reason)
    ensures Fires(sig, opts, msgs, lo, i, reason) ==>
              && Boundary(sig, opts, msgs, lo, i).Some?
              && Rank(Boundary(sig, opts, msgs, lo, i).value) <= Rank(reason)
  {
    ShiftedIsSpelledOut(opts, msgs, lo, i);
    FilesChangedIsSpelledOut(opts, msgs, lo, i);
  }

  /** The cut at a message: the first signal that fires, and no cut if none does. */
  lemma BoundaryExactly(sig: Signals, opts: Options, msgs: seq<Message>, lo: nat, i: nat, reason: Reason)
    requires lo < i < |msgs|
    ensures Boundary(sig, opts, msgs, lo, i) == Some(reason) <==> FirstToFire(sig, opts, msgs, lo, i, reason)
    ensures Boundary(sig, opts, msgs, lo, i).None? <==> forall r :: !Fires(sig, opts, msgs, lo, i, r)
  {
    forall r
      ensures Boundary(sig, opts, msgs, lo, i) == Some(r) ==> Fires(sig, opts, msgs, lo, i, r)
      ensures Fires(sig, opts, msgs, lo, i, r) ==>
                && Boundary(sig, opts, msgs, lo, i).Some?
                && Rank(Boundary(sig, opts, msgs, lo, i).value) <= Rank(r)
    {
      BoundaryFires(sig, opts, msgs, lo, i, r);
    }
    var found := Boundary(sig, opts, msgs, lo, i);
    if found.Some? {
      assert Fires(sig, opts, msgs, lo, i, found.value);
      assert Rank(found.value) == Rank(reason) ==> found.value == reason;
    }
  }

  // ---- The spans ----

  /** A span is cut right: it ends with the transcript, or where a signal fires, the first of which is its reason; and
      inside it none fires. */
  predicate CutRight(sig: Signals, opts: Options, msgs: seq<Message>, s: Span) {
    && s.lo < s.hi <= |msgs|
    && (forall i, r :: s.lo < i < s.hi ==> !Fires(sig, opts, msgs, s.lo, i, r))
    && (if s.hi < |msgs| then FirstToFire(sig, opts, msgs, s.lo, s.hi, s.reason) else s.reason == EndOfSession)
  }

  lemma CutRightIsMaximal(sig: Signals, opts: Options, msgs: seq<Message>, s: Span)
    ensures CutRight(sig, opts, msgs, s) <==> Maximal(sig, opts, msgs, s)
  {
    if s.lo < s.hi <= |msgs| {
      forall i | s.lo < i < s.hi
        ensures Boundary(sig, opts, msgs, s.lo, i).None? <==> forall r :: !Fires(sig, opts, msgs, s.lo, i, r)
      {
        BoundaryExactly(sig, opts, msgs, s.lo, i, EndOfSession);
      }
      if s.hi < |msgs| {
        BoundaryExactly(sig, opts, msgs, s.lo, s.hi, s.reason);
      }
      if CutRight(sig, opts, msgs, s) {
        assert forall i :: s.lo < i < s.hi ==> Boundary(sig, opts, msgs, s.lo, i).None?;
      }
      if Maximal(sig, opts, msgs, s) {
        forall i, r | s.lo < i < s.hi ensures !Fires(sig, opts, msgs, s.lo, i, r) {
          assert Boundary(sig, opts, msgs, s.lo, i).None?;
        }
      }
    }
  }

  /** The segmentation is the one tiling of the transcript whose spans are cut right. */
  lemma SegmentationExactly(sig: Signals, opts: Options, msgs: seq<Message>, spans: seq<Span>)
    ensures spans == Segmentation(sig, opts, msgs) <==>
            Tiles(spans, 0, |msgs|) && forall s :: s in spans ==> CutRight(sig, opts, msgs, s)
  {
    forall s ensures CutRight(sig, opts, msgs, s) <==> Maximal(sig, opts, msgs, s) {
      CutRightIsMaximal(sig, opts, msgs, s);
    }
    SegmentationIsSound(sig, opts, msgs);
    if Tiles(spans, 0, |msgs|) && forall s :: s in spans ==> CutRight(sig, opts, msgs, s) {
      if msgs == [] {
        assert spans == [];
      } else {
        SegmentationIsUnique(sig, opts, msgs, 0, 1, spans);
      }
    }
  }

  /** A span is a full window if and only if that is its reason, and then it is no longer than the window. */
  lemma WindowExactly(sig: Signals, opts: Options, msgs: seq<Message>, s: Span)
    requires s in Segmentation(sig, opts, msgs) && s.hi < |msgs|
    ensures s.reason == FixedWindow <==> s.hi - s.lo >= opts.window
    ensures s.reason == FixedWindow && opts.window >= 1 ==> s.hi - s.lo == opts.window
  {
    SegmentationExactly(sig, opts, msgs, Segmentation(sig, opts, msgs));
    SegmentationIsSound(sig, opts, msgs);
    assert CutRight(sig, opts, msgs, s);
  }

  /** No gap, no command of the user, no tools and no files. */
  predicate NoSignals(sig: Signals, opts: Options, msgs: seq<Message>) {
    forall i :: 0 <= i < |msgs| ==>
      && (i > 0 && msgs[i].time.Some? && msgs[i - 1].time.Some? ==>
            msgs[i].time.value - msgs[i - 1].time.value <= opts.gap)
      && (msgs[i].fromUser ==> !sig.skill(msgs[i].text) && !sig.phase(msgs[i].text))
      && msgs[i].tools == [] && msgs[i].files == []
  }

  lemma {:induction false} NoUses(msgs: seq<Message>)
    requires forall i :: 0 <= i < |msgs| ==> msgs[i].tools == []
    ensures Uses(msgs) == []
  {
    if msgs != [] {
      NoUses(msgs[..|msgs| - 1]);
    }
  }

  lemma PlainFires(sig: Signals, opts: Options, msgs: seq<Message>, lo: nat, i: nat, reason: Reason)
    requires NoSignals(sig, opts, msgs) && lo < i < |msgs| && Fires(sig, opts, msgs, lo, i, reason)
    ensures reason == FixedWindow
  {
    if reason == ToolShift {
      var cut := if i - lo > 10 then i - 10 else lo;
      NoUses(msgs[cut..i]);
    }
  }

  /** A transcript without signals is cut into full windows and a remainder. */
  lemma PlainTranscript(sig: Signals, opts: Options, msgs: seq<Message>, s: Span)
    requires NoSignals(sig, opts, msgs) && opts.window >= 1 && s in Segmentation(sig, opts, msgs)
    ensures if s.hi < |msgs| then s.reason == FixedWindow && s.hi - s.lo == opts.window
            else s.reason == EndOfSession && s.hi - s.lo <= opts.window
  {
    SegmentationExactly(sig, opts, msgs, Segmentation(sig, opts, msgs));
    WindowBoundsAll(sig, opts, msgs, s);
    assert CutRight(sig, opts, msgs, s);
    if s.hi < |msgs| {
      PlainFires(sig, opts, msgs, s.lo, s.hi, s.reason);
      WindowExactly(sig, opts, msgs, s);
    }
  }

  lemma WindowBoundsAll(sig: Signals, opts: Options, msgs: seq<Message>, s: Span)
    requires s in Segmentation(sig, opts, msgs)
    ensures s.lo < s.hi <= |msgs| && (s.hi - s.lo <= 1 || s.hi - s.lo <= opts.window)
  {
    SegmentationIsSound(sig, opts, msgs);
  }

  /** A row tells of exactly its span's messages: how many, their tokens, how often each tool is used and which files
      are touched, with the span's reason and the given number and total. */
  lemma RowExactly(msgs: seq<Message>, s: Span, index: nat, total: nat, f: string)
    requires s.lo <= s.hi <= |msgs|
    ensures var row, uses := ChunkOf(msgs, s, index, total), multiset(Uses(msgs[s.lo..s.hi]));
            && row.messageCount == s.hi - s.lo && row.tokenCount == Tokens(msgs[s.lo..s.hi])
            && row.tools.read == uses[ReadTool] && row.tools.edit == uses[EditTool]
            && row.tools.bash == uses[BashTool] && row.tools.other == uses[OtherTool]
            && (f in row.files <==> exists k :: s.lo <= k < s.hi && f in msgs[k].files)
            && row.reason == s.reason && row.index == index && row.total == total
  {
    var part := msgs[s.lo..s.hi];
    CountIsMultiplicity(part, ReadTool);
    CountIsMultiplicity(part, EditTool);
    CountIsMultiplicity(part, BashTool);
    CountIsMultiplicity(part, OtherTool);
    FilesOfStretch(msgs, s.lo, s.hi, f);
  }
}

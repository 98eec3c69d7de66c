/** The signal-based transcript segmenter (lib/brain/chunker.js). Skill and phase patterns are left to
    two predicates on text; tool names come classified and timestamps parsed. */
module Chunker {
  import opened Basics

  datatype Tool = ReadTool | EditTool | BashTool | OtherTool

  /** One precomputed user or assistant message. */
  datatype Message = Message(fromUser: bool, time: Option<int>, text: string, tools: seq<Tool>, files: seq<string>,
                             tokens: nat)

  datatype Signals = Signals(skill: string -> bool, phase: string -> bool)
  datatype Options = Options(window: int, gap: int, toolShift: int, fileSet: int)

  datatype Reason = FixedWindow | TimeGap | SkillInvocation | PhaseMarker | ToolShift | FileSetChange | EndOfSession

  // ---- Tool counts ----

  function CountIn(tools: seq<Tool>, tool: Tool): nat {
    if tools == [] then 0
    else CountIn(tools[..|tools| - 1], tool) + if tools[|tools| - 1] == tool then 1 else 0
  }

  function Count(msgs: seq<Message>, tool: Tool): nat {
    if msgs == [] then 0 else Count(msgs[..|msgs| - 1], tool) + CountIn(msgs[|msgs| - 1].tools, tool)
  }

  function Total(msgs: seq<Message>): nat {
    Count(msgs, ReadTool) + Count(msgs, EditTool) + Count(msgs, BashTool) + Count(msgs, OtherTool)
  }

  /** The tool with more than half of the uses. */
  predicate IsMajority(msgs: seq<Message>, tool: Tool) {
    2 * Count(msgs, tool) > Total(msgs)
  }

  function Dominant(msgs: seq<Message>): (r: Option<Tool>)
    ensures r.Some? ==> IsMajority(msgs, r.value)
    ensures r.None? ==> forall tool :: !IsMajority(msgs, tool)
  {
    if IsMajority(msgs, ReadTool) then Some(ReadTool)
    else if IsMajority(msgs, EditTool) then Some(EditTool)
    else if IsMajority(msgs, BashTool) then Some(BashTool)
    else if IsMajority(msgs, OtherTool) then Some(OtherTool)
    else
      assert forall tool | IsMajority(msgs, tool) ::
          tool.ReadTool? || tool.EditTool? || tool.BashTool? || tool.OtherTool?;
      None
  }

  datatype ToolCounts = ToolCounts(read: nat, edit: nat, bash: nat, other: nat) {
    function Of(tool: Tool): nat {
      match tool
      case ReadTool => read
      case EditTool => edit
      case BashTool => bash
      case OtherTool => other
    }

    function Plus(tool: Tool): ToolCounts {
      match tool
      case ReadTool => this.(read := read + 1)
      case EditTool => this.(edit := edit + 1)
      case BashTool => this.(bash := bash + 1)
      case OtherTool => this.(other := other + 1)
    }
  }

  function CountsOf(msgs: seq<Message>): ToolCounts {
    ToolCounts(Count(msgs, ReadTool), Count(msgs, EditTool), Count(msgs, BashTool), Count(msgs, OtherTool))
  }

  /** The counts of some messages and of the first tools of one more. */
  ghost predicate CountedTo(counts: ToolCounts, total: nat, msgs: seq<Message>, tools: seq<Tool>) {
    && (forall tool :: counts.Of(tool) == Count(msgs, tool) + CountIn(tools, tool))
    && total == counts.read + counts.edit + counts.bash + counts.other
  }

  ghost predicate Counted(counts: ToolCounts, total: nat, msgs: seq<Message>) {
    && (forall tool :: counts.Of(tool) == Count(msgs, tool))
    && total == counts.read + counts.edit + counts.bash + counts.other
  }

  lemma CountOneMore(counts: ToolCounts, total: nat, msgs: seq<Message>, tools: seq<Tool>, j: nat)
    requires j < |tools| && CountedTo(counts, total, msgs, tools[..j])
    ensures CountedTo(counts.Plus(tools[j]), total + 1, msgs, tools[..j + 1])
  {
    assert tools[..j + 1][..j] == tools[..j];
  }

  method CountMessage(counts0: ToolCounts, total0: nat, ghost msgs: seq<Message>, msg: Message)
    returns (counts: ToolCounts, total: nat)
    requires Counted(counts0, total0, msgs)
    ensures Counted(counts, total, msgs + [msg])
  {
    counts, total := counts0, total0;
    var tools := msg.tools;
    assert tools[..0] == [];
    for j := 0 to |tools|
      invariant CountedTo(counts, total, msgs, tools[..j])
    {
      CountOneMore(counts, total, msgs, tools, j);
      counts := counts.Plus(tools[j]);
      total := total + 1;
    }
    assert tools[..|tools|] == tools;
    assert (msgs + [msg])[..|msgs|] == msgs;
  }

  lemma CountedAll(counts: ToolCounts, total: nat, msgs: seq<Message>)
    requires Counted(counts, total, msgs)
    ensures counts == CountsOf(msgs) && total == Total(msgs)
  {
    assert counts.Of(ReadTool) == Count(msgs, ReadTool) && counts.Of(EditTool) == Count(msgs, EditTool)
           && counts.Of(BashTool) == Count(msgs, BashTool) && counts.Of(OtherTool) == Count(msgs, OtherTool);
  }

  method CountTools(msgs: seq<Message>) returns (counts: ToolCounts, total: nat)
    ensures counts == CountsOf(msgs) && total == Total(msgs)
  {
    counts, total := ToolCounts(0, 0, 0, 0), 0;
    for i := 0 to |msgs|
      invariant Counted(counts, total, msgs[..i])
    {
      assert msgs[..i + 1] == msgs[..i] + [msgs[i]];
      counts, total := CountMessage(counts, total, msgs[..i], msgs[i]);
    }
    assert msgs[..|msgs|] == msgs;
    CountedAll(counts, total, msgs);
  }

  method DominantToolType(msgs: seq<Message>) returns (r: Option<Tool>)
    ensures r == Dominant(msgs)
  {
    var counts, total := CountTools(msgs);
    var order := [ReadTool, EditTool, BashTool, OtherTool];
    for i := 0 to 4
      invariant forall j :: 0 <= j < i ==> !IsMajority(msgs, order[j])
    {
      if 2 * counts.Of(order[i]) > total {
        return Some(order[i]);
      }
    }
    assert order[0] == ReadTool && order[1] == EditTool && order[2] == BashTool && order[3] == OtherTool;
    return None;
  }

  // ---- Boundaries ----

  function FilesOf(msgs: seq<Message>): set<string> {
    set m, f | m in msgs && f in m.files :: f
  }

  predicate GapBefore(msgs: seq<Message>, i: nat, gap: int)
    requires i < |msgs|
  {
    i > 0 && msgs[i].time.Some? && msgs[i - 1].time.Some? && msgs[i].time.value - msgs[i - 1].time.value > gap
  }

  predicate UserSays(msgs: seq<Message>, i: nat, pattern: string -> bool)
    requires i < |msgs|
  {
    msgs[i].fromUser && msgs[i].text != "" && pattern(msgs[i].text)
  }

  /** The last ten messages favour one tool and what came before favoured another, and used it under 30%. */
  predicate Shifted(chunk: seq<Message>) {
    var cut := if |chunk| > 10 then |chunk| - 10 else 0;
    var last10, prior := chunk[cut..], chunk[..cut];
    var now, before := Dominant(last10), Dominant(prior);
    && now.Some? && before.Some? && now != before
    && Total(last10) > 0 && Total(prior) > 0
    && 2 * Count(last10, now.value) > Total(last10)
    && 10 * Count(prior, now.value) < 3 * Total(prior)
  }

  predicate FilesChanged(chunk: seq<Message>, next: Message) {
    var prior, latest := FilesOf(chunk), FilesOf([next]);
    prior != {} && |latest| >= 2 && latest * prior == {}
  }

  /** The boundary rules in priority order. */
  function Boundary(sig: Signals, opts: Options, msgs: seq<Message>, start: nat, i: nat): Option<Reason>
    requires start <= i < |msgs|
  {
    if i - start >= opts.window then Some(FixedWindow)
    else if GapBefore(msgs, i, opts.gap) then Some(TimeGap)
    else if UserSays(msgs, i, sig.skill) then Some(SkillInvocation)
    else if UserSays(msgs, i, sig.phase) then Some(PhaseMarker)
    else if i - start >= opts.toolShift && Shifted(msgs[start..i]) then Some(ToolShift)
    else if i - start >= opts.fileSet && FilesChanged(msgs[start..i], msgs[i]) then Some(FileSetChange)
    else None
  }

  method DetectBoundary(sig: Signals, opts: Options, msgs: seq<Message>, start: nat, i: nat) returns (r: Option<Reason>)
    requires start <= i < |msgs|
    ensures r == Boundary(sig, opts, msgs, start, i)
  {
    var length := i - start;
    if length >= opts.window {
      return Some(FixedWindow);
    }
    if GapBefore(msgs, i, opts.gap) {
      return Some(TimeGap);
    }
    if UserSays(msgs, i, sig.skill) {
      return Some(SkillInvocation);
    }
    if UserSays(msgs, i, sig.phase) {
      return Some(PhaseMarker);
    }
    var chunk := msgs[start..i];
    if length >= opts.toolShift {
      var cut := if |chunk| > 10 then |chunk| - 10 else 0;
      var now := DominantToolType(chunk[cut..]);
      var before := DominantToolType(chunk[..cut]);
      if now.Some? && before.Some? && now != before {
        var counts10, total10 := CountTools(chunk[cut..]);
        var countsPrior, totalPrior := CountTools(chunk[..cut]);
        if total10 > 0 && totalPrior > 0 {
          if 2 * counts10.Of(now.value) > total10 && 10 * countsPrior.Of(now.value) < 3 * totalPrior {
            return Some(ToolShift);
          }
        }
      }
    }
    if length >= opts.fileSet && FilesChanged(chunk, msgs[i]) {
      return Some(FileSetChange);
    }
    return None;
  }

  // ---- Segmentation ----

  datatype Span = Span(lo: nat, hi: nat, reason: Reason)

  /** Walk from message `i` with the current chunk starting at `start`. */
  function Spans(sig: Signals, opts: Options, msgs: seq<Message>, start: nat, i: nat): seq<Span>
    requires start < i <= |msgs|
    decreases |msgs| - i
  {
    if i == |msgs| then [Span(start, i, EndOfSession)]
    else
      var reason := Boundary(sig, opts, msgs, start, i);
      if reason.None? then Spans(sig, opts, msgs, start, i + 1)
      else [Span(start, i, reason.value)] + Spans(sig, opts, msgs, i, i + 1)
  }

  function Segmentation(sig: Signals, opts: Options, msgs: seq<Message>): seq<Span> {
    if msgs == [] then [] else Spans(sig, opts, msgs, 0, 1)
  }

  /** A row for brain.db. */
  datatype Chunk = Chunk(index: nat, messageCount: nat, tokenCount: nat, tools: ToolCounts, files: set<string>,
                         reason: Reason, total: nat)

  function Tokens(msgs: seq<Message>): nat {
    if msgs == [] then 0 else Tokens(msgs[..|msgs| - 1]) + msgs[|msgs| - 1].tokens
  }

  function ChunkOf(msgs: seq<Message>, s: Span, index: nat, total: nat): Chunk
    requires s.lo <= s.hi <= |msgs|
  {
    var part := msgs[s.lo..s.hi];
    Chunk(index, |part|, Tokens(part), CountsOf(part), FilesOf(part), s.reason, total)
  }

  /** The spans cover `lo..hi` without gap or overlap, each holding at least one message. */
  predicate Tiles(spans: seq<Span>, lo: nat, hi: nat) {
    if spans == [] then lo == hi
    else spans[0].lo == lo && lo < spans[0].hi && spans[0].hi <= hi && Tiles(spans[1..], spans[0].hi, hi)
  }

  /** No boundary inside the span, and the rule that names it fires at its end. */
  predicate Maximal(sig: Signals, opts: Options, msgs: seq<Message>, s: Span) {
    && s.lo < s.hi <= |msgs|
    && (forall i :: s.lo < i < s.hi ==> Boundary(sig, opts, msgs, s.lo, i).None?)
    && (if s.hi < |msgs| then Boundary(sig, opts, msgs, s.lo, s.hi) == Some(s.reason) else s.reason == EndOfSession)
  }

  lemma {:induction false} SpansAreMaximal(sig: Signals, opts: Options, msgs: seq<Message>, start: nat, i: nat)
    requires start < i <= |msgs|
    requires forall j :: start < j < i ==> Boundary(sig, opts, msgs, start, j).None?
    ensures Tiles(Spans(sig, opts, msgs, start, i), start, |msgs|)
    ensures forall s :: s in Spans(sig, opts, msgs, start, i) ==> Maximal(sig, opts, msgs, s)
    decreases |msgs| - i
  {
    if i < |msgs| {
      if Boundary(sig, opts, msgs, start, i).None? {
        SpansAreMaximal(sig, opts, msgs, start, i + 1);
      } else {
        SpansAreMaximal(sig, opts, msgs, i, i + 1);
      }
    }
  }

  lemma WindowBounds(sig: Signals, opts: Options, msgs: seq<Message>, s: Span)
    requires Maximal(sig, opts, msgs, s)
    ensures s.hi - s.lo <= 1 || s.hi - s.lo <= opts.window
  {
    if s.hi - s.lo > 1 {
      assert Boundary(sig, opts, msgs, s.lo, s.hi - 1).None?;
    }
  }

  /** The segmentation tiles the transcript with non-empty runs of at most the window (a window below one
      still gives runs of one message), and past its first message no run holds an over-threshold gap, a
      skill invocation or a phase marker. */
  lemma SegmentationIsSound(sig: Signals, opts: Options, msgs: seq<Message>)
    ensures var spans := Segmentation(sig, opts, msgs);
            && Tiles(spans, 0, |msgs|)
            && forall s :: s in spans ==>
                 && Maximal(sig, opts, msgs, s)
                 && (s.hi - s.lo <= 1 || s.hi - s.lo <= opts.window)
                 && forall i :: s.lo < i < s.hi ==>
                      !GapBefore(msgs, i, opts.gap) && !UserSays(msgs, i, sig.skill) && !UserSays(msgs, i, sig.phase)
  {
    if msgs != [] {
      SpansAreMaximal(sig, opts, msgs, 0, 1);
      forall s | s in Segmentation(sig, opts, msgs)
        ensures s.hi - s.lo <= 1 || s.hi - s.lo <= opts.window
        ensures forall i :: s.lo < i < s.hi ==>
                  !GapBefore(msgs, i, opts.gap) && !UserSays(msgs, i, sig.skill) && !UserSays(msgs, i, sig.phase)
      {
        WindowBounds(sig, opts, msgs, s);
        forall i | s.lo < i < s.hi
          ensures !GapBefore(msgs, i, opts.gap) && !UserSays(msgs, i, sig.skill) && !UserSays(msgs, i, sig.phase)
        {
          assert Boundary(sig, opts, msgs, s.lo, i).None?;
        }
      }
    }
  }

  /** Tiling and maximality leave no choice: they determine the segmentation. */
  lemma {:induction false} SegmentationIsUnique(sig: Signals, opts: Options, msgs: seq<Message>, start: nat, i: nat,
                                                spans: seq<Span>)
    requires start < i <= |msgs|
    requires forall j :: start < j < i ==> Boundary(sig, opts, msgs, start, j).None?
    requires Tiles(spans, start, |msgs|)
    requires forall s :: s in spans ==> Maximal(sig, opts, msgs, s)
    ensures spans == Spans(sig, opts, msgs, start, i)
    decreases |msgs| - i
  {
    if i == |msgs| {
      LastSpan(sig, opts, msgs, start, spans);
    } else if Boundary(sig, opts, msgs, start, i).None? {
      SegmentationIsUnique(sig, opts, msgs, start, i + 1, spans);
    } else {
      FirstSpan(sig, opts, msgs, start, i, spans);
      SegmentationIsUnique(sig, opts, msgs, i, i + 1, spans[1..]);
      assert spans == [spans[0]] + spans[1..];
    }
  }

  lemma LastSpan(sig: Signals, opts: Options, msgs: seq<Message>, start: nat, spans: seq<Span>)
    requires start < |msgs| && Tiles(spans, start, |msgs|)
    requires forall j :: start < j < |msgs| ==> Boundary(sig, opts, msgs, start, j).None?
    requires forall s :: s in spans ==> Maximal(sig, opts, msgs, s)
    ensures spans == [Span(start, |msgs|, EndOfSession)]
  {
    assert Maximal(sig, opts, msgs, spans[0]);
    assert spans[0].hi == |msgs|;
    assert spans[1..] == [];
  }

  lemma FirstSpan(sig: Signals, opts: Options, msgs: seq<Message>, start: nat, i: nat, spans: seq<Span>)
    requires start < i < |msgs| && Tiles(spans, start, |msgs|)
    requires forall j :: start < j < i ==> Boundary(sig, opts, msgs, start, j).None?
    requires Boundary(sig, opts, msgs, start, i).Some?
    requires forall s :: s in spans ==> Maximal(sig, opts, msgs, s)
    ensures spans[0] == Span(start, i, Boundary(sig, opts, msgs, start, i).value)
  {
    assert Maximal(sig, opts, msgs, spans[0]);
  }

  // ---- Growing transcripts ----

  lemma BoundaryIsPrefixLocal(sig: Signals, opts: Options, a: seq<Message>, b: seq<Message>, start: nat, i: nat)
    requires start <= i < |a|
    ensures Boundary(sig, opts, a + b, start, i) == Boundary(sig, opts, a, start, i)
  {
    assert (a + b)[start..i] == a[start..i];
  }

  lemma {:induction false} SpansGrow(sig: Signals, opts: Options, a: seq<Message>, b: seq<Message>, start: nat, i: nat)
    requires start < i <= |a|
    ensures var before := Spans(sig, opts, a, start, i);
            before != [] && before[..|before| - 1] <= Spans(sig, opts, a + b, start, i)
    decreases |a| - i
  {
    if i < |a| {
      BoundaryIsPrefixLocal(sig, opts, a, b, start, i);
      if Boundary(sig, opts, a, start, i).None? {
        SpansGrow(sig, opts, a, b, start, i + 1);
      } else {
        SpansGrow(sig, opts, a, b, i, i + 1);
        var before := Spans(sig, opts, a, start, i);
        var rest := Spans(sig, opts, a, i, i + 1);
        assert before[..|before| - 1] == [before[0]] + rest[..|rest| - 1];
      }
    }
  }

  /** Appending messages changes no chunk but the last: same spans, same rows up to the backfilled total. */
  lemma AppendingKeepsChunks(sig: Signals, opts: Options, a: seq<Message>, b: seq<Message>, k: nat, total: nat)
    requires k + 1 < |Segmentation(sig, opts, a)|
    ensures var before, after := Segmentation(sig, opts, a), Segmentation(sig, opts, a + b);
            && k < |after| && after[k] == before[k]
            && before[k].lo <= before[k].hi <= |a|
            && ChunkOf(a + b, after[k], k, total) == ChunkOf(a, before[k], k, total)
  {
    SpansGrow(sig, opts, a, b, 0, 1);
    SegmentationIsSound(sig, opts, a);
    var s := Segmentation(sig, opts, a)[k];
    assert s in Segmentation(sig, opts, a);
    assert (a + b)[s.lo..s.hi] == a[s.lo..s.hi];
  }

  // ---- The segmenter as it runs ----

  method FinalizeChunk(msgs: seq<Message>, s: Span, index: nat) returns (chunk: Chunk)
    requires s.lo <= s.hi <= |msgs|
    ensures chunk == ChunkOf(msgs, s, index, 0)
  {
    var part := msgs[s.lo..s.hi];
    var counts, _ := CountTools(part);
    var tokens := 0;
    for i := 0 to |part|
      invariant tokens == Tokens(part[..i])
    {
      assert part[..i + 1][..i] == part[..i];
      tokens := tokens + part[i].tokens;
    }
    assert part[..|part|] == part;
    return Chunk(index, |part|, tokens, counts, FilesOf(part), s.reason, 0);
  }

  predicate ChunksOf(msgs: seq<Message>, spans: seq<Span>, chunks: seq<Chunk>, total: nat) {
    && |chunks| == |spans|
    && forall k :: 0 <= k < |spans| ==>
         spans[k].lo < spans[k].hi <= |msgs| && chunks[k] == ChunkOf(msgs, spans[k], k, total)
  }

  method ChunkMessages(sig: Signals, opts: Options, msgs: seq<Message>) returns (chunks: seq<Chunk>)
    ensures ChunksOf(msgs, Segmentation(sig, opts, msgs), chunks, |chunks|)
    ensures forall k :: 0 <= k < |chunks| ==> chunks[k].index == k && chunks[k].total == |chunks|
  {
    if msgs == [] {
      return [];
    }
    ghost var spans := [];
    chunks := [];
    var start := 0;
    var i := 1;
    while i < |msgs|
      invariant start < i <= |msgs|
      invariant Segmentation(sig, opts, msgs) == spans + Spans(sig, opts, msgs, start, i)
      invariant ChunksOf(msgs, spans, chunks, 0)
    {
      var reason := DetectBoundary(sig, opts, msgs, start, i);
      if reason.Some? {
        var s := Span(start, i, reason.value);
        var chunk := FinalizeChunk(msgs, s, |chunks|);
        chunks := chunks + [chunk];
        spans := spans + [s];
        start := i;
      }
      i := i + 1;
    }
    var s := Span(start, |msgs|, EndOfSession);
    var chunk := FinalizeChunk(msgs, s, |chunks|);
    chunks := chunks + [chunk];
    spans := spans + [s];
    assert ChunksOf(msgs, spans, chunks, 0);
    chunks := seq(|chunks|, k requires 0 <= k < |chunks| => chunks[k].(total := |chunks|));
  }

  // ---- Conservation ----

  function MessageSum(chunks: seq<Chunk>): nat {
    if chunks == [] then 0 else chunks[0].messageCount + MessageSum(chunks[1..])
  }

  function TokenSum(chunks: seq<Chunk>): nat {
    if chunks == [] then 0 else chunks[0].tokenCount + TokenSum(chunks[1..])
  }

  function ToolSum(chunks: seq<Chunk>, tool: Tool): nat {
    if chunks == [] then 0 else chunks[0].tools.Of(tool) + ToolSum(chunks[1..], tool)
  }

  lemma {:induction false} TokensSplit(a: seq<Message>, b: seq<Message>)
    ensures Tokens(a + b) == Tokens(a) + Tokens(b)
  {
    if b == [] {
      assert a + b == a;
    } else {
      assert (a + b)[..|a + b| - 1] == a + b[..|b| - 1];
      TokensSplit(a, b[..|b| - 1]);
    }
  }

  lemma {:induction false} CountSplit(a: seq<Message>, b: seq<Message>, tool: Tool)
    ensures Count(a + b, tool) == Count(a, tool) + Count(b, tool)
  {
    if b == [] {
      assert a + b == a;
    } else {
      assert (a + b)[..|a + b| - 1] == a + b[..|b| - 1];
      CountSplit(a, b[..|b| - 1], tool);
    }
  }

  /** `chunks` are rows of consecutive spans, whatever their indices and totals. */
  predicate RowsOf(msgs: seq<Message>, spans: seq<Span>, chunks: seq<Chunk>) {
    && |chunks| == |spans|
    && forall k :: 0 <= k < |spans| ==>
         && spans[k].lo <= spans[k].hi <= |msgs|
         && chunks[k].messageCount == spans[k].hi - spans[k].lo
         && chunks[k].tokenCount == Tokens(msgs[spans[k].lo..spans[k].hi])
         && chunks[k].tools == CountsOf(msgs[spans[k].lo..spans[k].hi])
  }

  /** Chunking loses and invents no message, no token and no tool use. */
  lemma {:induction false} ChunksConserve(msgs: seq<Message>, spans: seq<Span>, chunks: seq<Chunk>, lo: nat, tool: Tool)
    requires lo <= |msgs| && Tiles(spans, lo, |msgs|) && RowsOf(msgs, spans, chunks)
    ensures MessageSum(chunks) == |msgs| - lo
    ensures TokenSum(chunks) == Tokens(msgs[lo..])
    ensures ToolSum(chunks, tool) == Count(msgs[lo..], tool)
    decreases |spans|
  {
    if spans != [] {
      var hi := spans[0].hi;
      ChunksConserve(msgs, spans[1..], chunks[1..], hi, tool);
      assert msgs[lo..] == msgs[lo..hi] + msgs[hi..];
      TokensSplit(msgs[lo..hi], msgs[hi..]);
      CountSplit(msgs[lo..hi], msgs[hi..], tool);
    }
  }

  /** What the segmenter returns accounts for the whole transcript. */
  lemma ChunkingConserves(sig: Signals, opts: Options, msgs: seq<Message>, chunks: seq<Chunk>, total: nat, tool: Tool)
    requires ChunksOf(msgs, Segmentation(sig, opts, msgs), chunks, total)
    ensures MessageSum(chunks) == |msgs|
    ensures TokenSum(chunks) == Tokens(msgs)
    ensures ToolSum(chunks, tool) == Count(msgs, tool)
  {
    SegmentationIsSound(sig, opts, msgs);
    ChunksConserve(msgs, Segmentation(sig, opts, msgs), chunks, 0, tool);
    assert msgs[0..] == msgs;
  }
}

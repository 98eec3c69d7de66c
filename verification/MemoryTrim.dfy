/** Trimming MEMORY.md in place (lib/analysis/memory-writer.js), on the lines between its newlines. */
module MemoryTrim {
  import opened ContainedPath

  const MAX_LINES := 200
  const AUTO_HEADING := "### Auto-extracted ("

  function TrimStart(s: string): string {
    if s != "" && IsSpace(s[0]) then TrimStart(s[1..]) else s
  }

  predicate IsAuto(line: string) {
    AUTO_HEADING <= TrimStart(line)
  }

  /** Two or three hashes and white space. */
  predicate IsHeading(line: string) {
    var s := TrimStart(line);
    || ("##" <= s && |s| > 2 && IsSpace(s[2]))
    || ("###" <= s && |s| > 3 && IsSpace(s[3]))
  }

  lemma AutoIsHeading(line: string)
    requires IsAuto(line)
    ensures IsHeading(line)
  {
    var s := TrimStart(line);
    assert s[..|AUTO_HEADING|] == AUTO_HEADING;
    assert s[0] == AUTO_HEADING[0] && s[1] == AUTO_HEADING[1] && s[2] == AUTO_HEADING[2] && s[3] == AUTO_HEADING[3];
  }

  /** Lines `start..end`. */
  datatype Block = Block(start: nat, end: nat)

  /** The first heading at or after line `j`, or the end. */
  function BlockEnd(lines: seq<string>, j: nat): (end: nat)
    requires j <= |lines|
    ensures j <= end <= |lines|
    ensures forall k :: j <= k < end ==> !IsHeading(lines[k])
    ensures end < |lines| ==> IsHeading(lines[end])
    decreases |lines| - j
  {
    if j == |lines| || IsHeading(lines[j]) then j else BlockEnd(lines, j + 1)
  }

  /** The auto-extracted blocks of the first `n` lines' headings, oldest first. */
  function Sections(lines: seq<string>, n: nat): seq<Block>
    requires n <= |lines|
  {
    if n == 0 then []
    else Sections(lines, n - 1) + if IsAuto(lines[n - 1]) then [Block(n - 1, BlockEnd(lines, n))] else []
  }

  /** Blocks in order, without overlap, inside the first `hi` lines. */
  predicate Ordered(blocks: seq<Block>, hi: nat) {
    if blocks == [] then true
    else
      var n := |blocks| - 1;
      blocks[n].start < blocks[n].end <= hi && Ordered(blocks[..n], blocks[n].start)
  }

  // ---- Deleting blocks ----

  predicate InSome(blocks: seq<Block>, i: nat) {
    exists j :: 0 <= j < |blocks| && blocks[j].start <= i < blocks[j].end
  }

  /** Of the first `hi` lines, those in no block, in order. */
  function Without(lines: seq<string>, blocks: seq<Block>, hi: nat): seq<string>
    requires hi <= |lines|
  {
    if hi == 0 then []
    else Without(lines, blocks, hi - 1) + if InSome(blocks, hi - 1) then [] else [lines[hi - 1]]
  }

  function Lengths(blocks: seq<Block>): int {
    if blocks == [] then 0
    else Lengths(blocks[..|blocks| - 1]) + blocks[|blocks| - 1].end - blocks[|blocks| - 1].start
  }

  lemma OrderedSnoc(blocks: seq<Block>, last: Block, hi: nat)
    requires Ordered(blocks, last.start) && last.start < last.end <= hi
    ensures Ordered(blocks + [last], hi)
  {
    assert (blocks + [last])[..|blocks|] == blocks;
  }

  lemma {:induction false} SectionsAreOrdered(lines: seq<string>, n: nat, hi: nat)
    requires n <= |lines| && BlockEnds(lines, n) <= hi <= |lines|
    ensures Ordered(Sections(lines, n), hi)
    decreases n
  {
    if n > 0 {
      if IsAuto(lines[n - 1]) {
        AutoIsHeading(lines[n - 1]);
        SectionsAreOrdered(lines, n - 1, n - 1);
        OrderedSnoc(Sections(lines, n - 1), Block(n - 1, BlockEnd(lines, n)), hi);
      } else {
        SectionsAreOrdered(lines, n - 1, hi);
        assert Sections(lines, n) == Sections(lines, n - 1);
      }
    }
  }

  /** How far the blocks of the first `n` lines reach. */
  function BlockEnds(lines: seq<string>, n: nat): nat
    requires n <= |lines|
    ensures BlockEnds(lines, n) <= |lines|
    ensures forall h :: n <= h < |lines| && IsHeading(lines[h]) ==> BlockEnds(lines, n) <= h
  {
    if n == 0 then 0
    else if IsAuto(lines[n - 1]) then BlockEnd(lines, n)
    else BlockEnds(lines, n - 1)
  }

  lemma {:induction false} OrderedBelow(blocks: seq<Block>, hi: nat, j: nat)
    requires Ordered(blocks, hi) && j < |blocks|
    ensures blocks[j].start < blocks[j].end <= hi
  {
    var n := |blocks| - 1;
    if j < n {
      OrderedBelow(blocks[..n], blocks[n].start, j);
    }
  }

  lemma {:induction false} WithoutLater(lines: seq<string>, blocks: seq<Block>, last: Block, hi: nat)
    requires hi <= |lines| && hi <= last.start
    ensures Without(lines, blocks + [last], hi) == Without(lines, blocks, hi)
  {
    if hi > 0 {
      WithoutLater(lines, blocks, last, hi - 1);
      InSomeOfTwo(blocks, last, hi - 1);
    }
  }

  lemma InSomeOfTwo(blocks: seq<Block>, last: Block, i: nat)
    ensures InSome(blocks + [last], i) <==> InSome(blocks, i) || last.start <= i < last.end
  {
    var both := blocks + [last];
    if j :| 0 <= j < |blocks| && blocks[j].start <= i < blocks[j].end {
      assert both[j].start <= i < both[j].end;
    }
    if last.start <= i < last.end {
      assert both[|blocks|].start <= i < both[|blocks|].end;
    }
  }

  /** Inside a block nothing is kept. */
  lemma {:induction false} WithoutInside(lines: seq<string>, blocks: seq<Block>, from: nat, hi: nat)
    requires from <= hi <= |lines|
    requires forall i :: from <= i < hi ==> InSome(blocks, i)
    ensures Without(lines, blocks, hi) == Without(lines, blocks, from)
    decreases hi
  {
    if from < hi {
      WithoutInside(lines, blocks, from, hi - 1);
    }
  }

  /** Past the last block everything is kept. */
  lemma {:induction false} WithoutBeyond(lines: seq<string>, blocks: seq<Block>, from: nat, hi: nat)
    requires from <= hi <= |lines|
    requires forall i :: from <= i < hi ==> !InSome(blocks, i)
    ensures Without(lines, blocks, hi) == Without(lines, blocks, from) + lines[from..hi]
    decreases hi
  {
    if from < hi {
      WithoutBeyond(lines, blocks, from, hi - 1);
      assert lines[from..hi] == lines[from..hi - 1] + [lines[hi - 1]];
    }
  }

  /** The running offset: what is kept before `hi` is shorter by exactly the lengths of the blocks. */
  lemma {:induction false} WithoutLength(lines: seq<string>, blocks: seq<Block>, hi: nat)
    requires hi <= |lines| && Ordered(blocks, hi)
    ensures |Without(lines, blocks, hi)| == hi - Lengths(blocks)
    decreases |blocks|
  {
    if blocks == [] {
      WithoutBeyond(lines, blocks, 0, hi);
    } else {
      var n := |blocks| - 1;
      var last := blocks[n];
      assert blocks == blocks[..n] + [last];
      WithoutLength(lines, blocks[..n], last.start);
      SpliceIsDeletion(lines, blocks[..n], last, hi);
    }
  }

  lemma NotInEarlier(blocks: seq<Block>, start: nat, i: nat)
    requires Ordered(blocks, start) && start <= i
    ensures !InSome(blocks, i)
  {
    if j :| 0 <= j < |blocks| && blocks[j].start <= i < blocks[j].end {
      OrderedBelow(blocks, start, j);
    }
  }

  /** Deleting one more block, the lines before it stay and the lines after it close up. */
  lemma SpliceIsDeletion(lines: seq<string>, blocks: seq<Block>, last: Block, hi: nat)
    requires last.start < last.end <= hi <= |lines| && Ordered(blocks, last.start)
    ensures Without(lines, blocks, hi) == Without(lines, blocks, last.start) + lines[last.start..hi]
    ensures Without(lines, blocks + [last], hi) == Without(lines, blocks, last.start) + lines[last.end..hi]
  {
    forall i: nat | last.start <= i ensures !InSome(blocks, i) {
      NotInEarlier(blocks, last.start, i);
    }
    forall i: nat ensures InSome(blocks + [last], i) <==> InSome(blocks, i) || last.start <= i < last.end {
      InSomeOfTwo(blocks, last, i);
    }
    WithoutBeyond(lines, blocks, last.start, hi);
    WithoutBeyond(lines, blocks + [last], last.end, hi);
    WithoutInside(lines, blocks + [last], last.start, last.end);
    WithoutLater(lines, blocks, last, last.start);
  }

  /** So splicing at the running offset deletes exactly the next block. */
  lemma SpliceStep(lines: seq<string>, blocks: seq<Block>, last: Block)
    requires last.start < last.end <= |lines| && Ordered(blocks, last.start)
    ensures var before := Without(lines, blocks, |lines|);
            var start := last.start - Lengths(blocks);
            && 0 <= start && start + (last.end - last.start) <= |before|
            && before[..start] + before[start + (last.end - last.start)..] == Without(lines, blocks + [last], |lines|)
  {
    WithoutLength(lines, blocks, last.start);
    SpliceIsDeletion(lines, blocks, last, |lines|);
    var front := Without(lines, blocks, last.start);
    assert Without(lines, blocks, |lines|) == front + lines[last.start..|lines|];
    assert lines[last.start..|lines|][last.end - last.start..] == lines[last.end..|lines|];
  }

  // ---- Trimming as it runs ----

  method FindSections(lines: seq<string>) returns (sections: seq<Block>)
    ensures sections == Sections(lines, |lines|)
  {
    sections := [];
    for i := 0 to |lines|
      invariant sections == Sections(lines, i)
    {
      if IsAuto(lines[i]) {
        var end := i + 1;
        while end < |lines| && !IsHeading(lines[end])
          invariant i + 1 <= end <= |lines|
          invariant BlockEnd(lines, end) == BlockEnd(lines, i + 1)
        {
          end := end + 1;
        }
        sections := sections + [Block(i, end)];
      }
    }
  }

  lemma {:induction false} PrefixIsOrdered(blocks: seq<Block>, hi: nat, k: nat)
    requires Ordered(blocks, hi) && k < |blocks|
    ensures Ordered(blocks[..k], blocks[k].start) && blocks[k].start < blocks[k].end <= hi
  {
    var n := |blocks| - 1;
    if k < n {
      PrefixIsOrdered(blocks[..n], blocks[n].start, k);
      assert blocks[..n][..k] == blocks[..k];
    }
  }

  /** The file without its first `k` auto-extracted blocks. */
  function Trimmed(lines: seq<string>, k: nat): seq<string>
    requires k <= |Sections(lines, |lines|)|
  {
    Without(lines, Sections(lines, |lines|)[..k], |lines|)
  }

  lemma NothingTrimmed(lines: seq<string>)
    ensures Trimmed(lines, 0) == lines
  {
    WithoutBeyond(lines, Sections(lines, |lines|)[..0], 0, |lines|);
  }

  lemma OneMoreLength(blocks: seq<Block>, k: nat)
    requires k < |blocks|
    ensures blocks[..k + 1] == blocks[..k] + [blocks[k]]
    ensures Lengths(blocks[..k + 1]) == Lengths(blocks[..k]) + blocks[k].end - blocks[k].start
  {
    assert blocks[..k + 1][..k] == blocks[..k];
  }

  lemma OneMoreTrimmed(lines: seq<string>, k: nat)
    requires k < |Sections(lines, |lines|)|
    ensures var blocks := Sections(lines, |lines|);
            var start, length := blocks[k].start - Lengths(blocks[..k]), blocks[k].end - blocks[k].start;
            && length > 0 && 0 <= start && start + length <= |Trimmed(lines, k)|
            && Trimmed(lines, k)[..start] + Trimmed(lines, k)[start + length..] == Trimmed(lines, k + 1)
            && Lengths(blocks[..k + 1]) == Lengths(blocks[..k]) + length
  {
    var blocks := Sections(lines, |lines|);
    SectionsAreOrdered(lines, |lines|, |lines|);
    PrefixIsOrdered(blocks, |lines|, k);
    OneMoreLength(blocks, k);
    SpliceStep(lines, blocks[..k], blocks[k]);
  }

  /** `k` blocks are just enough: the least number that brings the file to 200 lines, or all of them. */
  predicate JustEnough(lines: seq<string>, k: nat) {
    && k <= |Sections(lines, |lines|)|
    && (k < |Sections(lines, |lines|)| ==> |Trimmed(lines, k)| <= MAX_LINES)
    && forall j :: 0 <= j < k ==> |Trimmed(lines, j)| > MAX_LINES
  }

  /** Trimming deletes the first k auto-extracted blocks from the original lines, for the k that is just enough;
      every other line survives, in order. */
  method TrimMemoryMd(lines: seq<string>) returns (result: seq<string>)
    ensures exists k: nat :: JustEnough(lines, k) && result == Trimmed(lines, k)
  {
    var sections := FindSections(lines);
    result := lines;
    var removed := 0;
    var i: nat := 0;
    NothingTrimmed(lines);
    while i < |sections| && |result| > MAX_LINES
      invariant 0 <= i <= |sections|
      invariant result == Trimmed(lines, i)
      invariant removed == Lengths(sections[..i])
      invariant forall j :: 0 <= j < i ==> |Trimmed(lines, j)| > MAX_LINES
    {
      OneMoreTrimmed(lines, i);
      var section := sections[i];
      var adjustedStart := section.start - removed;
      var adjustedLength := section.end - section.start;
      result := result[..adjustedStart] + result[adjustedStart + adjustedLength..];
      removed := removed + adjustedLength;
      i := i + 1;
    }
    assert JustEnough(lines, i);
  }

  /** Only one number of blocks is just enough. */
  lemma JustEnoughIsUnique(lines: seq<string>, j: nat, k: nat)
    requires JustEnough(lines, j) && JustEnough(lines, k)
    ensures j == k
  {
    assert forall i: nat :: i < k ==> |Trimmed(lines, i)| > MAX_LINES;
    assert forall i: nat :: i < j ==> |Trimmed(lines, i)| > MAX_LINES;
  }

  /** Line `i` is the auto heading at `h`, or follows it with no heading between. */
  predicate Under(lines: seq<string>, h: nat, i: nat)
    requires h <= i < |lines|
  {
    IsAuto(lines[h]) && forall m :: h < m <= i ==> !IsHeading(lines[m])
  }

  /** What may go is exactly the text under auto headings, up to the next heading of two or three hashes. */
  lemma {:induction false} OnlyAutoTextIsRemoved(lines: seq<string>, n: nat, i: nat)
    requires n <= |lines| && i < |lines|
    ensures InSome(Sections(lines, n), i) <==> exists h :: 0 <= h <= i && h < n && Under(lines, h, i)
  {
    if n > 0 {
      OnlyAutoTextIsRemoved(lines, n - 1, i);
      if IsAuto(lines[n - 1]) {
        InSomeOfTwo(Sections(lines, n - 1), Block(n - 1, BlockEnd(lines, n)), i);
        assert n - 1 <= i < BlockEnd(lines, n) ==> Under(lines, n - 1, i);
      } else {
        assert Sections(lines, n) == Sections(lines, n - 1);
      }
    }
  }

  /** The blocks never overlap. */
  lemma BlocksAreDisjoint(lines: seq<string>, j: nat, k: nat)
    requires j < k < |Sections(lines, |lines|)|
    ensures var blocks := Sections(lines, |lines|);
            blocks[j].start < blocks[j].end <= blocks[k].start < blocks[k].end <= |lines|
  {
    var blocks := Sections(lines, |lines|);
    SectionsAreOrdered(lines, |lines|, |lines|);
    PrefixIsOrdered(blocks, |lines|, k);
    OrderedBelow(blocks[..k], blocks[k].start, j);
  }

  /** A heading of one hash, or of more than three. */
  predicate IsOtherHeading(line: string) {
    var s := TrimStart(line);
    || (|s| >= 2 && s[0] == '#' && IsSpace(s[1]))
    || (|s| >= 4 && s[0] == '#' && s[1] == '#' && s[2] == '#' && s[3] == '#')
  }

  lemma OtherHeadingIsNone(line: string)
    requires IsOtherHeading(line)
    ensures !IsHeading(line)
  {
    assert !IsSpace('#') && "##"[1] == '#';
  }

  /** So hand-written text is not safe there: such a heading ends no block, which runs on past it. */
  lemma OtherHeadingsEndNoBlock(lines: seq<string>, j: nat)
    requires j < |lines| && IsOtherHeading(lines[j])
    ensures BlockEnd(lines, j) == BlockEnd(lines, j + 1) > j
  {
    OtherHeadingIsNone(lines[j]);
  }

  /** A line of two or three hashes and white space ends a block there, whatever comes before them. */
  lemma HeadingsEndBlocks(lines: seq<string>, j: nat)
    requires j < |lines|
    requires var s := TrimStart(lines[j]);
             || (|s| > 2 && s[0] == '#' && s[1] == '#' && IsSpace(s[2]))
             || (|s| > 3 && s[0] == '#' && s[1] == '#' && s[2] == '#' && IsSpace(s[3]))
    ensures BlockEnd(lines, j) == j
  {
    var s := TrimStart(lines[j]);
    assert |s| > 2 && s[0] == '#' && s[1] == '#';
  }

  /** What is looked at is the line from its first character that is no white space. */
  lemma {:induction false} TrimStartExactly(s: string) returns (k: nat)
    ensures k <= |s| && TrimStart(s) == s[k..]
    ensures forall i :: 0 <= i < k ==> IsSpace(s[i])
    ensures k < |s| ==> !IsSpace(s[k])
  {
    k := 0;
    if s != "" && IsSpace(s[0]) {
      k := TrimStartExactly(s[1..]);
      assert s[1..][k..] == s[k + 1..];
      assert forall i :: 1 <= i < k + 1 ==> s[i] == s[1..][i - 1];
      assert k < |s[1..]| ==> s[k + 1] == s[1..][k];
      k := k + 1;
    }
  }

  /** An auto heading may be indented. */
  lemma {:induction false} IndentedAutoIsAuto(indent: string, rest: string)
    requires forall i :: 0 <= i < |indent| ==> IsSpace(indent[i])
    ensures IsAuto(indent + (AUTO_HEADING + rest))
  {
    var line := indent + (AUTO_HEADING + rest);
    if indent == "" {
      assert line == AUTO_HEADING + rest && line[0] == AUTO_HEADING[0] == '#';
      assert TrimStart(line) == line;
    } else {
      assert line[1..] == indent[1..] + (AUTO_HEADING + rest);
      IndentedAutoIsAuto(indent[1..], rest);
    }
  }
}

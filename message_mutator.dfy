/** The sender's anti-duplicate message mutator (`msg_with_line_end_spaces`): every five
    consecutive sends share one variant of the base message, which differs from it by a run
    of invisible full-width spaces at the end of one line. */
module MessageMutator {
  import opened PyText

  /** Consecutive send numbers that share one variant. */
  const GroupSize: int := 5
  /** The site's longest accepted message. */
  const MaxLength: nat := 500
  /** U+3000 IDEOGRAPHIC SPACE, the invisible marker. */
  const FullwidthSpace: char := '\U{3000}'

  /** `send_index // 5`. Python floors; for a positive divisor Dafny's `/` does the same. */
  function Block(sendIndex: int): int
  {
    sendIndex / GroupSize
  }

  /** `block % line_count`: the line that receives the markers. */
  function TargetLine(block: int, lineCount: nat): nat
    requires lineCount >= 1
  {
    block % lineCount
  }

  /** `1 + block // line_count`: how many markers it receives. */
  function MarkerCount(block: int, lineCount: nat): int
    requires lineCount >= 1
  {
    1 + block / lineCount
  }

  /** The lines with the markers of `block` appended to the target line (the local copy
      that the source updates in one slot). */
  function MarkLines(lines: seq<string>, block: int): seq<string>
    requires |lines| >= 1
  {
    var t := TargetLine(block, |lines|);
    lines[t := lines[t] + Repeat(FullwidthSpace, MarkerCount(block, |lines|))]
  }

  /** The variant before the cut to `MaxLength`: split at "\n", mark, join with "\n". */
  function MarkedMessage(base: string, sendIndex: int): string
  {
    JoinWith("\n", MarkLines(SplitOn(base, '\n'), Block(sendIndex)))
  }

  /** `msg_with_line_end_spaces(base_message, send_index)`: the marked variant cut to its
      first `MaxLength` characters; it is the whole variant whenever that fits. */
  function MsgWithLineEndSpaces(base: string, sendIndex: int): string
  {
    Take(MarkedMessage(base, sendIndex), MaxLength)
  }

  /** The message is a prefix of the marked variant, at most `MaxLength` long, and the whole
      variant whenever that fits. */
  lemma MessageIsCutVariant(base: string, sendIndex: int)
    ensures var r := MsgWithLineEndSpaces(base, sendIndex);
            var v := MarkedMessage(base, sendIndex);
            |r| <= MaxLength && |r| <= |v| && r == v[..|r|] && (|v| <= MaxLength ==> r == v)
  {
  }

  /** Send numbers in the same group of five get the same message. */
  lemma SameBlockSameMessage(base: string, n: int, m: int)
    requires Block(n) == Block(m)
    ensures MsgWithLineEndSpaces(base, n) == MsgWithLineEndSpaces(base, m)
  {
  }

  /** Marking and joining lines that hold no "\n" is undone by splitting at "\n": the line
      count is kept, every line but the target is unchanged, and the target line is the
      original followed by exactly `MarkerCount` markers (none when that count is not
      positive). */
  lemma MarkedLinesShape(lines: seq<string>, block: int)
    requires |lines| >= 1
    requires forall k :: 0 <= k < |lines| ==> '\n' !in lines[k]
    ensures var out := SplitOn(JoinWith("\n", MarkLines(lines, block)), '\n');
            var t := TargetLine(block, |lines|);
            |out| == |lines| &&
            (forall k :: 0 <= k < |lines| && k != t ==> out[k] == lines[k]) &&
            out[t] == lines[t] + Repeat(FullwidthSpace, MarkerCount(block, |lines|))
  {
    var marked := MarkLines(lines, block);
    var t := TargetLine(block, |lines|);
    var extra := Repeat(FullwidthSpace, MarkerCount(block, |lines|));
    assert '\n' !in extra;
    assert '\n' !in lines[t] + extra;
    assert forall k :: 0 <= k < |marked| ==> '\n' !in marked[k];
    SplitOnJoin(marked, '\n');
  }

  /** Before the cut, the sender's variant has the base message's lines, each unchanged
      except line `(n // 5) % L`, which gains exactly `1 + (n // 5) // L` markers (`L` being
      the line count). */
  lemma MessageShape(base: string, n: int)
    requires n >= 0
    ensures var lines := SplitOn(base, '\n');
            var out := SplitOn(MarkedMessage(base, n), '\n');
            var t := TargetLine(Block(n), |lines|);
            |out| == |lines| &&
            (forall k :: 0 <= k < |lines| && k != t ==> out[k] == lines[k]) &&
            out[t] == lines[t] + Repeat(FullwidthSpace, MarkerCount(Block(n), |lines|)) &&
            |out[t]| == |lines[t]| + MarkerCount(Block(n), |lines|) &&
            MarkerCount(Block(n), |lines|) >= 1
  {
    var lines := SplitOn(base, '\n');
    MarkedLinesShape(lines, Block(n));
    MarkerCountPositive(Block(n), |lines|);
  }

  /** A group with a non-negative number gets at least one marker. */
  lemma MarkerCountPositive(block: int, lineCount: nat)
    requires lineCount >= 1 && block >= 0
    ensures MarkerCount(block, lineCount) >= 1
  {
  }

  /** Different groups get different marker placements. */
  lemma BlockPlacementInjective(b1: int, b2: int, lineCount: nat)
    requires lineCount >= 1 && b1 >= 0 && b2 >= 0 && b1 != b2
    ensures TargetLine(b1, lineCount) != TargetLine(b2, lineCount) ||
            MarkerCount(b1, lineCount) != MarkerCount(b2, lineCount)
  {
    assert b1 == lineCount * (b1 / lineCount) + b1 % lineCount;
    assert b2 == lineCount * (b2 / lineCount) + b2 % lineCount;
  }

  /** Marking the same "\n"-free lines for two different groups gives different texts. */
  lemma DistinctBlocksDistinctLines(lines: seq<string>, b1: int, b2: int)
    requires |lines| >= 1 && b1 >= 0 && b2 >= 0 && b1 != b2
    requires forall k :: 0 <= k < |lines| ==> '\n' !in lines[k]
    ensures JoinWith("\n", MarkLines(lines, b1)) != JoinWith("\n", MarkLines(lines, b2))
  {
    var L := |lines|;
    var t1, t2 := TargetLine(b1, L), TargetLine(b2, L);
    var c1, c2 := MarkerCount(b1, L), MarkerCount(b2, L);
    var out1 := SplitOn(JoinWith("\n", MarkLines(lines, b1)), '\n');
    var out2 := SplitOn(JoinWith("\n", MarkLines(lines, b2)), '\n');
    BlockPlacementInjective(b1, b2, L);
    MarkerCountPositive(b1, L);
    MarkerCountPositive(b2, L);
    MarkedLinesShape(lines, b1);
    MarkedLinesShape(lines, b2);
    var r1 := Repeat(FullwidthSpace, c1);
    assert |r1| == c1;
    assert out1[t1] == lines[t1] + r1;
    assert |out1[t1]| == |lines[t1]| + c1;
    if t1 != t2 {
      assert out2[t1] == lines[t1];
    } else {
      var r2 := Repeat(FullwidthSpace, c2);
      assert |r2| == c2;
      assert out2[t1] == lines[t1] + r2;
    }
    assert out1[t1] != out2[t1];
  }

  /** So two send numbers in different groups give different variants before the cut. */
  lemma DistinctBlocksDistinctMessages(base: string, n: int, m: int)
    requires n >= 0 && m >= 0 && Block(n) != Block(m)
    ensures MarkedMessage(base, n) != MarkedMessage(base, m)
  {
    DistinctBlocksDistinctLines(SplitOn(base, '\n'), Block(n), Block(m));
  }

  /** The end-to-end case of a three-recipient run over "hello\nworld": send numbers 0 to 4
      all get one marker at the end of the first line. */
  lemma HelloWorldFirstGroup(n: int)
    requires 0 <= n < 5
    ensures MsgWithLineEndSpaces("hello\nworld", n) == "hello\U{3000}\nworld"
  {
    FirstGroupMarksFirstLine("hello", "world", n);
    assert "hello" + "\n" + "world" == "hello\nworld";
    assert "hello" + [FullwidthSpace] + "\n" + "world" == "hello\U{3000}\nworld";
    MessageIsCutVariant("hello\nworld", n);
  }

  /** In a two-line message, the first five sends put one marker at the end of the first
      line. */
  lemma FirstGroupMarksFirstLine(a: string, b: string, n: int)
    requires '\n' !in a && '\n' !in b && 0 <= n < 5
    ensures MarkedMessage(a + "\n" + b, n) == a + [FullwidthSpace] + "\n" + b
  {
    JoinTwo(a, b);
    SplitOnJoin([a, b], '\n');
    assert Block(n) == 0;
    assert Repeat(FullwidthSpace, 1) == [FullwidthSpace];
    assert MarkLines([a, b], 0) == [a + [FullwidthSpace], b];
    JoinTwo(a + [FullwidthSpace], b);
  }

  /** Two lines joined are the first, the separator and the second. */
  lemma JoinTwo(a: string, b: string)
    ensures JoinWith("\n", [a, b]) == a + "\n" + b
  {
    assert [a, b][1..] == [b];
  }

  /** When the base message already has `MaxLength` characters on one line, the cut removes
      the marker again: the variant equals the base and groups are no longer told apart. */
  lemma FullLengthLosesMarker(base: string, n: int)
    requires |base| == MaxLength && '\n' !in base && n >= 0
    ensures MsgWithLineEndSpaces(base, n) == base
  {
    SplitOnGlue(base, [], '\n');
    assert base + [] == base;
    assert SplitOn(base, '\n') == [base];
    var marked := MarkLines([base], Block(n));
    assert marked == [base + Repeat(FullwidthSpace, MarkerCount(Block(n), 1))];
    assert (base + Repeat(FullwidthSpace, MarkerCount(Block(n), 1)))[..MaxLength] == base;
  }
}

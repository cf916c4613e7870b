/** The dashboard's preview of the messages a run will send (`build_messages_with_endspaces`):
    the same group-of-five marker scheme as the sender, but over Python's `splitlines`
    instead of a split at "\n". */
module MessagePreview {
  import opened PyText
  import opened MessageMutator

  /** `base_msg.splitlines() or [base_msg]`: never empty, and no line holds a "\n". */
  function PreviewLines(base: string): (lines: seq<string>)
    ensures |lines| >= 1
    ensures forall k :: 0 <= k < |lines| ==> '\n' !in lines[k]
    ensures base == [] ==> lines == [[]]
  {
    var split := SplitLines(base);
    assert forall k :: 0 <= k < |split| ==> NoLineBoundary(split[k]);
    if split != [] then split else [base]
  }

  /** The `i`-th previewed message: mark the preview lines for group `i // 5`, join with
      "\n" and keep at most the first `MaxLength` characters. */
  function PreviewMessage(base: string, i: int): string
  {
    Take(JoinWith("\n", MarkLines(PreviewLines(base), Block(i))), MaxLength)
  }

  /** `build_messages_with_endspaces(base_msg, n)`: one message per index `0 .. n-1`
      (none when `n` is not positive), the `i`-th being the `i`-th previewed message. */
  method BuildMessagesWithEndspaces(base: string, n: int) returns (out: seq<string>)
    ensures |out| == if n > 0 then n else 0
    ensures forall i :: 0 <= i < |out| ==> out[i] == PreviewMessage(base, i)
    ensures forall i :: 0 <= i < |out| ==> |out[i]| <= MaxLength
  {
    var lines := PreviewLines(base);
    out := [];
    var i := 0;
    while i < n
      invariant 0 <= i && |out| == i
      invariant i <= if n > 0 then n else 0
      invariant forall k :: 0 <= k < i ==> out[k] == PreviewMessage(base, k)
      invariant forall k :: 0 <= k < i ==> |out[k]| <= MaxLength
    {
      var mutated := MarkEachLine(lines, i / 5);
      var msg := JoinWith("\n", mutated);
      if |msg| > MaxLength {
        msg := msg[..MaxLength];
      }
      assert msg == PreviewMessage(base, i);
      out := out + [msg];
      i := i + 1;
    }
  }

  /** The inner pass of `build_messages_with_endspaces`: copy the lines, appending
      `1 + g // L` markers to line `g % L` (`L` being the line count). */
  method MarkEachLine(lines: seq<string>, g: int) returns (mutated: seq<string>)
    requires |lines| >= 1
    ensures mutated == MarkLines(lines, g)
  {
    var lineCount := |lines|;
    var target := g % lineCount;
    var count := g / lineCount + 1;
    mutated := [];
    var j := 0;
    while j < lineCount
      invariant 0 <= j <= lineCount
      invariant mutated == MarkLines(lines, g)[..j]
    {
      if j == target {
        mutated := mutated + [lines[j] + Repeat(FullwidthSpace, count)];
      } else {
        mutated := mutated + [lines[j]];
      }
      j := j + 1;
    }
  }

  /** Before the cut, the preview for index `i` has the preview lines, each unchanged except
      line `(i // 5) % L`, which gains exactly `1 + (i // 5) // L` markers (`L` being the
      number of preview lines, at least one even for an empty message); the preview itself
      is that text cut to `MaxLength`. */
  lemma PreviewShape(base: string, i: int)
    requires i >= 0
    ensures var lines := PreviewLines(base);
            var marked := JoinWith("\n", MarkLines(lines, Block(i)));
            var out := SplitOn(marked, '\n');
            var t := TargetLine(Block(i), |lines|);
            PreviewMessage(base, i) == Take(marked, MaxLength) &&
            |out| == |lines| &&
            (forall k :: 0 <= k < |lines| && k != t ==> out[k] == lines[k]) &&
            out[t] == lines[t] + Repeat(FullwidthSpace, MarkerCount(Block(i), |lines|)) &&
            MarkerCount(Block(i), |lines|) >= 1
  {
    var lines := PreviewLines(base);
    MarkedLinesShape(lines, Block(i));
    MarkerCountPositive(Block(i), |lines|);
  }

  /** Indices in the same group of five get the same preview. */
  lemma PreviewSameBlock(base: string, i: int, j: int)
    requires Block(i) == Block(j)
    ensures PreviewMessage(base, i) == PreviewMessage(base, j)
  {
  }

  /** The preview of an empty message is the marker run alone, one marker longer per group. */
  lemma PreviewOfEmpty(i: int)
    requires i >= 0
    ensures PreviewMessage([], i) == Take(Repeat(FullwidthSpace, 1 + i / 5), MaxLength)
  {
    assert PreviewLines([]) == [[]];
    var marked := MarkLines([[]], Block(i));
    assert marked == [[] + Repeat(FullwidthSpace, 1 + i / 5)];
    assert [] + Repeat(FullwidthSpace, 1 + i / 5) == Repeat(FullwidthSpace, 1 + i / 5);
  }

  /** When "\n" is the only line boundary in the message and it does not end with one, the
      preview shows exactly what the sender sends for that index. */
  lemma PreviewAgreesWithSender(base: string, i: int)
    requires PlainLines(base)
    ensures PreviewMessage(base, i) == MsgWithLineEndSpaces(base, i)
  {
    if base == [] {
      assert SplitOn(base, '\n') == [[]];
    } else {
      SplitLinesAgree(base);
    }
  }

  /** A trailing "\n" makes the two diverge: `splitlines` drops the empty last line, the
      sender's split keeps it, so the sent message ends with "\n" and the preview does not. */
  lemma PreviewDropsTrailingNewline()
    ensures PreviewMessage("a\n", 0) == "a\U{3000}"
    ensures MsgWithLineEndSpaces("a\n", 0) == "a\U{3000}\n"
  {
    PreviewOfTrailingNewline();
    SenderOfTrailingNewline();
  }

  /** The preview side of the trailing-"\n" case. */
  lemma PreviewOfTrailingNewline()
    ensures PreviewMessage("a\n", 0) == "a\U{3000}"
  {
    assert LineLength("a\n") == 1;
    SplitLinesFirst("a\n", 1, 1);
    assert "a\n"[..1] == "a" && "a\n"[2..] == [];
    assert PreviewLines("a\n") == ["a"];
    MarkFirstOfOne();
  }

  /** The first group marks the only line with one marker. */
  lemma MarkFirstOfOne()
    ensures MarkLines(["a"], 0) == ["a\U{3000}"]
  {
    assert Repeat(FullwidthSpace, 1) == [FullwidthSpace];
    assert "a" + [FullwidthSpace] == "a\U{3000}";
  }

  /** The sender side of the trailing-"\n" case: the empty last line stays. */
  lemma SenderOfTrailingNewline()
    ensures MsgWithLineEndSpaces("a\n", 0) == "a\U{3000}\n"
  {
    FirstGroupMarksFirstLine("a", "", 0);
    assert "a" + "\n" + "" == "a\n";
    assert "a" + [FullwidthSpace] + "\n" + "" == "a\U{3000}\n";
    MessageIsCutVariant("a\n", 0);
  }

  /** A "\r\n" line end makes them diverge too: the sender keeps the "\r" and puts the
      marker after it, the preview drops it. */
  lemma PreviewDropsCarriageReturn()
    ensures PreviewMessage("a\r\nb", 0) == "a\U{3000}\nb"
    ensures MsgWithLineEndSpaces("a\r\nb", 0) == "a\r\U{3000}\nb"
  {
    PreviewOfCarriageReturn();
    SenderOfCarriageReturn();
  }

  /** The preview side of the "\r\n" case. */
  lemma PreviewOfCarriageReturn()
    ensures PreviewMessage("a\r\nb", 0) == "a\U{3000}\nb"
  {
    CarriageReturnPreviewLines();
    PreviewFirstGroupTwoLines("a\r\nb", "a", "b", 0);
    assert "a" + [FullwidthSpace] + "\n" + "b" == "a\U{3000}\nb";
  }

  /** `splitlines` ends the first line at the "\r\n" and drops both characters. */
  lemma CarriageReturnPreviewLines()
    ensures PreviewLines("a\r\nb") == ["a", "b"]
  {
    assert LineLength("a\r\nb") == 1;
    assert LineLength("b") == 1;
    assert "a\r\nb"[..1] == "a" && "a\r\nb"[3..] == "b";
    assert SplitLines("b") == ["b"];
  }

  /** For a preview of two lines, the first five indices put one marker at the end of the
      first line. */
  lemma PreviewFirstGroupTwoLines(base: string, a: string, b: string, n: int)
    requires PreviewLines(base) == [a, b] && 0 <= n < 5 && |a| + |b| + 2 <= MaxLength
    ensures PreviewMessage(base, n) == a + [FullwidthSpace] + "\n" + b
  {
    assert Block(n) == 0;
    assert Repeat(FullwidthSpace, 1) == [FullwidthSpace];
    assert MarkLines([a, b], 0) == [a + [FullwidthSpace], b];
    JoinTwo(a + [FullwidthSpace], b);
  }

  /** The sender side of the "\r\n" case: the "\r" stays at the end of the first line. */
  lemma SenderOfCarriageReturn()
    ensures MsgWithLineEndSpaces("a\r\nb", 0) == "a\r\U{3000}\nb"
  {
    FirstGroupMarksFirstLine("a\r", "b", 0);
    assert "a\r" + "\n" + "b" == "a\r\nb";
    assert "a\r" + [FullwidthSpace] + "\n" + "b" == "a\r\U{3000}\nb";
    MessageIsCutVariant("a\r\nb", 0);
  }
}

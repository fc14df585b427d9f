/** A gap buffer of characters: one sequence of cells holding the left content,
    then a gap of unused cells, then the right content. Edits happen at the
    gap, and the gap is moved to the edit point one cell at a time. */
module GapBuffers {
  import opened GapLayout

  /** The number of cells in one gap page. */
  const GapSize: nat := 1024

  /** One page of placeholder cells. */
  const GapPage: seq<char> := Placeholders(GapSize)

  class GapBuffer {
    var buffer: seq<char>
    var gapStart: nat
    var gapLen: nat

    /** The representation invariant: the gap lies inside the buffer and every
        gap cell holds the placeholder. */
    ghost predicate Valid()
      reads this
    {
      gapStart + gapLen <= |buffer| && GapFilled(buffer, gapStart, gapLen)
    }

    /** The document: the cells left of the gap followed by those right of it. */
    function Content(): (c: seq<char>)
      reads this
      requires gapStart + gapLen <= |buffer|
      ensures |c| == |buffer| - gapLen
    {
      Logical(buffer, gapStart, gapLen)
    }

    /** A buffer holding `data`, with one gap page in front of it. */
    constructor From(data: seq<char>)
      ensures Valid()
      ensures buffer == GapPage + data && |buffer| == GapSize + |data|
      ensures gapStart == 0 && gapLen == GapSize
      ensures Content() == data
    {
      buffer := GapPage + data;
      gapStart := 0;
      gapLen := GapSize;
      new;
      assert buffer[gapLen..] == data;
    }

    /** Moves the gap so that it starts at `cursor`, without changing the
        document. With a zero-length gap only the gap position is reassigned;
        otherwise the gap is shifted left, then right, one cell at a time. */
    method MoveGap(cursor: nat)
      requires Valid()
      requires 1 <= gapStart + gapLen         // `gap_start + gap_len - 1` must not underflow
      requires cursor + gapLen <= |buffer|    // the cells read while moving right exist
      modifies this
      ensures Valid()
      ensures gapStart == cursor && gapLen == old(gapLen) && |buffer| == old(|buffer|)
      ensures Content() == old(Content())
      ensures buffer == Layout(old(Content()), cursor, gapLen)
      ensures buffer == MoveGapSteps(old(buffer), old(gapStart), gapLen, cursor)
      ensures old(gapLen) == 0 ==> buffer == old(buffer)
      ensures cursor == old(gapStart) ==> buffer == old(buffer)
    {
      LayoutOfLogical(buffer, gapStart, gapLen);
      MoveGapStepsLayout(Content(), gapStart, gapLen, cursor);
      var gapRight: nat := gapStart + gapLen - 1;

      if gapLen == 0 {
        EmptyGapLogical(buffer, gapStart);
        gapStart := cursor;
        EmptyGapLogical(buffer, gapStart);
        LayoutOfLogical(buffer, gapStart, gapLen);
        return;
      }

      gapRight := MoveLeft(cursor, gapRight);
      gapRight := MoveRight(cursor, gapRight);
      LayoutOfLogical(buffer, gapStart, gapLen);
    }

    /** The first loop of MoveGap: while the gap starts right of `cursor`, the
        cell just left of the gap moves into the gap's last cell. `gapRight` is
        the index of the gap's last cell, before and after. */
    method MoveLeft(cursor: nat, gapRight0: nat) returns (gapRight: nat)
      requires Valid() && 0 < gapLen && gapRight0 + 1 == gapStart + gapLen
      modifies this
      ensures Valid() && gapLen == old(gapLen) && |buffer| == old(|buffer|)
      ensures gapStart == if cursor < old(gapStart) then cursor else old(gapStart)
      ensures gapRight + 1 == gapStart + gapLen
      ensures Content() == old(Content())
    {
      ghost var content := Content();
      LayoutOfLogical(buffer, gapStart, gapLen);
      gapRight := gapRight0;
      while cursor < gapStart
        invariant gapLen == old(gapLen)
        invariant cursor <= gapStart || gapStart == old(gapStart)
        invariant gapStart <= old(gapStart)
        invariant gapRight + 1 == gapStart + gapLen
        invariant buffer == Layout(content, gapStart, gapLen)
        decreases gapStart
      {
        ghost var before := buffer;
        gapStart := gapStart - 1;
        gapRight := gapRight - 1;
        buffer := buffer[gapRight + 1 := buffer[gapStart]];
        buffer := buffer[gapStart := Placeholder];
        assert buffer == ShiftLeft(before, gapStart + 1, gapLen);
        ShiftLeftLayout(content, gapStart + 1, gapLen);
      }
      LogicalOfLayout(content, gapStart, gapLen);
    }

    /** The second loop of MoveGap: while the gap starts left of `cursor`, the
        cell just right of the gap moves into the gap's first cell. */
    method MoveRight(cursor: nat, gapRight0: nat) returns (gapRight: nat)
      requires Valid() && 0 < gapLen && gapRight0 + 1 == gapStart + gapLen
      requires cursor + gapLen <= |buffer|
      modifies this
      ensures Valid() && gapLen == old(gapLen) && |buffer| == old(|buffer|)
      ensures gapStart == if old(gapStart) < cursor then cursor else old(gapStart)
      ensures gapRight + 1 == gapStart + gapLen
      ensures Content() == old(Content())
    {
      ghost var content := Content();
      LayoutOfLogical(buffer, gapStart, gapLen);
      gapRight := gapRight0;
      while cursor > gapStart
        invariant gapLen == old(gapLen)
        invariant cursor >= gapStart || gapStart == old(gapStart)
        invariant gapStart >= old(gapStart)
        invariant gapRight + 1 == gapStart + gapLen
        invariant buffer == Layout(content, gapStart, gapLen)
        decreases cursor - gapStart
      {
        ghost var before := buffer;
        gapStart := gapStart + 1;
        gapRight := gapRight + 1;
        buffer := buffer[gapStart - 1 := buffer[gapRight]];
        buffer := buffer[gapRight := Placeholder];
        assert buffer == ShiftRight(before, gapStart - 1, gapLen);
        ShiftRightLayout(content, gapStart - 1, gapLen);
      }
      LogicalOfLayout(content, gapStart, gapLen);
    }

    /** Replaces the gap by a fresh one of a whole number of pages, enough to
        hold `inputSize` cells, rebuilding the buffer around it. */
    method Grow(inputSize: nat)
      requires gapStart + gapLen <= |buffer|  // the slices around the old gap exist
      modifies this
      ensures Valid()
      ensures gapStart == old(gapStart)
      ensures gapLen == GrownGap(inputSize, GapSize) && inputSize < gapLen
      ensures |buffer| == old(|buffer|) - old(gapLen) + gapLen
      ensures buffer == old(buffer[..gapStart]) + Placeholders(gapLen) + old(buffer[gapStart + gapLen..])
      ensures Content() == old(Content())
    {
      var numberOfNewPages := inputSize / GapSize + inputSize % GapSize + 1;
      var newGapSize := GapSize * numberOfNewPages;
      var gap: seq<char> := [];
      for p := 0 to numberOfNewPages
        invariant buffer == old(buffer) && gapStart == old(gapStart) && gapLen == old(gapLen)
        invariant gap == Pages(GapPage, p)
      {
        gap := gap + GapPage;
      }
      PagesPlaceholders(GapSize, numberOfNewPages);
      RegrowPreserves(buffer, gapStart, gapLen, newGapSize);
      buffer := buffer[..gapStart] + gap + buffer[gapStart + gapLen..];
      gapLen := newGapSize;
      GrowthBounds(inputSize, GapSize);
    }

    /** Writes `input` into the left end of the gap, first growing the gap when
        it is shorter than `input`. */
    method Insert(input: seq<char>)
      requires Valid()
      modifies this
      ensures Valid()
      ensures gapStart == old(gapStart) + |input|
      ensures Content() == old(Content())[..old(gapStart)] + input + old(Content())[old(gapStart)..]
      ensures |input| <= old(gapLen) ==>
        && gapLen == old(gapLen) - |input|
        && buffer == Fill(old(buffer), old(gapStart), input)
      ensures |input| > old(gapLen) ==>
        && gapLen == GrownGap(|input|, GapSize) - |input|
        && |buffer| == old(|buffer|) - old(gapLen) + GrownGap(|input|, GapSize)
    {
      if |input| > gapLen {
        Grow(|input|);
      }
      // Both `if let Some` guards of the source succeed here: the gap slice
      // lies inside the buffer, and it is at least as long as `input`.
      assert gapStart + gapLen <= |buffer| && |input| <= gapLen;
      FillInserts(buffer, gapStart, gapLen, input);
      // The slice swap: `input` takes the place of the first `|input|` gap
      // cells (the gap cells swapped back into `input` are dropped with it).
      buffer := Fill(buffer, gapStart, input);
      gapStart := gapStart + |input|;
      gapLen := gapLen - |input|;
    }

    /** Absorbs the `length` cells right of the gap into it, deleting the
        `length` characters that follow the cursor. */
    method Delete(length: nat)
      requires Valid()
      requires gapStart + gapLen + length <= |buffer|  // the overwritten cells exist
      modifies this
      ensures Valid()
      ensures gapStart == old(gapStart) && gapLen == old(gapLen) + length
      ensures buffer == Absorb(old(buffer), gapStart, old(gapLen), length)
      ensures buffer == Blank(old(buffer), gapStart + old(gapLen), gapStart + gapLen)
      ensures Content() == old(Content())[..gapStart] + old(Content())[gapStart + length..]
    {
      var deleteStart := gapStart + gapLen;
      var deleteEnd := deleteStart + length;
      ghost var before := buffer;
      for i := deleteStart to deleteEnd
        invariant gapStart == old(gapStart) && gapLen == old(gapLen)
        invariant buffer == before[..deleteStart] + Placeholders(i - deleteStart) + before[i..]
      {
        PlaceholdersConcat(i - deleteStart, 1);
        buffer := buffer[i := Placeholder];
      }
      AbsorbDeletes(before, gapStart, gapLen, length);
      BlankRun(before, deleteStart, deleteEnd);
      gapLen := gapLen + length;
    }
  }
}

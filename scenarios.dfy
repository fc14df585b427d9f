/** Client code driving the gap buffer through the call sequences of the
    repository's tests, a few small insert and delete edits, and an insert
    longer than one gap page, with the outcome of each step asserted from the
    buffer's contracts alone. */
module GapBufferScenarios {
  import opened GapLayout
  import opened GapBuffers

  /** The call sequence of the test `smaller_than_gap_size`: the gap wanders
      over "Hello World" and the document never changes. */
  method SmallerThanGapSize() {
    var data := "Hello World";
    var b := new GapBuffer.From(data);
    b.MoveGap(5);
    b.MoveGap(10);
    b.MoveGap(2);
    b.MoveGap(|data|);
    assert b.Content() == data;
    assert b.gapStart == |data| && b.gapLen == GapSize;
  }

  /** The call sequence of the test `larger_than_gap_size`: the gap goes to the
      front of "Hello darkness, my old friend..." and wanders over it, and the
      document never changes. */
  method LargerThanGapSize() {
    var data := "Hello darkness, my old friend...";
    var b := new GapBuffer.From(data);
    b.MoveGap(0);
    b.MoveGap(5);
    b.MoveGap(10);
    b.MoveGap(2);
    b.MoveGap(|data|);
    assert b.Content() == data;
    assert b.gapStart == |data| && b.gapLen == GapSize;
  }

  /** The pieces the test `moves_inserts_deletes_grows` puts its document
      together from. */
  const Hello := "Hello"
  const Space := " "
  const World := "World"
  const Bang := "!"
  const Comma := ","
  const Dearest := " my dearest"
  const Dan := "Dan"
  const Birthday := "\nToday's my Birthday!"

  /** The call sequence of the test `moves_inserts_deletes_grows`, with the
      document after every edit. */
  method MovesInsertsDeletesGrows() {
    var b := new GapBuffer.From(Hello + Space + World);
    InsertPunctuation(b);
    ReplaceName(b);
    assert b.Content() == Hello + Dearest + Comma + Space + Dan + Bang + Birthday;
  }

  /** The first part of the test: "Hello World" becomes "Hello my dearest, World!". */
  method InsertPunctuation(b: GapBuffer)
    requires b.Valid() && b.gapLen == GapSize && b.Content() == Hello + Space + World
    modifies b
    ensures b.Valid()
    ensures b.gapStart == 16 && b.gapLen == GapSize - 13
    ensures b.Content() == Hello + Dearest + Comma + Space + World + Bang
  {
    b.MoveGap(|b.buffer| - b.gapLen);
    b.Insert(Bang);
    assert b.Content() == Hello + Space + World + Bang;
    b.MoveGap(5);
    b.Insert(Comma);
    assert b.Content() == Hello + Comma + Space + World + Bang by {
      assert (Hello + Space + World + Bang)[..5] == Hello;
      assert (Hello + Space + World + Bang)[5..] == Space + World + Bang;
    }
    b.MoveGap(5);
    b.Insert(Dearest);
    assert b.Content() == Hello + Dearest + Comma + Space + World + Bang by {
      assert (Hello + Comma + Space + World + Bang)[..5] == Hello;
      assert (Hello + Comma + Space + World + Bang)[5..] == Comma + Space + World + Bang;
    }
  }

  /** The second part of the test: "World" is deleted, "Dan" put in its place
      and a second line appended. */
  method ReplaceName(b: GapBuffer)
    requires b.Valid() && b.gapStart == 16 && b.gapLen == GapSize - 13
    requires b.Content() == Hello + Dearest + Comma + Space + World + Bang
    modifies b
    ensures b.Valid()
    ensures b.Content() == Hello + Dearest + Comma + Space + Dan + Bang + Birthday
  {
    b.MoveGap(18);
    b.Delete(5);
    assert b.Content() == Hello + Dearest + Comma + Space + Bang by {
      var c := Hello + Dearest + Comma + Space + World + Bang;
      assert c[..18] == Hello + Dearest + Comma + Space;
      assert c[18 + 5..] == Bang;
    }
    b.Insert(Dan);
    assert b.Content() == Hello + Dearest + Comma + Space + Dan + Bang by {
      var c := Hello + Dearest + Comma + Space + Bang;
      assert c[..18] == Hello + Dearest + Comma + Space;
      assert c[18..] == Bang;
    }
    b.MoveGap(b.gapStart + 1);
    b.Insert(Birthday);
    assert b.Content() == Hello + Dearest + Comma + Space + Dan + Bang + Birthday by {
      var c := Hello + Dearest + Comma + Space + Dan + Bang;
      assert c[..22] == c;
    }
  }

  /** Inserting at a position and deleting a stretch after it. */
  method EditAtCursor() {
    var b := new GapBuffer.From("ab");
    b.MoveGap(1);
    b.Insert("X");
    assert b.Content() == "aXb";
    var c := new GapBuffer.From("hello!");
    c.MoveGap(5);
    c.Delete(1);
    assert c.Content() == "hello";
  }

  /** Moving the gap to the same place twice leaves the same buffer as moving
      it once. */
  method MoveGapTwice(b: GapBuffer, p: nat)
    requires b.Valid() && 0 < b.gapLen && p + b.gapLen <= |b.buffer|
    modifies b
  {
    b.MoveGap(p);
    ghost var once := b.buffer;
    b.MoveGap(p);
    assert b.buffer == once && b.gapStart == p;
  }

  /** An insertion longer than the gap first grows it; the document still
      becomes exactly the inserted text. */
  method InsertBeyondOnePage(s: seq<char>)
    requires |s| > GapSize
  {
    var b := new GapBuffer.From([]);
    b.Insert(s);
    assert b.Content() == s;
    GrowthBounds(|s|, GapSize);
    assert b.gapLen == GrownGap(|s|, GapSize) - |s| > 0;
  }
}

/** The value-level view of a gap buffer: a cell sequence `buf` with a gap of
    `gl` cells starting at `gs`. The document ("logical content") is the cells
    left of the gap followed by the cells right of it; every gap cell holds the
    placeholder. The functions below describe each in-place step of the buffer
    on such sequences, and the lemmas say what each step does to the document. */
module GapLayout {

  /** The value written into every gap cell: a diagnostic marker, never read as content. */
  const Placeholder: char := '_'

  /** A run of `k` placeholder cells. */
  function Placeholders(k: nat): (p: seq<char>)
    ensures |p| == k
    ensures forall i :: 0 <= i < k ==> p[i] == Placeholder
  {
    seq(k, _ => Placeholder)
  }

  lemma PlaceholdersConcat(a: nat, b: nat)
    ensures Placeholders(a) + Placeholders(b) == Placeholders(a + b)
  {
    assert forall i :: 0 <= i < a + b ==> (Placeholders(a) + Placeholders(b))[i] == Placeholder;
  }

  /** The document a buffer represents: left content followed by right content. */
  function Logical(buf: seq<char>, gs: nat, gl: nat): (c: seq<char>)
    requires gs + gl <= |buf|
    ensures |c| == |buf| - gl
  {
    buf[..gs] + buf[gs + gl..]
  }

  /** Character `i` of the document is buffer cell `i` left of the gap and cell
      `i + gl` right of it. */
  lemma LogicalAt(buf: seq<char>, gs: nat, gl: nat, i: nat)
    requires gs + gl <= |buf| && i < |buf| - gl
    ensures Logical(buf, gs, gl)[i] == if i < gs then buf[i] else buf[i + gl]
  {
  }

  /** With a zero-length gap the document is the whole buffer, wherever the gap
      is placed. */
  lemma EmptyGapLogical(buf: seq<char>, gs: nat)
    requires gs <= |buf|
    ensures Logical(buf, gs, 0) == buf
  {
    assert buf[..gs] + buf[gs..] == buf;
  }

  /** Every cell of the gap holds the placeholder. */
  ghost predicate GapFilled(buf: seq<char>, gs: nat, gl: nat)
    requires gs + gl <= |buf|
  {
    forall i :: gs <= i < gs + gl ==> buf[i] == Placeholder
  }

  /** The buffer that holds `content` with a placeholder-filled gap of `gl`
      cells at position `gs`. */
  function Layout(content: seq<char>, gs: nat, gl: nat): (buf: seq<char>)
    requires gs <= |content|
    ensures |buf| == |content| + gl
  {
    content[..gs] + Placeholders(gl) + content[gs..]
  }

  /** Laying content out and reading it back gives the content, and the gap of
      the layout is filled. */
  lemma LogicalOfLayout(content: seq<char>, gs: nat, gl: nat)
    requires gs <= |content|
    ensures Logical(Layout(content, gs, gl), gs, gl) == content
    ensures GapFilled(Layout(content, gs, gl), gs, gl)
  {
    var buf := Layout(content, gs, gl);
    assert buf[..gs] == content[..gs];
    assert buf[gs + gl..] == content[gs..];
  }

  /** A buffer whose gap is filled is determined by its document and its gap:
      the representation holds no other information. */
  lemma LayoutOfLogical(buf: seq<char>, gs: nat, gl: nat)
    requires gs + gl <= |buf|
    requires GapFilled(buf, gs, gl)
    ensures Layout(Logical(buf, gs, gl), gs, gl) == buf
  {
    var c := Logical(buf, gs, gl);
    var r := Layout(c, gs, gl);
    assert |r| == |buf|;
    forall i | 0 <= i < |buf|
      ensures r[i] == buf[i]
    {
      if i < gs {
        LogicalAt(buf, gs, gl, i);
        assert r[i] == c[i];
      } else if i < gs + gl {
        assert r[i] == Placeholder;
      } else {
        LogicalAt(buf, gs, gl, i - gl);
        assert r[i] == c[i - gl];
      }
    }
  }

  /** One step of moving the gap left: the cell just left of the gap is copied
      into the gap's last cell and its origin becomes a placeholder. The gap then
      starts at `gs - 1`. */
  function ShiftLeft(buf: seq<char>, gs: nat, gl: nat): seq<char>
    requires 0 < gs && 0 < gl && gs + gl <= |buf|
  {
    buf[gs - 1 + gl := buf[gs - 1]][gs - 1 := Placeholder]
  }

  lemma ShiftLeftPreserves(buf: seq<char>, gs: nat, gl: nat)
    requires 0 < gs && 0 < gl && gs + gl <= |buf|
    ensures |ShiftLeft(buf, gs, gl)| == |buf|
    ensures Logical(ShiftLeft(buf, gs, gl), gs - 1, gl) == Logical(buf, gs, gl)
    ensures GapFilled(buf, gs, gl) ==> GapFilled(ShiftLeft(buf, gs, gl), gs - 1, gl)
  {
    var r := ShiftLeft(buf, gs, gl);
    var a, b := Logical(r, gs - 1, gl), Logical(buf, gs, gl);
    assert |a| == |b|;
    forall i | 0 <= i < |a|
      ensures a[i] == b[i]
    {
      LogicalAt(r, gs - 1, gl, i);
      LogicalAt(buf, gs, gl, i);
    }
  }

  /** One step of moving the gap right: the cell just right of the gap is
      copied into the gap's first cell and its origin becomes a placeholder. The
      gap then starts at `gs + 1`. */
  function ShiftRight(buf: seq<char>, gs: nat, gl: nat): seq<char>
    requires 0 < gl && gs + gl < |buf|
  {
    buf[gs := buf[gs + gl]][gs + gl := Placeholder]
  }

  lemma ShiftRightPreserves(buf: seq<char>, gs: nat, gl: nat)
    requires 0 < gl && gs + gl < |buf|
    ensures |ShiftRight(buf, gs, gl)| == |buf|
    ensures Logical(ShiftRight(buf, gs, gl), gs + 1, gl) == Logical(buf, gs, gl)
    ensures GapFilled(buf, gs, gl) ==> GapFilled(ShiftRight(buf, gs, gl), gs + 1, gl)
  {
    var r := ShiftRight(buf, gs, gl);
    var a, b := Logical(r, gs + 1, gl), Logical(buf, gs, gl);
    assert |a| == |b|;
    forall i | 0 <= i < |a|
      ensures a[i] == b[i]
    {
      LogicalAt(r, gs + 1, gl, i);
      LogicalAt(buf, gs, gl, i);
    }
  }

  /** On a laid-out buffer, a left step yields the layout of the same content
      with the gap one cell further left. */
  lemma ShiftLeftLayout(content: seq<char>, gs: nat, gl: nat)
    requires 0 < gs <= |content| && 0 < gl
    ensures ShiftLeft(Layout(content, gs, gl), gs, gl) == Layout(content, gs - 1, gl)
  {
    var buf := Layout(content, gs, gl);
    LogicalOfLayout(content, gs, gl);
    ShiftLeftPreserves(buf, gs, gl);
    LayoutOfLogical(ShiftLeft(buf, gs, gl), gs - 1, gl);
  }

  /** On a laid-out buffer, a right step yields the layout of the same content
      with the gap one cell further right. */
  lemma ShiftRightLayout(content: seq<char>, gs: nat, gl: nat)
    requires gs < |content| && 0 < gl
    ensures ShiftRight(Layout(content, gs, gl), gs, gl) == Layout(content, gs + 1, gl)
  {
    var buf := Layout(content, gs, gl);
    LogicalOfLayout(content, gs, gl);
    ShiftRightPreserves(buf, gs, gl);
    LayoutOfLogical(ShiftRight(buf, gs, gl), gs + 1, gl);
  }

  /** The first loop of moving the gap as a recursive reference: left steps
      while the gap starts right of `cursor`. */
  function ShiftLeftTo(buf: seq<char>, gs: nat, gl: nat, cursor: nat): (r: seq<char>)
    requires 0 < gl && gs + gl <= |buf|
    ensures |r| == |buf|
    decreases gs
  {
    if cursor < gs then ShiftLeftTo(ShiftLeft(buf, gs, gl), gs - 1, gl, cursor) else buf
  }

  /** The second loop of moving the gap as a recursive reference: right steps
      while the gap starts left of `cursor`. */
  function ShiftRightTo(buf: seq<char>, gs: nat, gl: nat, cursor: nat): (r: seq<char>)
    requires 0 < gl && gs + gl <= |buf| && cursor + gl <= |buf|
    ensures |r| == |buf|
    decreases cursor - gs
  {
    if gs < cursor then ShiftRightTo(ShiftRight(buf, gs, gl), gs + 1, gl, cursor) else buf
  }

  /** Moving the gap to `cursor` step by step: nothing with a zero-length gap,
      otherwise the left steps followed by the right steps. */
  function MoveGapSteps(buf: seq<char>, gs: nat, gl: nat, cursor: nat): seq<char>
    requires gs + gl <= |buf| && cursor + gl <= |buf|
  {
    if gl == 0 then buf
    else ShiftRightTo(ShiftLeftTo(buf, gs, gl, cursor), if cursor < gs then cursor else gs, gl, cursor)
  }

  /** The left steps carry a laid-out buffer to the layout of the same content
      with the gap at `cursor`, or left where it was when `cursor` is not left
      of it. */
  lemma {:induction false} ShiftLeftToLayout(content: seq<char>, gs: nat, gl: nat, cursor: nat)
    requires gs <= |content| && 0 < gl
    ensures ShiftLeftTo(Layout(content, gs, gl), gs, gl, cursor)
         == Layout(content, if cursor < gs then cursor else gs, gl)
    decreases gs
  {
    if cursor < gs {
      ShiftLeftLayout(content, gs, gl);
      ShiftLeftToLayout(content, gs - 1, gl, cursor);
    }
  }

  /** The right steps carry a laid-out buffer to the layout of the same content
      with the gap at `cursor`, or left where it was when `cursor` is not right
      of it. */
  lemma {:induction false} ShiftRightToLayout(content: seq<char>, gs: nat, gl: nat, cursor: nat)
    requires gs <= |content| && cursor <= |content| && 0 < gl
    ensures ShiftRightTo(Layout(content, gs, gl), gs, gl, cursor)
         == Layout(content, if gs < cursor then cursor else gs, gl)
    decreases cursor - gs
  {
    if gs < cursor {
      ShiftRightLayout(content, gs, gl);
      ShiftRightToLayout(content, gs + 1, gl, cursor);
    }
  }

  /** Moving the gap cell by cell gives exactly the layout of the same content
      with the gap at `cursor`, for every start position and gap length. */
  lemma {:induction false} MoveGapStepsLayout(content: seq<char>, gs: nat, gl: nat, cursor: nat)
    requires gs <= |content| && cursor <= |content|
    ensures MoveGapSteps(Layout(content, gs, gl), gs, gl, cursor) == Layout(content, cursor, gl)
  {
    if gl == 0 {
      assert Layout(content, gs, 0) == content == Layout(content, cursor, 0) by {
        assert content[..gs] + content[gs..] == content;
        assert content[..cursor] + content[cursor..] == content;
      }
    } else {
      ShiftLeftToLayout(content, gs, gl, cursor);
      ShiftRightToLayout(content, if cursor < gs then cursor else gs, gl, cursor);
    }
  }

  /** `k` gap pages of `page` cells pushed one after another. */
  function Pages(page: seq<char>, k: nat): (r: seq<char>)
    ensures |r| == |page| * k
  {
    if k == 0 then [] else Pages(page, k - 1) + page
  }

  /** `k` pages of `g` placeholders are one run of `g * k` placeholders. */
  lemma {:induction false} PagesPlaceholders(g: nat, k: nat)
    ensures Pages(Placeholders(g), k) == Placeholders(g * k)
  {
    if k > 0 {
      PagesPlaceholders(g, k - 1);
      PlaceholdersConcat(g * (k - 1), g);
      assert g * (k - 1) + g == g * k;
    }
  }

  /** The buffer rebuilt with the old gap replaced by `newGl` fresh placeholder
      cells keeps its document and has a filled gap. */
  lemma RegrowPreserves(buf: seq<char>, gs: nat, gl: nat, newGl: nat)
    requires gs + gl <= |buf|
    ensures var r := buf[..gs] + Placeholders(newGl) + buf[gs + gl..];
      && |r| == |buf| - gl + newGl
      && Logical(r, gs, newGl) == Logical(buf, gs, gl)
      && GapFilled(r, gs, newGl)
  {
    var r := buf[..gs] + Placeholders(newGl) + buf[gs + gl..];
    assert r[..gs] == buf[..gs];
    assert r[gs + newGl..] == buf[gs + gl..];
  }

  /** The buffer after `input` is written over the first cells of the gap. */
  function Fill(buf: seq<char>, gs: nat, input: seq<char>): seq<char>
    requires gs + |input| <= |buf|
  {
    buf[..gs] + input + buf[gs + |input|..]
  }

  /** Writing `input` at the left end of the gap and shrinking the gap by its
      length inserts `input` into the document at the gap position. */
  lemma FillInserts(buf: seq<char>, gs: nat, gl: nat, input: seq<char>)
    requires gs + gl <= |buf| && |input| <= gl
    ensures |Fill(buf, gs, input)| == |buf|
    ensures Logical(Fill(buf, gs, input), gs + |input|, gl - |input|)
         == Logical(buf, gs, gl)[..gs] + input + Logical(buf, gs, gl)[gs..]
    ensures GapFilled(buf, gs, gl) ==> GapFilled(Fill(buf, gs, input), gs + |input|, gl - |input|)
  {
    var r := Fill(buf, gs, input);
    var n := |input|;
    var c := Logical(buf, gs, gl);
    assert r[..gs + n] == buf[..gs] + input;
    assert r[gs + n + (gl - n)..] == buf[gs + gl..];
    assert c[..gs] == buf[..gs];
    assert c[gs..] == buf[gs + gl..];
    if GapFilled(buf, gs, gl) {
      forall i | gs + n <= i < gs + n + (gl - n)
        ensures r[i] == Placeholder
      {
        assert r[i] == buf[i];
      }
    }
  }

  /** The buffer after the `length` cells right of the gap are overwritten with
      placeholders. */
  function Absorb(buf: seq<char>, gs: nat, gl: nat, length: nat): seq<char>
    requires gs + gl + length <= |buf|
  {
    buf[..gs + gl] + Placeholders(length) + buf[gs + gl + length..]
  }

  /** Overwriting cells `lo` to `hi` with placeholders one at a time, as the
      deletion loop does. */
  function Blank(buf: seq<char>, lo: nat, hi: nat): (r: seq<char>)
    requires lo <= hi <= |buf|
    ensures |r| == |buf|
    decreases hi - lo
  {
    if lo == hi then buf else Blank(buf[lo := Placeholder], lo + 1, hi)
  }

  /** Blanking cell by cell replaces exactly the cells `lo` to `hi` by one
      placeholder run and keeps every other cell. */
  lemma {:induction false} BlankRun(buf: seq<char>, lo: nat, hi: nat)
    requires lo <= hi <= |buf|
    ensures Blank(buf, lo, hi) == buf[..lo] + Placeholders(hi - lo) + buf[hi..]
    decreases hi - lo
  {
    if lo == hi {
      assert buf[..lo] + [] + buf[hi..] == buf;
    } else {
      var b := buf[lo := Placeholder];
      BlankRun(b, lo + 1, hi);
      PlaceholdersConcat(1, hi - lo - 1);
      assert b[..lo + 1] == buf[..lo] + Placeholders(1);
      assert b[hi..] == buf[hi..];
    }
  }

  /** Absorbing `length` cells into the gap removes the `length` characters
      that followed the gap from the document. */
  lemma AbsorbDeletes(buf: seq<char>, gs: nat, gl: nat, length: nat)
    requires gs + gl + length <= |buf|
    ensures |Absorb(buf, gs, gl, length)| == |buf|
    ensures Logical(Absorb(buf, gs, gl, length), gs, gl + length)
         == Logical(buf, gs, gl)[..gs] + Logical(buf, gs, gl)[gs + length..]
    ensures GapFilled(buf, gs, gl) ==> GapFilled(Absorb(buf, gs, gl, length), gs, gl + length)
  {
    var r := Absorb(buf, gs, gl, length);
    var c := Logical(buf, gs, gl);
    assert r[..gs] == buf[..gs];
    assert r[gs + gl + length..] == buf[gs + gl + length..];
    assert c[..gs] == buf[..gs];
    assert c[gs + length..] == buf[gs + gl + length..];
    if GapFilled(buf, gs, gl) {
      forall i | gs <= i < gs + gl + length
        ensures r[i] == Placeholder
      {
        if i < gs + gl {
          assert r[i] == buf[i];
        }
      }
    }
  }

  /** The number of pages the buffer's growth allocates for `inputSize` cells
      with pages of `pageSize` cells: the quotient plus the remainder plus one. */
  function PageCount(inputSize: nat, pageSize: nat): nat
    requires 0 < pageSize
  {
    inputSize / pageSize + inputSize % pageSize + 1
  }

  /** The size of the gap after growth: a whole number of pages. */
  function GrownGap(inputSize: nat, pageSize: nat): nat
    requires 0 < pageSize
  {
    pageSize * PageCount(inputSize, pageSize)
  }

  /** The grown gap always holds the input with room to spare, and never more than
      `pageSize * (inputSize + 1)` cells. */
  lemma GrowthBounds(inputSize: nat, pageSize: nat)
    requires 0 < pageSize
    ensures inputSize < GrownGap(inputSize, pageSize) <= pageSize * (inputSize + 1)
  {
    var q, m := inputSize / pageSize, inputSize % pageSize;
    DivMod(inputSize, pageSize);
    Distribute(pageSize, q, m);
    AtLeastFactor(pageSize, m);
    AtLeastFactor(pageSize, q);
    MultiplyMonotone(pageSize, q + m + 1, inputSize + 1);
  }

  lemma DivMod(n: nat, d: nat)
    requires 0 < d
    ensures n == d * (n / d) + n % d && n % d < d
  {
  }

  lemma Distribute(g: nat, q: nat, m: nat)
    ensures g * (q + m + 1) == g * q + g * m + g
  {
  }

  lemma AtLeastFactor(g: nat, x: nat)
    requires 0 < g
    ensures x <= g * x
  {
  }

  lemma MultiplyMonotone(g: nat, a: nat, b: nat)
    requires a <= b
    ensures g * a <= g * b
  {
  }

  /** The upper bound is reached: one cell short of a page allocates a full page
      of pages, `pageSize * pageSize` cells. */
  lemma GrowthWorstCase(pageSize: nat)
    requires 0 < pageSize
    ensures GrownGap(pageSize - 1, pageSize) == pageSize * pageSize
  {
    assert (pageSize - 1) / pageSize == 0;
    assert (pageSize - 1) % pageSize == pageSize - 1;
  }

  /** The page count agrees with "enough pages for the input plus one page of
      headroom" exactly when the input leaves a remainder of at most one cell. */
  lemma GrowthMatchesHeadroomIff(inputSize: nat, pageSize: nat)
    requires 0 < pageSize
    ensures PageCount(inputSize, pageSize) == CeilPages(inputSize, pageSize) + 1
        <==> inputSize % pageSize <= 1
  {
  }

  /** The fewest pages of `pageSize` cells that hold `inputSize` cells. */
  function CeilPages(inputSize: nat, pageSize: nat): (p: nat)
    requires 0 < pageSize
    ensures inputSize <= pageSize * p
    ensures p > 0 ==> pageSize * (p - 1) < inputSize
  {
    var q := inputSize / pageSize;
    assert inputSize == pageSize * q + inputSize % pageSize;
    if inputSize % pageSize == 0 then q else q + 1
  }
}

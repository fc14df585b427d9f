# Gap buffer of characters: a Dafny model

This project models the gap buffer in `src/lib.rs` and proves its properties. A
gap buffer is the storage structure text editors use for a document. One
sequence of cells (`buffer`) holds three adjacent regions:

- the left content, cells `[0, gap_start)`;
- the gap, `gap_len` unused cells, each holding the placeholder `'_'`;
- the right content, after the gap.

The document, or *logical content*, is the left content followed by the right
content. Edits happen at the gap:

- `move_gap` walks the gap to a cursor one cell at a time;
- `insert` writes into the left end of the gap, first growing the gap (`grow`)
  if it is too short;
- `delete` absorbs the cells just right of the gap into it.

## Layout

- `layout.dfy`, module `GapLayout`: the value-level view, on `seq<char>`.
  - `Logical(buf, gs, gl)` is the abstraction function: the document a buffer
    represents.
  - `GapFilled` states that every gap cell holds the placeholder.
  - `Layout(content, gs, gl)` builds the buffer that holds `content` with a
    filled gap at `gs`.
  - One function per in-place step of the source: `ShiftLeft` and `ShiftRight`
    (one iteration of each `move_gap` loop), `Fill` (the slice swap of
    `insert`) and `Absorb` (the `delete` loop).
  - A lemma per step states what the step does to the document.
  - Each loop of the source also has a recursive reference definition:
    `ShiftLeftTo` and `ShiftRightTo` (together `MoveGapSteps`), `Pages` and
    `Blank`.
  - Induction lemmas equate each reference with its closed form
    (`MoveGapStepsLayout`, `PagesPlaceholders`, `BlankRun`).
  - `PageCount` and `GrownGap` are the page arithmetic of `grow`, taking the page
    size as a parameter.
- `gap_buffer.dfy`, module `GapBuffers`: the class `GapBuffer`.
  - Fields `buffer: seq<char>`, `gapStart` and `gapLen`, updated in place by the
    methods.
  - `Valid()` is the representation invariant: the gap lies inside the buffer
    and every gap cell holds the placeholder.
  - `Content()` is the document.
  - Every method is proved against `Content()` and keeps `Valid()`.
  - `GapSize = 1024` and `GapPage` are the source's constants.
- `scenarios.dfy`, module `GapBufferScenarios`: client code.
  - It replays the call sequences of the repository's three tests
    (`src/lib.rs:95-158`): `SmallerThanGapSize`, `LargerThanGapSize` and
    `MovesInsertsDeletesGrows`, the last in two stages.
  - It adds small insert and delete edits (`EditAtCursor`), a repeated move
    (`MoveGapTwice`) and an insert longer than one page (`InsertBeyondOnePage`).
  - After each step it asserts the document that the contracts alone imply.

Under `Valid()`, a buffer equals `Layout(Content(), gapStart, gapLen)`
(`LayoutOfLogical`, with `LogicalOfLayout` as the converse). A state is
therefore fully determined by its document and its gap. For that reason each
method's postcondition about `Content()`, `gapStart` and `gapLen` also fixes
every cell.

The two `while` loops of `move_gap` are the methods `MoveLeft` and `MoveRight`,
which `MoveGap` calls in the source's order. Their bodies carry out the source's
two cell writes per step. `gap_right` is passed from the first loop to the
second, as in the source.

Moving a zero-length gap does not change the document: with no gap the
document is the whole buffer wherever `gap_start` points (`EmptyGapLogical`),
and `MoveGap` proves that the document is preserved. Out-of-range cursors and
delete lengths make the code panic, so the model states those bounds as
preconditions.

## Model

| member | source | states |
|---|---|---|
| GapLayout.Logical | src/lib.rs:7-11 | the document of a buffer with a gap of `gl` cells is `gl` cells shorter than the buffer |
| GapLayout.LogicalOfLayout | src/lib.rs:7-11 | laying a document out around a gap and reading it back gives that document, with every gap cell the placeholder |
| GapLayout.LayoutOfLogical | src/lib.rs:7-11 | a buffer whose gap is placeholder-filled equals the layout of its own document, so the representation holds nothing beyond document, gap start and gap length |
| GapLayout.EmptyGapLogical | src/lib.rs:27-31 | with a zero-length gap the document is the whole buffer wherever the gap starts, so reassigning `gap_start` alone keeps the document |
| GapLayout.ShiftLeftPreserves | src/lib.rs:34-39 | one move-left step (copy the cell left of the gap into the gap's last cell, blank its origin, `gap_start - 1`) keeps the document and keeps the gap filled |
| GapLayout.ShiftRightPreserves | src/lib.rs:42-47 | one move-right step (copy the cell right of the gap into the gap's first cell, blank its origin, `gap_start + 1`) keeps the document and keeps the gap filled |
| GapLayout.ShiftLeftLayout | src/lib.rs:34-39 | on a laid-out buffer a move-left step gives the layout of the same document with the gap one cell left |
| GapLayout.ShiftRightLayout | src/lib.rs:42-47 | on a laid-out buffer a move-right step gives the layout of the same document with the gap one cell right |
| GapLayout.ShiftLeftTo | src/lib.rs:33-39 | the first `move_gap` loop as a recursion over left steps; the buffer keeps its length |
| GapLayout.ShiftRightTo | src/lib.rs:41-47 | the second `move_gap` loop as a recursion over right steps; the buffer keeps its length |
| GapLayout.ShiftLeftToLayout | src/lib.rs:33-39 | (by induction on the steps) the left loop carries the layout of a document to the layout of the same document with the gap at `min(cursor, gap_start)` |
| GapLayout.ShiftRightToLayout | src/lib.rs:41-47 | (by induction on the steps) the right loop carries the layout of a document to the layout of the same document with the gap at `max(cursor, gap_start)` |
| GapLayout.MoveGapStepsLayout | src/lib.rs:24-48 | the whole cell-by-cell move, for any gap length including zero, gives exactly the layout of the same document with the gap at `cursor` |
| GapLayout.Pages | src/lib.rs:55-58 | pushing `k` gap pages yields `k` times the page length |
| GapLayout.PagesPlaceholders | src/lib.rs:55-58 | (by induction on `k`) `k` pages of `g` placeholders are one run of `g * k` placeholders, so the rebuilt gap is exactly `new_gap_size` placeholder cells |
| GapLayout.Blank | src/lib.rs:84-86 | the deletion loop, blanking one cell per step, keeps the buffer length |
| GapLayout.BlankRun | src/lib.rs:84-86 | (by induction on the steps) blanking cells `lo` to `hi` one at a time replaces exactly that range by placeholders and keeps every other cell |
| GapLayout.RegrowPreserves | src/lib.rs:54-60 | replacing the old gap by `newGl` placeholder cells keeps the document, fills the gap, and the length becomes old length minus old gap plus new gap |
| GapLayout.FillInserts | src/lib.rs:69-77 | writing `input` over the first gap cells and moving `gap_start` past it turns the document into old left ++ `input` ++ old right, and the rest of the gap stays filled |
| GapLayout.AbsorbDeletes | src/lib.rs:82-87 | blanking the `length` cells after the gap and adding them to it removes exactly the `length` characters after the cursor from the document, and the gap stays filled |
| GapLayout.PlaceholdersConcat | src/lib.rs:56-58 | pushing gap pages one after another gives a placeholder run as long as all of them together |
| GapLayout.GrowthBounds | src/lib.rs:51-52 | the grown gap, `pageSize * (n / pageSize + n % pageSize + 1)`, is strictly larger than the input size `n` and at most `pageSize * (n + 1)` |
| GapLayout.GrowthWorstCase | src/lib.rs:51-52 | the upper bound is reached: an input of one cell less than a page grows the gap to `pageSize * pageSize` cells |
| GapLayout.GrowthMatchesHeadroomIff | src/lib.rs:51 | the page count equals "pages needed for the input plus one page of headroom" exactly when the input leaves a remainder of at most one cell |
| GapBuffers.GapBuffer.From | src/lib.rs:14-22 | the buffer is one gap page followed by `data`, `gap_start == 0`, `gap_len == GAP_SIZE`, every gap cell is the placeholder and the document is `data` |
| GapBuffers.GapBuffer.MoveGap | src/lib.rs:24-48 | afterwards `gap_start == cursor`, the gap length and buffer length are unchanged, the document is unchanged, and the buffer is the layout of the old document at `cursor`; with a zero-length gap, or with `cursor == gap_start`, no cell changes, so a second call with the same cursor changes nothing whenever its precondition holds (once the gap is empty and at 0, no further move is allowed, as the source panics there in a debug build); and the buffer is the one the source's cell-by-cell loops produce (`MoveGapSteps`) |
| GapBuffers.GapBuffer.MoveLeft | src/lib.rs:33-39 | the move-left loop ends with `gap_start == min(cursor, old gap_start)`, `gap_right` still the gap's last cell, the document unchanged and the gap filled |
| GapBuffers.GapBuffer.MoveRight | src/lib.rs:41-47 | the move-right loop ends with `gap_start == max(cursor, old gap_start)`, `gap_right` still the gap's last cell, the document unchanged and the gap filled |
| GapBuffers.GapBuffer.Grow | src/lib.rs:50-62 | `gap_start` and the document are unchanged, the new gap is exactly `GAP_SIZE * (n / GAP_SIZE + n % GAP_SIZE + 1)` placeholder cells, more than `n`, and the buffer is old left ++ new gap ++ old right |
| GapBuffers.GapBuffer.Insert | src/lib.rs:64-79 | the document becomes old left ++ `input` ++ old right and `gap_start` advances by `|input|`; without growth (exactly when `|input| <= gap_len`) the gap shrinks by `|input|` and only the first gap cells change; with growth the gap is the grown size minus `|input|` |
| GapBuffers.GapBuffer.Delete | src/lib.rs:81-88 | `gap_start` is unchanged, `gap_len` grows by `length`, the absorbed cells become placeholders and nothing else changes (both in closed form and as the cell-by-cell loop `Blank`), and the document loses the `length` characters after the cursor |
| GapBufferScenarios.InsertPunctuation | src/lib.rs:134-148 | the first edits of the test `moves_inserts_deletes_grows` turn "Hello World" into "Hello my dearest, World!" |
| GapBufferScenarios.ReplaceName | src/lib.rs:149-157 | the later edits of that test delete "World", insert "Dan" and append the second line, giving "Hello my dearest, Dan!" followed by "\nToday's my Birthday!" |

## Left out

- GapBuffers.GapBuffer.MoveGap: the model requires `cursor <= |buffer| - gap_len` in every case. For a non-empty gap the source needs this too, or the read at line 45 is out of bounds. For a zero-length gap the source accepts any cursor and can leave `gap_start` past the end of the buffer; the model does not cover that.
- GapBuffers.GapBuffer.MoveGap: the requirement `gap_start + gap_len >= 1` models the subtraction at line 25, which panics on underflow in a debug build. A release build wraps and then returns early, so there it is harmless. That state is reachable: `From(d)`, an `Insert` of exactly `GAP_SIZE` characters and `MoveGap(0)` leave `gap_start == gap_len == 0`, and a further `move_gap` then panics in a debug build.
- Fixed-width `usize` arithmetic is not modelled: indices are unbounded naturals. This covers the possible overflow of the page arithmetic in `grow` (lines 51-52) and of the index sums in `delete` (lines 82-83).
- Rust panics on an out-of-bounds index are not modelled as error results. They are the preconditions of `MoveGap` (cursor bound) and `Delete` (enough cells right of the gap).
- `swap_with_slice` in `insert` also moves the displaced gap cells into `input`. That vector is dropped right away, so the model only writes `input` into the gap.
- `buffer` is a `seq<char>` that the methods reassign, not a heap-allocated vector. Allocation, `Vec::with_capacity` (line 53) and the derived `Debug`/`Clone` impls (line 6) have no behavioural content here.
- The test module (lines 91-159) only prints buffer states. Its call sequences are replayed in `scenarios.dfy` without the printing.

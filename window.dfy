/** The row renderer and the scroll rule of src/window.c. Terminal escape
    sequences are opaque tokens; every other byte written to the output
    buffer is a `Ch` token. */
module Window {
  import opened Common
  import opened Cursor
  import TB = TextBuffer
  import Editor

  /** What `window_draw_rows` appends: a character, or one of the escape
      sequences `ESC_SEQ_COLOR(3)`, `ESC_SEQ_BG_COLOR(238)`,
      `ESC_SEQ_BG_COLOR(218)`, `ESC_SEQ_NORM_COLOR`,
      `ESC_SEQ_ERASE_LN_RIGHT_OF_CURSOR` and `CRLF`. */
  datatype Token = Ch(c: char) | Color3 | Bg238 | Bg218 | Norm | EraseLine | CrLf

  /** A C string appended to the buffer. */
  function Text(s: string): (ts: seq<Token>)
    ensures |ts| == |s| && forall i {:trigger ts[i]} :: 0 <= i < |s| ==> ts[i] == Ch(s[i])
  {
    if s == [] then [] else [Ch(s[0])] + Text(s[1..])
  }

  /** The characters of a token stream, escape sequences dropped: what the
      terminal shows. */
  function Chars(ts: seq<Token>): string
  {
    if ts == [] then [] else (if ts[0].Ch? then [ts[0].c] else []) + Chars(ts[1..])
  }

  /** The escape sequences of a token stream, characters dropped. */
  function Marks(ts: seq<Token>): seq<Token>
  {
    if ts == [] then [] else (if ts[0].Ch? then [] else [ts[0]]) + Marks(ts[1..])
  }

  /** How one token changes the selection colour: `BG(218)` switches it
      on, `BG(238)` and `NORM` switch it off. */
  function Step(t: Token, on: bool): bool
  {
    match t
    case Bg218 => true
    case Bg238 => false
    case Norm => false
    case _ => on
  }

  /** Which characters the terminal paints with the selection colour, `on`
      being the state before the first token. */
  function Painted(ts: seq<Token>, on: bool): seq<bool>
  {
    if ts == [] then [] else (if ts[0].Ch? then [on] else []) + Painted(ts[1..], Step(ts[0], on))
  }

  /** The selection-colour state after a token stream. */
  function PaintedAfter(ts: seq<Token>, on: bool): bool
  {
    if ts == [] then on else PaintedAfter(ts[1..], Step(ts[0], on))
  }

  lemma {:induction false} CharsAppend(a: seq<Token>, b: seq<Token>)
    ensures Chars(a + b) == Chars(a) + Chars(b)
    ensures Marks(a + b) == Marks(a) + Marks(b)
  {
    if a != [] {
      assert (a + b)[0] == a[0] && (a + b)[1..] == a[1..] + b;
      CharsAppend(a[1..], b);
    } else {
      assert a + b == b;
    }
  }

  lemma {:induction false} PaintedAppend(a: seq<Token>, b: seq<Token>, on: bool)
    ensures Painted(a + b, on) == Painted(a, on) + Painted(b, PaintedAfter(a, on))
  {
    if a != [] {
      var on' := Step(a[0], on);
      var head: seq<bool> := if a[0].Ch? then [on] else [];
      assert (a + b)[0] == a[0] && (a + b)[1..] == a[1..] + b;
      PaintedAppend(a[1..], b, on');
      assert PaintedAfter(a, on) == PaintedAfter(a[1..], on');
      assert Painted(a + b, on) == head + (Painted(a[1..], on') + Painted(b, PaintedAfter(a[1..], on')));
      assert Painted(a, on) == head + Painted(a[1..], on');
      assert head + (Painted(a[1..], on') + Painted(b, PaintedAfter(a[1..], on'))) ==
             (head + Painted(a[1..], on')) + Painted(b, PaintedAfter(a[1..], on'));
    } else {
      assert a + b == b && Painted(a, on) == [] && PaintedAfter(a, on) == on;
    }
  }

  lemma {:induction false} PaintedAfterAppend(a: seq<Token>, b: seq<Token>, on: bool)
    ensures PaintedAfter(a + b, on) == PaintedAfter(b, PaintedAfter(a, on))
  {
    if a != [] {
      assert (a + b)[0] == a[0] && (a + b)[1..] == a[1..] + b;
      PaintedAfterAppend(a[1..], b, Step(a[0], on));
    } else {
      assert a + b == b;
    }
  }

  lemma {:induction false} TextChars(s: string)
    ensures Chars(Text(s)) == s && Marks(Text(s)) == []
  {
    if s != [] {
      assert Text(s)[1..] == Text(s[1..]);
      TextChars(s[1..]);
    }
  }

  /** 2^32: `unsigned int` arithmetic wraps modulo this. */
  const Wrap: int := 0x1_0000_0000

  /** `line_pad` as `window_draw_rows` sets it: `log10(num_lines) + 1`, the
      digit count of the line count, but at least DEFAULT_LNPAD. The
      floating-point `log10` is replaced by an exact digit count. */
  function LinePad(numLines: nat): (p: nat)
    ensures p >= Editor.DefaultLnPad && p >= DigitCount(numLines)
    ensures p == Editor.DefaultLnPad || p == DigitCount(numLines)
  {
    Max(DigitCount(numLines), Editor.DefaultLnPad)
  }

  /** `cols - (line_pad + 1)` in `unsigned int`: the text columns right of
      the gutter. When the gutter does not fit it wraps to a huge value. */
  function TextWidth(cols: nat, pad: nat): (w: nat)
    ensures w < Wrap
    ensures pad + 1 <= cols < Wrap + pad + 1 ==> w == cols - (pad + 1)
    ensures cols < pad + 1 < Wrap + cols ==> w == Wrap + cols - (pad + 1)
  {
    (cols - (pad + 1)) % Wrap
  }

  /** The `len` of `window_draw_row`: the characters of the row from
      `col_off` on, at most `w` of them and none when `col_off` is past the
      end. It is the longest such slice. */
  function VisibleLen(lineLen: nat, colOff: nat, w: nat): (n: nat)
    ensures n <= w && (n == 0 || colOff + n <= lineLen)
    ensures n < w ==> colOff + n >= lineLen
  {
    var len := if lineLen - colOff < 0 then 0 else lineLen - colOff;
    if len > w then w else len
  }

  /** The highlight of one drawn row after clipping to the viewport: the
      first and last highlighted column, whether a highlight is drawn at
      all, and the token that closes it. */
  datatype Span = Span(first: int, last: int, on: bool, current: bool)
  {
    /** `BG(238)` resumes the current-line band, `NORM` ends the colour. */
    function Close(): Token { if current then Bg238 else Norm }
  }

  /** The clipping of `window_draw_row`. `select_start < col_off` compares
      an `int` with an `unsigned int`, so a negative start is converted to
      a huge unsigned value and never raised. */
  function Clip(start: int, end: int, active: bool, isCurrent: bool, colOff: nat, n: nat): (sp: Span)
    ensures sp.on <==> sp.last != -1 && active && sp.last >= sp.first
    ensures sp.last <= colOff + n - 1
    ensures sp.first >= 0 ==> sp.first >= colOff
    ensures sp.current == isCurrent
  {
    var first := if start >= 0 && start < colOff then colOff else start;
    var last := if end >= n + colOff then n + colOff - 1 else end;
    Span(first, last, last != -1 && active && last >= first, isCurrent)
  }

  /** The tokens of one column `i`: the selection colour before its first
      highlighted character, the character, and the close after its last. */
  function Cell(line: string, i: nat, sp: Span): seq<Token>
    requires i < |line|
  {
    (if sp.on && i == sp.first then [Bg218] else []) + [Ch(line[i])] + (if sp.on && i == sp.last then [sp.Close()] else [])
  }

  /** The first `k` columns of the visible slice starting at `colOff`. */
  function Cells(line: string, colOff: nat, sp: Span, k: nat): seq<Token>
    requires k == 0 || colOff + k <= |line|
  {
    if k == 0 then [] else Cells(line, colOff, sp, k - 1) + Cell(line, colOff + k - 1, sp)
  }

  /** Everything `window_draw_row` appends for one row. */
  function RowTokens(line: string, colOff: nat, w: nat, start: int, end: int, active: bool, isCurrent: bool): seq<Token>
  {
    var n := VisibleLen(|line|, colOff, w);
    Cells(line, colOff, Clip(start, end, active, isCurrent, colOff, n), n)
  }

  /** `window_draw_row`: the row's characters from `col_off`, clamped to the
      text width `w` (`cols - (line_pad + 1)`), with the selection colour
      around the clipped range. */
  method DrawRow(line: string, colOff: nat, w: nat, start: int, end: int, active: bool, isCurrent: bool)
      returns (toks: seq<Token>)
    ensures toks == RowTokens(line, colOff, w, start, end, active, isCurrent)
  {
    var len: int := |line| - colOff;
    if len < 0 {
      len := 0;
    }
    if len > w {
      len := w;
    }
    assert len == VisibleLen(|line|, colOff, w);
    var first, last := start, end;
    if first >= 0 && first < colOff {
      first := colOff;
    }
    if last >= len + colOff {
      last := len + colOff - 1;
    }
    var isSelected := last != -1 && active && last >= first;
    assert Clip(start, end, active, isCurrent, colOff, len) == Span(first, last, isSelected, isCurrent);
    toks := DrawCells(line, colOff, len, first, last, isSelected, isCurrent);
  }

  /** The loop of `window_draw_row` over the columns `colOff` to
      `colOff + len - 1`, once the highlight has been clipped. */
  method DrawCells(line: string, colOff: nat, len: nat, first: int, last: int, isSelected: bool, isCurrent: bool)
      returns (toks: seq<Token>)
    requires len == 0 || colOff + len <= |line|
    ensures toks == Cells(line, colOff, Span(first, last, isSelected, isCurrent), len)
  {
    ghost var sp := Span(first, last, isSelected, isCurrent);
    toks := [];
    var i := colOff;
    ghost var k: nat := 0;
    while i < colOff + len
      invariant i == colOff + k <= colOff + len
      invariant toks == Cells(line, colOff, sp, k)
    {
      toks := DrawCell(line, colOff, k, i, first, last, isSelected, isCurrent, toks);
      i := i + 1;
      k := k + 1;
    }
  }

  /** One round of the loop of `window_draw_row`, at column `i`. */
  method DrawCell(line: string, colOff: nat, ghost k: nat, i: nat, first: int, last: int, isSelected: bool, isCurrent: bool,
                  before: seq<Token>)
      returns (after: seq<Token>)
    requires i == colOff + k < |line|
    requires before == Cells(line, colOff, Span(first, last, isSelected, isCurrent), k)
    ensures after == Cells(line, colOff, Span(first, last, isSelected, isCurrent), k + 1)
  {
    var opening: seq<Token> := if isSelected && i == first then [Bg218] else [];
    var closing: seq<Token> := if isSelected && i == last then [if isCurrent then Bg238 else Norm] else [];
    after := before + opening + [Ch(line[i])] + closing;
    CellSnoc(line, colOff, Span(first, last, isSelected, isCurrent), k, before, opening, closing, after);
  }

  /** One loop round of `window_draw_row` appends the tokens of one column:
      the selection colour when the column opens the highlight, the
      character, and the close when the column ends it. */
  lemma CellSnoc(line: string, colOff: nat, sp: Span, k: nat, before: seq<Token>, opening: seq<Token>,
                 closing: seq<Token>, after: seq<Token>)
    requires colOff + k < |line| && before == Cells(line, colOff, sp, k)
    requires opening == if sp.on && colOff + k == sp.first then [Bg218] else []
    requires closing == if sp.on && colOff + k == sp.last then [sp.Close()] else []
    requires after == before + opening + [Ch(line[colOff + k])] + closing
    ensures after == Cells(line, colOff, sp, k + 1)
  {
  }

  lemma SingleFacts(t: Token, on: bool)
    ensures Chars([t]) == (if t.Ch? then [t.c] else [])
    ensures Marks([t]) == (if t.Ch? then [] else [t])
    ensures Painted([t], on) == (if t.Ch? then [on] else [])
    ensures PaintedAfter([t], on) == Step(t, on)
  {
    assert [t][1..] == [];
  }

  /** The character and the marks of one column. */
  lemma CellChars(line: string, i: nat, sp: Span)
    requires i < |line|
    ensures Chars(Cell(line, i, sp)) == [line[i]]
    ensures Marks(Cell(line, i, sp)) ==
              (if sp.on && i == sp.first then [Bg218] else []) + (if sp.on && i == sp.last then [sp.Close()] else [])
  {
    var pre: seq<Token> := if sp.on && i == sp.first then [Bg218] else [];
    var post: seq<Token> := if sp.on && i == sp.last then [sp.Close()] else [];
    var ch := [Ch(line[i])];
    SingleFacts(Ch(line[i]), false);
    SingleFacts(Bg218, false);
    SingleFacts(sp.Close(), false);
    assert Chars([]) == [] && Marks([]) == [];
    assert Chars(pre) == [] && Chars(post) == [];
    CharsAppend(pre + ch, post);
    CharsAppend(pre, ch);
  }

  /** How one column is painted, given the colour state `on` before it. */
  lemma CellPainted(line: string, i: nat, sp: Span, on: bool)
    requires i < |line|
    ensures Painted(Cell(line, i, sp), on) == [(sp.on && i == sp.first) || on]
    ensures PaintedAfter(Cell(line, i, sp), on) ==
              if sp.on && i == sp.last then false else (sp.on && i == sp.first) || on
  {
    var pre: seq<Token> := if sp.on && i == sp.first then [Bg218] else [];
    var post: seq<Token> := if sp.on && i == sp.last then [sp.Close()] else [];
    var ch := [Ch(line[i])];
    var on1 := PaintedAfter(pre, on);
    assert on1 == (sp.on && i == sp.first) || on by { SingleFacts(Bg218, on); }
    assert Painted(pre, on) == [] by { SingleFacts(Bg218, on); }
    SingleFacts(Ch(line[i]), on1);
    SingleFacts(sp.Close(), on1);
    PaintedAppend(pre + ch, post, on);
    PaintedAppend(pre, ch, on);
    PaintedAfterAppend(pre + ch, post, on);
    PaintedAfterAppend(pre, ch, on);
  }

  /** A drawn row shows exactly the visible slice of the line. */
  lemma {:induction false} CellsChars(line: string, colOff: nat, sp: Span, k: nat)
    requires colOff + k <= |line|
    ensures Chars(Cells(line, colOff, sp, k)) == line[colOff..colOff + k]
  {
    if k > 0 {
      var i := colOff + k - 1;
      CellsChars(line, colOff, sp, k - 1);
      CharsAppend(Cells(line, colOff, sp, k - 1), Cell(line, i, sp));
      CellChars(line, i, sp);
      assert line[colOff..colOff + k] == line[colOff..colOff + k - 1] + [line[i]];
    }
  }

  lemma RowText(line: string, colOff: nat, w: nat, start: int, end: int, active: bool, isCurrent: bool)
    ensures var n := VisibleLen(|line|, colOff, w);
            Chars(RowTokens(line, colOff, w, start, end, active, isCurrent)) ==
              (if n == 0 then [] else line[colOff..colOff + n])
  {
    var n := VisibleLen(|line|, colOff, w);
    if n > 0 {
      CellsChars(line, colOff, Clip(start, end, active, isCurrent, colOff, n), n);
    }
  }

  /** Painting column by column: a column is painted exactly when it lies
      in the span, and the colour is still on after column `colOff + k - 1`
      exactly when the span goes on past it. */
  lemma {:induction false} CellsPainted(line: string, colOff: nat, sp: Span, k: nat)
    requires colOff + k <= |line|
    requires sp.first >= 0 ==> sp.first >= colOff
    requires sp.on ==> sp.first <= sp.last
    ensures var p := Painted(Cells(line, colOff, sp, k), false);
            |p| == k && forall j :: 0 <= j < k ==> (p[j] <==> sp.on && 0 <= sp.first <= colOff + j <= sp.last)
    ensures PaintedAfter(Cells(line, colOff, sp, k), false) <==> sp.on && 0 <= sp.first < colOff + k <= sp.last
  {
    if k > 0 {
      var i := colOff + k - 1;
      var prev := Cells(line, colOff, sp, k - 1);
      CellsPainted(line, colOff, sp, k - 1);
      var on := PaintedAfter(prev, false);
      PaintedAppend(prev, Cell(line, i, sp), false);
      PaintedAfterAppend(prev, Cell(line, i, sp), false);
      CellPainted(line, i, sp, on);
      var p := Painted(Cells(line, colOff, sp, k), false);
      assert p == Painted(prev, false) + [(sp.on && i == sp.first) || on];
    }
  }

  /** The marks of the first `k` columns: the selection colour if the span
      opens among them, then the close if it ends among them. */
  lemma {:induction false} CellsMarks(line: string, colOff: nat, sp: Span, k: nat)
    requires colOff + k <= |line|
    requires sp.first >= 0 ==> sp.first >= colOff
    requires sp.on ==> sp.first <= sp.last
    ensures Marks(Cells(line, colOff, sp, k)) ==
              (if sp.on && 0 <= sp.first < colOff + k then [Bg218] else []) +
              (if sp.on && colOff <= sp.last < colOff + k then [sp.Close()] else [])
  {
    if k > 0 {
      var prev := Cells(line, colOff, sp, k - 1);
      var cell := Cell(line, colOff + k - 1, sp);
      assert Marks(Cells(line, colOff, sp, k)) == Marks(prev) + Marks(cell) by {
        assert Cells(line, colOff, sp, k) == prev + cell;
        CharsAppend(prev, cell);
      }
      CellsMarks(line, colOff, sp, k - 1);
      CellChars(line, colOff + k - 1, sp);
      MarksStep(sp, colOff, k);
    }
  }

  /** The marks before column `colOff + k - 1` and those of that column
      make the marks before column `colOff + k`. */
  lemma MarksStep(sp: Span, colOff: nat, k: nat)
    requires sp.first >= 0 ==> sp.first >= colOff
    requires sp.on ==> sp.first <= sp.last
    requires k > 0
    ensures (if sp.on && 0 <= sp.first < colOff + (k - 1) then [Bg218] else []) +
            (if sp.on && colOff <= sp.last < colOff + (k - 1) then [sp.Close()] else []) +
            ((if sp.on && colOff + k - 1 == sp.first then [Bg218] else []) +
             (if sp.on && colOff + k - 1 == sp.last then [sp.Close()] else []))
            ==
            (if sp.on && 0 <= sp.first < colOff + k then [Bg218] else []) +
            (if sp.on && colOff <= sp.last < colOff + k then [sp.Close()] else [])
  {
  }

  /** Column `colOff + j` of a drawn row is painted with the selection
      colour exactly when the selection is active and the column lies
      between the selection's start and end. A negative start, which the
      clipping leaves negative, paints nothing. */
  lemma RowPainted(line: string, colOff: nat, w: nat, start: int, end: int, active: bool, isCurrent: bool)
    ensures var n := VisibleLen(|line|, colOff, w);
            var p := Painted(RowTokens(line, colOff, w, start, end, active, isCurrent), false);
            |p| == n && forall j :: 0 <= j < n ==> (p[j] <==> active && 0 <= start <= colOff + j <= end)
  {
    var n := VisibleLen(|line|, colOff, w);
    if n > 0 {
      CellsPainted(line, colOff, Clip(start, end, active, isCurrent, colOff, n), n);
    }
  }

  /** The only marks `window_draw_row` emits: `BG(218)` where the clipped
      highlight opens and the close where it ends, `BG(238)` on the cursor's
      row and `NORM` elsewhere. */
  lemma RowMarks(line: string, colOff: nat, w: nat, start: int, end: int, active: bool, isCurrent: bool)
    ensures var n := VisibleLen(|line|, colOff, w);
            var sp := Clip(start, end, active, isCurrent, colOff, n);
            Marks(RowTokens(line, colOff, w, start, end, active, isCurrent)) ==
              (if sp.on && sp.first >= 0 then [Bg218] else []) +
              (if sp.on && sp.last >= colOff then [if isCurrent then Bg238 else Norm] else [])
  {
    var n := VisibleLen(|line|, colOff, w);
    if n > 0 {
      CellsMarks(line, colOff, Clip(start, end, active, isCurrent, colOff, n), n);
    }
  }

  /** Lexicographic order of document positions, row first. */
  predicate NotAfter(a: Coords, b: Coords)
  {
    a.y < b.y || (a.y == b.y && a.x <= b.x)
  }

  /** The characters a selection covers: from the anchor up to, not
      including, the offset when it runs left to right, and from the offset up
      to the anchor otherwise. */
  predicate Selected(ltr: bool, anchor: Coords, offset: Coords, p: Coords)
  {
    if ltr then NotAfter(anchor, p) && !NotAfter(offset, p)
    else NotAfter(offset, p) && !NotAfter(anchor, p)
  }

  /** The selection table of `window_compute_select_range`, repeated inline
      in `window_draw_rows`: the first and last highlighted column of row
      `row`, or `(-1, -1)`. `ltr` is what `cursor_is_select_ltr` answers;
      `lineLen - 1` and `x - 1` are `-1` for `0`, as in C. */
  function SelectRange(active: bool, ltr: bool, row: nat, lineLen: nat, anchor: Coords, offset: Coords): (r: (int, int))
    ensures !active ==> r == (-1, -1)
  {
    if !active then (-1 as int, -1 as int)
    else if ltr then
      var between: (int, int) := if row > anchor.y && row < offset.y then (0, lineLen - 1) else (-1, -1);
      if row == anchor.y && row == offset.y then (anchor.x as int, offset.x - 1)
      else if row == anchor.y then (anchor.x as int, lineLen - 1)
      else if row == offset.y then (0 as int, offset.x - 1)
      else between
    else
      var between: (int, int) := if row < anchor.y && row > offset.y then (0, lineLen - 1) else (-1, -1);
      if row == anchor.y && row == offset.y then (offset.x as int, anchor.x - 1)
      else if row == anchor.y then (0 as int, anchor.x - 1)
      else if row == offset.y then (offset.x as int, lineLen - 1)
      else between
  }

  /** The table is right: when the direction `ltr` matches the order of
      anchor and offset, a column of the row falls inside the range it
      returns exactly when the selection covers that position. */
  lemma SelectRangeCovers(ltr: bool, row: nat, lineLen: nat, anchor: Coords, offset: Coords, col: nat)
    requires col < lineLen
    requires ltr ==> NotAfter(anchor, offset)
    requires !ltr ==> NotAfter(offset, anchor)
    ensures var r := SelectRange(true, ltr, row, lineLen, anchor, offset);
            r.0 <= col <= r.1 <==> Selected(ltr, anchor, offset, Coords(col, row))
  {
  }

  /** `SelectRangeCovers` with the activity flag folded in. */
  lemma SelectRangeCoversIf(active: bool, ltr: bool, row: nat, lineLen: nat, anchor: Coords, offset: Coords, col: nat)
    requires col < lineLen
    requires ltr ==> NotAfter(anchor, offset)
    requires !ltr ==> NotAfter(offset, anchor)
    ensures var r := SelectRange(active, ltr, row, lineLen, anchor, offset);
            (active && 0 <= r.0 <= col <= r.1) <==> active && Selected(ltr, anchor, offset, Coords(col, row))
  {
    if active {
      SelectRangeCovers(ltr, row, lineLen, anchor, offset, col);
    }
  }

  /** `"%*ld "`: the line number right-justified in `pad` columns, then a
      space. */
  function Gutter(pad: nat, lineno: nat): (g: string)
    ensures |g| == 1 + if DigitCount(lineno) < pad then pad else DigitCount(lineno)
    ensures g[|g| - 1] == ' ' && g[|g| - 1 - DigitCount(lineno)..|g| - 1] == Decimal(lineno)
    ensures forall i :: 0 <= i < |g| - 1 - DigitCount(lineno) ==> g[i] == ' '
  {
    PadLeft(Decimal(lineno), pad) + " "
  }

  /** The gutter of a drawn screen never overflows `line_pad` and reads back
      as the line number. */
  lemma GutterFits(numLines: nat, lineno: nat)
    requires 1 <= lineno <= numLines
    ensures var g := Gutter(LinePad(numLines), lineno);
            |g| == LinePad(numLines) + 1 && DigitsValue(g[|g| - 1 - DigitCount(lineno)..|g| - 1]) == lineno
  {
    DigitCountMono(lineno, numLines);
    DecimalValue(lineno);
  }

  /** What the cursor's row adds after the text: spaces up to the right edge
      and `NORM`. */
  function Trailer(isCurrent: bool, padding: int): seq<Token>
  {
    if isCurrent then Text(Spaces(if padding > 0 then padding else 0)) + [Norm] else []
  }

  /** The row of the document line `line` behind the gutter `gutter`, as
      `window_draw_rows` draws it: the gutter (coloured on the cursor's
      row), the visible cells, and on the cursor's row the padding. */
  function ContentRow(line: string, gutter: string, cur: bool, cols: nat, pad: nat, colOff: nat, r: (int, int), active: bool)
    : seq<Token>
  {
    RowBody(line, gutter, cur, TextWidth(cols, pad), cols + colOff - (|line| + pad + 1), colOff, r, active)
  }

  /** The same row for a text width `w` and `padding` trailing spaces. */
  function RowBody(line: string, gutter: string, cur: bool, w: nat, padding: int, colOff: nat, r: (int, int), active: bool)
    : seq<Token>
  {
    (if cur then [Color3] else []) + Text(gutter) + (if cur then [Norm, Bg238] else []) +
    RowTokens(line, colOff, w, r.0, r.1, active, cur) + Trailer(cur, padding)
  }

  /** One screen row of `window_draw_rows`: `y` is the screen row, the
      document row is `y + row_off`. Past the end of the document the row is
      `ln_prefix`. The selection table is consulted with the screen row `y`,
      as the code does. */
  function ScreenRow(d: TB.Doc, c: Cursor, cols: nat, pad: nat, prefix: string, ltr: bool, y: nat): seq<Token>
  {
    if y + c.rowOff >= |d| then Text(prefix) + [EraseLine, CrLf]
    else DocRow(d, c, cols, pad, ltr, y) + [EraseLine, CrLf]
  }

  /** The row of text on screen row `y`, before erase-line and CR LF. */
  function DocRow(d: TB.Doc, c: Cursor, cols: nat, pad: nat, ltr: bool, y: nat): seq<Token>
    requires y + c.rowOff < |d|
  {
    ContentRow(d[y + c.rowOff], Gutter(pad, y + c.rowOff + 1), y + c.rowOff == c.y, cols, pad, c.colOff,
               SelectRange(c.selectActive, ltr, y, |d[y + c.rowOff]|, c.selectAnchor, c.selectOffset), c.selectActive)
  }

  /** Rows `0 .. k - 1` of `row`, one after another. */
  function Stack(row: nat -> seq<Token>, k: nat): seq<Token>
  {
    if k == 0 then [] else Stack(row, k - 1) + row(k - 1)
  }

  /** Screen row `y` as a function of `y`. */
  function Rows(d: TB.Doc, c: Cursor, cols: nat, pad: nat, prefix: string, ltr: bool): nat -> seq<Token>
  {
    (y: nat) => ScreenRow(d, c, cols, pad, prefix, ltr, y)
  }

  /** The first `k` screen rows. */
  function Screen(d: TB.Doc, c: Cursor, cols: nat, pad: nat, prefix: string, ltr: bool, k: nat): seq<Token>
  {
    Stack(Rows(d, c, cols, pad, prefix, ltr), k)
  }

  lemma ScreenSnoc(d: TB.Doc, c: Cursor, cols: nat, pad: nat, prefix: string, ltr: bool, k: nat,
                   before: seq<Token>, row: seq<Token>)
    requires before == Screen(d, c, cols, pad, prefix, ltr, k)
    requires row == ScreenRow(d, c, cols, pad, prefix, ltr, k)
    ensures before + row == Screen(d, c, cols, pad, prefix, ltr, k + 1)
  {
    assert Rows(d, c, cols, pad, prefix, ltr)(k) == row;
  }

  /** The padding loop of the cursor's row: `n` spaces, none when `n` is
      not positive. */
  method DrawPadding(n: int) returns (toks: seq<Token>)
    ensures toks == Text(Spaces(if n > 0 then n else 0))
  {
    toks := [];
    var i := 0;
    while i < n
      invariant i == 0 || 0 < i <= n
      invariant toks == Text(Spaces(i))
    {
      toks := toks + [Ch(' ')];
      i := i + 1;
      SpacesSnoc(i - 1);
    }
  }

  lemma SpacesSnoc(i: nat)
    ensures Text(Spaces(i + 1)) == Text(Spaces(i)) + [Ch(' ')]
  {
  }

  /** One round of the row loop of `window_draw_rows`. `lineno` is the
      counter the loop keeps; it is incremented before printing, so a
      document row `idx` is numbered `idx + 1`. */
  method DrawScreenRow(d: TB.Doc, c: Cursor, cols: nat, pad: nat, prefix: string, ltr: bool, y: nat, lineno: nat)
      returns (row: seq<Token>, next: nat)
    requires y + c.rowOff < |d| ==> lineno == y + c.rowOff
    ensures next == if y + c.rowOff < |d| then lineno + 1 else lineno
    ensures row == ScreenRow(d, c, cols, pad, prefix, ltr, y)
  {
    var idx := y + c.rowOff;
    next := lineno;
    if idx >= |d| {
      row := Text(prefix);
      assert row + [EraseLine, CrLf] == ScreenRow(d, c, cols, pad, prefix, ltr, y);
    } else {
      next := lineno + 1;
      row := DrawDocRow(d, c, cols, pad, ltr, y, next);
      assert row + [EraseLine, CrLf] == ScreenRow(d, c, cols, pad, prefix, ltr, y);
    }
    row := row + [EraseLine, CrLf];
  }

  /** The document row on screen row `y`, numbered `lineno`. */
  method DrawDocRow(d: TB.Doc, c: Cursor, cols: nat, pad: nat, ltr: bool, y: nat, lineno: nat) returns (row: seq<Token>)
    requires y + c.rowOff < |d| && lineno == y + c.rowOff + 1
    ensures row == DocRow(d, c, cols, pad, ltr, y)
  {
    var idx := y + c.rowOff;
    var line := d[idx];
    var r := SelectRange(c.selectActive, ltr, y, |line|, c.selectAnchor, c.selectOffset);
    var gutter := Gutter(pad, lineno);
    row := DrawTextRow(line, gutter, idx == c.y, cols, pad, c.colOff, r, c.selectActive);
    DocRowIs(d, c, cols, pad, ltr, y, line, gutter, r, row);
  }

  /** `DocRow` is the row of text drawn from the line on screen row `y`,
      its gutter and its selection range. */
  lemma DocRowIs(d: TB.Doc, c: Cursor, cols: nat, pad: nat, ltr: bool, y: nat, line: string, gutter: string, r: (int, int),
                 row: seq<Token>)
    requires y + c.rowOff < |d| && line == d[y + c.rowOff] && gutter == Gutter(pad, y + c.rowOff + 1)
    requires r == SelectRange(c.selectActive, ltr, y, |line|, c.selectAnchor, c.selectOffset)
    requires row == ContentRow(line, gutter, y + c.rowOff == c.y, cols, pad, c.colOff, r, c.selectActive)
    ensures row == DocRow(d, c, cols, pad, ltr, y)
  {
  }

  /** The body of one line of text in `window_draw_rows`: the gutter, the
      visible cells and, on the cursor's row, the highlight padding. */
  method DrawTextRow(line: string, gutter: string, cur: bool, cols: nat, pad: nat, colOff: nat, r: (int, int), active: bool)
      returns (row: seq<Token>)
    ensures row == ContentRow(line, gutter, cur, cols, pad, colOff, r, active)
  {
    var color: seq<Token> := if cur then [Color3] else [];
    var highlight: seq<Token> := if cur then [Norm, Bg238] else [];
    var cells := DrawRow(line, colOff, TextWidth(cols, pad), r.0, r.1, active, cur);
    var trailer: seq<Token> := [];
    if cur {
      trailer := DrawPadding(cols + colOff - (|line| + pad + 1));
      trailer := trailer + [Norm];
    }
    row := color + Text(gutter) + highlight + cells + trailer;
  }

  /** A token stream paints one cell per character. */
  lemma {:induction false} PaintedLen(ts: seq<Token>, on: bool)
    ensures |Painted(ts, on)| == |Chars(ts)|
  {
    if ts != [] {
      PaintedLen(ts[1..], Step(ts[0], on));
    }
  }

  /** Plain text neither switches the selection colour nor is painted
      differently from what comes before it. */
  lemma {:induction false} TextPainted(s: string, on: bool)
    ensures PaintedAfter(Text(s), on) == on && |Painted(Text(s), on)| == |s|
  {
    if s != [] {
      assert Text(s)[1..] == Text(s[1..]);
      TextPainted(s[1..], on);
    }
  }

  /** The gutter part of a row of text: one unpainted cell per gutter
      character, and the selection colour is off after it. */
  lemma HeadPainted(gutter: string, cur: bool)
    ensures var head := (if cur then [Color3] else []) + Text(gutter) + (if cur then [Norm, Bg238] else []);
            |Painted(head, false)| == |gutter| && !PaintedAfter(head, false)
  {
    var a: seq<Token> := if cur then [Color3] else [];
    var m: seq<Token> := if cur then [Norm, Bg238] else [];
    var b := Text(gutter);
    TextPainted(gutter, false);
    SingleFacts(Color3, false);
    SingleFacts(Norm, false);
    SingleFacts(Bg238, false);
    PaintedAppend([Norm], [Bg238], false);
    PaintedAfterAppend([Norm], [Bg238], false);
    assert [Norm] + [Bg238] == [Norm, Bg238];
    assert Painted(a, false) == [] && !PaintedAfter(a, false);
    assert Painted(m, false) == [] && PaintedAfter(m, false) == false;
    PaintedAppend(a, b, false);
    PaintedAfterAppend(a, b, false);
    PaintedAppend(a + b, m, false);
    PaintedAfterAppend(a + b, m, false);
  }

  /** The visible column `colOff + j` of a row of text is the cell right of
      the gutter at `|gutter| + j`, painted exactly when the selection is
      active and the column lies in the range `r`. */
  lemma RowBodyPainted(line: string, gutter: string, cur: bool, w: nat, padding: int, colOff: nat, r: (int, int), active: bool,
                        j: nat)
    requires j < VisibleLen(|line|, colOff, w)
    ensures var p := Painted(RowBody(line, gutter, cur, w, padding, colOff, r, active), false);
            |gutter| + j < |p| && (p[|gutter| + j] <==> active && 0 <= r.0 <= colOff + j <= r.1)
  {
    var head := (if cur then [Color3] else []) + Text(gutter) + (if cur then [Norm, Bg238] else []);
    var cells := RowTokens(line, colOff, w, r.0, r.1, active, cur);
    var t := Trailer(cur, padding);
    HeadPainted(gutter, cur);
    RowPainted(line, colOff, w, r.0, r.1, active, cur);
    PaintedAppend(head, cells, false);
    PaintedAppend(head + cells, t, false);
    assert RowBody(line, gutter, cur, w, padding, colOff, r, active) == head + cells + t;
  }

  /** A row of text drawn with the selection table for screen row `y`: its
      visible column `colOff + j` is painted exactly when the selection is
      active and, in the order `ltr` names, covers position
      (`colOff + j`, `y`). */
  lemma RowSelectionPainted(line: string, gutter: string, cur: bool, cols: nat, pad: nat, colOff: nat, active: bool, ltr: bool,
                            y: nat, anchor: Coords, offset: Coords, j: nat)
    requires ltr ==> NotAfter(anchor, offset)
    requires !ltr ==> NotAfter(offset, anchor)
    requires j < VisibleLen(|line|, colOff, TextWidth(cols, pad))
    ensures var r := SelectRange(active, ltr, y, |line|, anchor, offset);
            var p := Painted(ContentRow(line, gutter, cur, cols, pad, colOff, r, active), false);
            |gutter| + j < |p| && (p[|gutter| + j] <==> active && Selected(ltr, anchor, offset, Coords(colOff + j, y)))
  {
    ContentRowCell(line, gutter, cur, cols, pad, colOff, SelectRange(active, ltr, y, |line|, anchor, offset), active, j);
    SelectRangeCoversIf(active, ltr, y, |line|, anchor, offset, colOff + j);
  }

  /** `RowBodyPainted` for the row as `window_draw_rows` sizes it. */
  lemma ContentRowCell(line: string, gutter: string, cur: bool, cols: nat, pad: nat, colOff: nat, r: (int, int), active: bool,
                       j: nat)
    requires j < VisibleLen(|line|, colOff, TextWidth(cols, pad))
    ensures var p := Painted(ContentRow(line, gutter, cur, cols, pad, colOff, r, active), false);
            |gutter| + j < |p| && (p[|gutter| + j] <==> active && 0 <= r.0 <= colOff + j <= r.1)
  {
    RowBodyPainted(line, gutter, cur, TextWidth(cols, pad), cols + colOff - (|line| + pad + 1), colOff, r, active, j);
  }

  /** The selection on screen. Screen row `y` shows `line`, document row
      `y + row_off`, behind the gutter of line number `y + row_off + 1`,
      and `row` is what `window_draw_rows` draws there (`DocRowIs` shows it
      is `DocRow`). A visible column `colOff + j` is painted exactly when
      the selection is active and covers position (`colOff + j`, `y`): the
      SCREEN row, not the document row. */
  lemma DocRowPainted(d: TB.Doc, c: Cursor, cols: nat, pad: nat, ltr: bool, y: nat, j: nat,
                      line: string, gutter: string, row: seq<Token>)
    requires y + c.rowOff < |d| && line == d[y + c.rowOff] && gutter == Gutter(pad, y + c.rowOff + 1)
    requires row == ContentRow(line, gutter, y + c.rowOff == c.y, cols, pad, c.colOff,
                               SelectRange(c.selectActive, ltr, y, |line|, c.selectAnchor, c.selectOffset), c.selectActive)
    requires ltr ==> NotAfter(c.selectAnchor, c.selectOffset)
    requires !ltr ==> NotAfter(c.selectOffset, c.selectAnchor)
    requires j < VisibleLen(|line|, c.colOff, TextWidth(cols, pad))
    ensures |gutter| + j < |Painted(row, false)|
    ensures Painted(row, false)[|gutter| + j] <==>
            c.selectActive && Selected(ltr, c.selectAnchor, c.selectOffset, Coords(c.colOff + j, y))
  {
    RowSelectionPainted(line, gutter, y + c.rowOff == c.y, cols, pad, c.colOff, c.selectActive, ltr, y,
                        c.selectAnchor, c.selectOffset, j);
  }

  /** Without vertical scrolling the screen row is the document row, so a
      visible character is painted exactly when the selection covers its
      position in the document. */
  lemma DocRowPaintedUnscrolled(d: TB.Doc, c: Cursor, cols: nat, pad: nat, ltr: bool, y: nat, j: nat,
                                line: string, gutter: string, row: seq<Token>)
    requires c.rowOff == 0
    requires y + c.rowOff < |d| && line == d[y + c.rowOff] && gutter == Gutter(pad, y + c.rowOff + 1)
    requires row == ContentRow(line, gutter, y + c.rowOff == c.y, cols, pad, c.colOff,
                               SelectRange(c.selectActive, ltr, y, |line|, c.selectAnchor, c.selectOffset), c.selectActive)
    requires ltr ==> NotAfter(c.selectAnchor, c.selectOffset)
    requires !ltr ==> NotAfter(c.selectOffset, c.selectAnchor)
    requires j < VisibleLen(|line|, c.colOff, TextWidth(cols, pad))
    ensures |gutter| + j < |Painted(row, false)|
    ensures Painted(row, false)[|gutter| + j] <==>
            c.selectActive && Selected(ltr, c.selectAnchor, c.selectOffset, Coords(c.colOff + j, y + c.rowOff))
  {
    DocRowPainted(d, c, cols, pad, ltr, y, j, line, gutter, row);
    assert Coords(c.colOff + j, y) == Coords(c.colOff + j, y + c.rowOff);
  }

  /** Scrolled one row down, the highlight follows the screen row: with the
      selection on the first character of document row 0 and the view
      starting at row 1, the first character of document row 1 is painted
      although the selection does not cover it. */
  lemma ScrolledSelectionFollowsScreenRow()
    ensures var d: TB.Doc := ["ab", "cd"];
            var c := Cursor(Coords(0, 0), Coords(1, 0), 0, 1, 1, 0, 3, true);
            var p := Painted(DocRow(d, c, 10, 3, true, 0), false);
            |Gutter(3, 2)| < |p| && p[|Gutter(3, 2)|] && !Selected(true, Coords(0, 0), Coords(1, 0), Coords(0, 1))
  {
    var d: TB.Doc := ["ab", "cd"];
    var c := Cursor(Coords(0, 0), Coords(1, 0), 0, 1, 1, 0, 3, true);
    assert TextWidth(10, 3) == 6;
    assert VisibleLen(2, 0, 6) == 2;
    DocRowIs(d, c, 10, 3, true, 0, "cd", Gutter(3, 2), (0, 0), ContentRow("cd", Gutter(3, 2), true, 10, 3, 0, (0, 0), true));
    DocRowPainted(d, c, 10, 3, true, 0, 0, "cd", Gutter(3, 2), DocRow(d, c, 10, 3, true, 0));
  }

  /** `window_draw_rows`: sets `line_pad` from the line count and draws
      `rows` screen rows starting at document row `row_off`. */
  method DrawRows(d: TB.Doc, c: Cursor, rows: nat, cols: nat, prefix: string, ltr: bool)
      returns (toks: seq<Token>, pad: nat)
    ensures pad == LinePad(|d|)
    ensures toks == Screen(d, c, cols, pad, prefix, ltr, rows)
  {
    var lineno := c.rowOff;
    pad := LinePad(|d|);
    toks := [];
    var y := 0;
    while y < rows
      invariant y <= rows
      invariant toks == Screen(d, c, cols, pad, prefix, ltr, y)
      invariant c.rowOff + y <= |d| ==> lineno == c.rowOff + y
    {
      toks, lineno := NextScreenRow(d, c, cols, pad, prefix, ltr, y, lineno, toks);
      y := y + 1;
    }
  }

  /** The body of the row loop: draws screen row `y` after the rows before
      it. */
  method NextScreenRow(d: TB.Doc, c: Cursor, cols: nat, pad: nat, prefix: string, ltr: bool, y: nat, lineno: nat,
                       before: seq<Token>)
      returns (toks: seq<Token>, next: nat)
    requires before == Screen(d, c, cols, pad, prefix, ltr, y)
    requires c.rowOff + y <= |d| ==> lineno == c.rowOff + y
    ensures toks == Screen(d, c, cols, pad, prefix, ltr, y + 1)
    ensures c.rowOff + y + 1 <= |d| ==> next == c.rowOff + y + 1
  {
    var row;
    row, next := DrawScreenRow(d, c, cols, pad, prefix, ltr, y, lineno);
    ScreenSnoc(d, c, cols, pad, prefix, ltr, y, before, row);
    toks := before + row;
  }

  // ---------------------------------------------------------------------
  // window_scroll

  /** The cursor is above the window. The four visibility tests live in
      cursor.c, which is not part of this model; they are the comparisons
      against the window that `window_scroll` repairs. */
  predicate Above(c: Cursor) { c.y < c.rowOff }

  predicate Below(c: Cursor, rows: nat) { c.y >= c.rowOff + rows }

  predicate LeftOf(c: Cursor) { c.x < c.colOff }

  predicate RightOf(c: Cursor, w: nat) { c.x >= c.colOff + w }

  /** The cursor `window_scroll` leaves behind: the four tests in order,
      each adjusting one offset. `pad` is `line_pad` as the previous draw
      set it. */
  function Scrolled(c: Cursor, rows: nat, cols: nat, pad: nat): (s: Cursor)
    ensures s == c.(rowOff := s.rowOff, colOff := s.colOff)
  {
    var w := TextWidth(cols, pad);
    var c1 := if Above(c) then c.(rowOff := c.y) else c;
    var c2 := if Below(c1, rows) then c1.(rowOff := c1.y - rows + 1) else c1;
    var c3 := if LeftOf(c2) then c2.(colOff := c2.x) else c2;
    if RightOf(c3, w) then c3.(colOff := c3.x - w + 1) else c3
  }

  /** After scrolling, a window with at least one row and one text column
      shows the cursor. */
  lemma ScrolledShowsCursor(c: Cursor, rows: nat, cols: nat, pad: nat)
    requires rows >= 1 && TextWidth(cols, pad) >= 1
    ensures var s := Scrolled(c, rows, cols, pad);
            s.rowOff <= s.y < s.rowOff + rows && s.colOff <= s.x < s.colOff + TextWidth(cols, pad)
  {
  }

  /** A cursor already inside the window is left as it is. */
  lemma ScrolledVisible(c: Cursor, rows: nat, cols: nat, pad: nat)
    requires c.rowOff <= c.y < c.rowOff + rows && c.colOff <= c.x < c.colOff + TextWidth(cols, pad)
    ensures Scrolled(c, rows, cols, pad) == c
  {
  }

  /** Scrolling twice is scrolling once, for every window size, the
      degenerate ones with no rows or no text columns included. */
  lemma ScrolledIdempotent(c: Cursor, rows: nat, cols: nat, pad: nat)
    ensures Scrolled(Scrolled(c, rows, cols, pad), rows, cols, pad) == Scrolled(c, rows, cols, pad)
  {
    var s := Scrolled(c, rows, cols, pad);
    var w := TextWidth(cols, pad);
    if rows >= 1 && w >= 1 {
      ScrolledShowsCursor(c, rows, cols, pad);
      ScrolledVisible(s, rows, cols, pad);
    }
  }

  /** `window_scroll` on the editor's cursor. */
  method Scroll(ed: Editor.EditorState, rows: nat, cols: nat, pad: nat)
    modifies ed
    ensures ed.curs == Scrolled(old(ed.curs), rows, cols, pad)
    ensures ed.r == old(ed.r)
  {
    var w := TextWidth(cols, pad);
    if ed.curs.y < ed.curs.rowOff {
      ed.curs := ed.curs.(rowOff := ed.curs.y);
    }
    if ed.curs.y >= ed.curs.rowOff + rows {
      ed.curs := ed.curs.(rowOff := ed.curs.y - rows + 1);
    }
    if ed.curs.x < ed.curs.colOff {
      ed.curs := ed.curs.(colOff := ed.curs.x);
    }
    if ed.curs.x >= ed.curs.colOff + w {
      ed.curs := ed.curs.(colOff := ed.curs.x - w + 1);
    }
  }

  // ---------------------------------------------------------------------
  // What the drawn screen shows

  /** The marks of a stream without characters are the stream itself. */
  lemma {:induction false} TagsOnly(ts: seq<Token>)
    requires forall i :: 0 <= i < |ts| ==> !ts[i].Ch?
    ensures Chars(ts) == [] && Marks(ts) == ts
  {
    if ts != [] {
      TagsOnly(ts[1..]);
      assert ts == [ts[0]] + ts[1..];
    }
  }

  /** Characters and marks of five streams one after another. */
  lemma CharsAppend5(a: seq<Token>, b: seq<Token>, m: seq<Token>, cells: seq<Token>, t: seq<Token>)
    ensures Chars(a + b + m + cells + t) == Chars(a) + Chars(b) + Chars(m) + Chars(cells) + Chars(t)
    ensures Marks(a + b + m + cells + t) == Marks(a) + Marks(b) + Marks(m) + Marks(cells) + Marks(t)
  {
    CharsAppend(a, b);
    CharsAppend(a + b, m);
    CharsAppend(a + b + m, cells);
    CharsAppend(a + b + m + cells, t);
  }

  /** What the cursor's row adds after the cells: spaces and `NORM`. */
  lemma TrailerShape(cur: bool, padding: int)
    ensures Chars(Trailer(cur, padding)) == if cur then Spaces(if padding > 0 then padding else 0) else []
    ensures Marks(Trailer(cur, padding)) == if cur then [Norm] else []
  {
    if cur {
      var sp := Spaces(if padding > 0 then padding else 0);
      TextChars(sp);
      TagsOnly([Norm]);
      CharsAppend(Text(sp), [Norm]);
    } else {
      TagsOnly([]);
    }
  }

  /** A row of text shows the gutter, the visible slice of the line and, on
      the cursor's row, the padding. */
  lemma ContentRowChars(line: string, gutter: string, cur: bool, cols: nat, pad: nat, colOff: nat, r: (int, int), active: bool)
    ensures var n := VisibleLen(|line|, colOff, TextWidth(cols, pad));
            var padding := cols + colOff - (|line| + pad + 1);
            Chars(ContentRow(line, gutter, cur, cols, pad, colOff, r, active)) ==
              gutter + (if n == 0 then [] else line[colOff..colOff + n]) +
              (if cur then Spaces(if padding > 0 then padding else 0) else [])
  {
    RowBodyChars(line, gutter, cur, TextWidth(cols, pad), cols + colOff - (|line| + pad + 1), colOff, r, active);
  }

  lemma RowBodyChars(line: string, gutter: string, cur: bool, w: nat, padding: int, colOff: nat, r: (int, int), active: bool)
    ensures var n := VisibleLen(|line|, colOff, w);
            Chars(RowBody(line, gutter, cur, w, padding, colOff, r, active)) ==
              gutter + (if n == 0 then [] else line[colOff..colOff + n]) +
              (if cur then Spaces(if padding > 0 then padding else 0) else [])
  {
    var a: seq<Token> := if cur then [Color3] else [];
    var m: seq<Token> := if cur then [Norm, Bg238] else [];
    var cells := RowTokens(line, colOff, w, r.0, r.1, active, cur);
    var t := Trailer(cur, padding);
    RowPartsChars(line, gutter, cur, w, padding, colOff, r, active);
    AssembleChars(a, Text(gutter), m, cells, t);
  }

  /** The characters of the five parts of a row of text. */
  lemma RowPartsChars(line: string, gutter: string, cur: bool, w: nat, padding: int, colOff: nat, r: (int, int), active: bool)
    ensures var n := VisibleLen(|line|, colOff, w);
            Chars(if cur then [Color3] else []) == [] && Chars(if cur then [Norm, Bg238] else []) == [] &&
            Chars(Text(gutter)) == gutter &&
            Chars(RowTokens(line, colOff, w, r.0, r.1, active, cur)) == (if n == 0 then [] else line[colOff..colOff + n]) &&
            Chars(Trailer(cur, padding)) == (if cur then Spaces(if padding > 0 then padding else 0) else [])
  {
    TagsOnly(if cur then [Color3] else []);
    TagsOnly(if cur then [Norm, Bg238] else []);
    TextChars(gutter);
    RowText(line, colOff, w, r.0, r.1, active, cur);
    TrailerShape(cur, padding);
  }

  /** The marks of a row of text are the gutter colours, the marks of the
      cells and the closing `NORM` of the cursor's row. */
  lemma ContentRowMarks(line: string, gutter: string, cur: bool, cols: nat, pad: nat, colOff: nat, r: (int, int), active: bool)
    ensures Marks(ContentRow(line, gutter, cur, cols, pad, colOff, r, active)) ==
              (if cur then [Color3, Norm, Bg238] else []) +
              Marks(RowTokens(line, colOff, TextWidth(cols, pad), r.0, r.1, active, cur)) +
              (if cur then [Norm] else [])
  {
    RowBodyMarks(line, gutter, cur, TextWidth(cols, pad), cols + colOff - (|line| + pad + 1), colOff, r, active);
  }

  lemma RowBodyMarks(line: string, gutter: string, cur: bool, w: nat, padding: int, colOff: nat, r: (int, int), active: bool)
    ensures Marks(RowBody(line, gutter, cur, w, padding, colOff, r, active)) ==
              (if cur then [Color3, Norm, Bg238] else []) +
              Marks(RowTokens(line, colOff, w, r.0, r.1, active, cur)) +
              (if cur then [Norm] else [])
  {
    var a: seq<Token> := if cur then [Color3] else [];
    var b := Text(gutter);
    var m: seq<Token> := if cur then [Norm, Bg238] else [];
    var t := Trailer(cur, padding);
    var head: seq<Token> := if cur then [Color3, Norm, Bg238] else [];
    var tail: seq<Token> := if cur then [Norm] else [];
    assert Marks(a) + Marks(m) == head by {
      TagsOnly(a);
      TagsOnly(m);
    }
    assert Marks(b) == [] by {
      TextChars(gutter);
    }
    assert Marks(t) == tail by {
      TrailerShape(cur, padding);
    }
    AssembleMarks(a, b, m, RowTokens(line, colOff, w, r.0, r.1, active, cur), t, head, tail);
  }

  /** Chars of a five-part row whose first and third parts are tags only. */
  lemma AssembleChars(a: seq<Token>, b: seq<Token>, m: seq<Token>, cells: seq<Token>, t: seq<Token>)
    requires Chars(a) == [] && Chars(m) == []
    ensures Chars(a + b + m + cells + t) == Chars(b) + Chars(cells) + Chars(t)
  {
    CharsAppend5(a, b, m, cells, t);
    DropEmpty(Chars(a), Chars(b), Chars(m), Chars(cells), Chars(t));
  }

  /** Marks of a five-part row whose second part is text only. */
  lemma AssembleMarks(a: seq<Token>, b: seq<Token>, m: seq<Token>, cells: seq<Token>, t: seq<Token>,
                      head: seq<Token>, tail: seq<Token>)
    requires Marks(b) == [] && Marks(a) + Marks(m) == head && Marks(t) == tail
    ensures Marks(a + b + m + cells + t) == head + Marks(cells) + tail
  {
    CharsAppend5(a, b, m, cells, t);
    assert Marks(a) + Marks(b) + Marks(m) == head;
  }

  /** A row of text never ends a screen row on its own. */
  lemma ContentRowNoCrLf(line: string, gutter: string, cur: bool, cols: nat, pad: nat, colOff: nat, r: (int, int), active: bool)
    ensures CrLf !in Marks(ContentRow(line, gutter, cur, cols, pad, colOff, r, active))
  {
    var w := TextWidth(cols, pad);
    var n := VisibleLen(|line|, colOff, w);
    var sp := Clip(r.0, r.1, active, cur, colOff, n);
    ContentRowMarks(line, gutter, cur, cols, pad, colOff, r, active);
    RowMarks(line, colOff, w, r.0, r.1, active, cur);
    var x: seq<Token> := if cur then [Color3, Norm, Bg238] else [];
    var o: seq<Token> := if sp.on && sp.first >= 0 then [Bg218] else [];
    var k: seq<Token> := if sp.on && sp.last >= colOff then [if cur then Bg238 else Norm] else [];
    var z: seq<Token> := if cur then [Norm] else [];
    assert Marks(ContentRow(line, gutter, cur, cols, pad, colOff, r, active)) == x + (o + k) + z;
    assert CrLf !in x && CrLf !in o && CrLf !in k && CrLf !in z;
  }

  lemma DropEmpty<T>(a: seq<T>, b: seq<T>, m: seq<T>, c: seq<T>, t: seq<T>)
    requires a == [] && m == []
    ensures a + b + m + c + t == b + c + t
  {
  }

  /** Every screen row ends in erase-line and CR LF. A row past the end of
      the document shows `ln_prefix` and nothing else. A row of text shows
      what `ContentRowChars` and `ContentRowMarks` say, and has no CR LF of its own. */
  lemma ScreenRowShape(d: TB.Doc, c: Cursor, cols: nat, pad: nat, prefix: string, ltr: bool, y: nat)
    ensures var row := ScreenRow(d, c, cols, pad, prefix, ltr, y);
            |row| >= 2 && row[|row| - 2..] == [EraseLine, CrLf]
    ensures var row := ScreenRow(d, c, cols, pad, prefix, ltr, y);
            y + c.rowOff >= |d| ==> Chars(row) == prefix && Marks(row) == [EraseLine, CrLf]
    ensures Count(Marks(ScreenRow(d, c, cols, pad, prefix, ltr, y)), CrLf) == 1
  {
    var row := ScreenRow(d, c, cols, pad, prefix, ltr, y);
    if y + c.rowOff >= |d| {
      var body := Text(prefix);
      assert row == body + [EraseLine, CrLf];
      assert Chars(body) == prefix && Marks(body) == [] by {
        TextChars(prefix);
      }
      RowEnd(body);
      RowEndCount(body);
    } else {
      var body := DocRow(d, c, cols, pad, ltr, y);
      assert row == body + [EraseLine, CrLf];
      ContentRowNoCrLf(d[y + c.rowOff], Gutter(pad, y + c.rowOff + 1), y + c.rowOff == c.y, cols, pad, c.colOff,
                       SelectRange(c.selectActive, ltr, y, |d[y + c.rowOff]|, c.selectAnchor, c.selectOffset), c.selectActive);
      RowEnd(body);
      RowEndCount(body);
    }
  }

  /** Erase-line and CR LF after a row body. */
  lemma RowEnd(body: seq<Token>)
    ensures var row := body + [EraseLine, CrLf];
            |row| >= 2 && row[|row| - 2..] == [EraseLine, CrLf] &&
            Chars(row) == Chars(body) && Marks(row) == Marks(body) + [EraseLine, CrLf]
  {
    var tail := [EraseLine, CrLf];
    TagsOnly(tail);
    CharsAppend(body, tail);
    assert Chars(body) + [] == Chars(body);
  }

  /** A body without CR LF and the row end hold one CR LF. */
  lemma RowEndCount(body: seq<Token>)
    requires CrLf !in Marks(body)
    ensures Count(Marks(body + [EraseLine, CrLf]), CrLf) == 1
  {
    var tail := [EraseLine, CrLf];
    RowEnd(body);
    CountAppend(Marks(body), tail, CrLf);
    assert tail[1..][1..] == [];
    CountAbsent(Marks(body), CrLf);
  }

  /** How often `t` occurs in `ts`. */
  function Count(ts: seq<Token>, t: Token): nat
  {
    if ts == [] then 0 else (if ts[0] == t then 1 else 0) + Count(ts[1..], t)
  }

  lemma {:induction false} CountAppend(a: seq<Token>, b: seq<Token>, t: Token)
    ensures Count(a + b, t) == Count(a, t) + Count(b, t)
  {
    if a != [] {
      assert (a + b)[0] == a[0] && (a + b)[1..] == a[1..] + b;
      CountAppend(a[1..], b, t);
    } else {
      assert a + b == b;
    }
  }

  lemma {:induction false} CountAbsent(a: seq<Token>, t: Token)
    requires t !in a
    ensures Count(a, t) == 0
  {
    if a != [] {
      assert t !in a[1..];
      CountAbsent(a[1..], t);
    }
  }

  /** `window_draw_rows` draws exactly `rows` rows: the screen holds one
      CR LF per row. */
  lemma {:induction false} ScreenRowCount(d: TB.Doc, c: Cursor, cols: nat, pad: nat, prefix: string, ltr: bool, k: nat)
    ensures Count(Marks(Screen(d, c, cols, pad, prefix, ltr, k)), CrLf) == k
  {
    var rows := Rows(d, c, cols, pad, prefix, ltr);
    forall y: nat | y < k
      ensures Count(Marks(rows(y)), CrLf) == 1
    {
      ScreenRowShape(d, c, cols, pad, prefix, ltr, y);
    }
    StackCount(rows, k);
  }

  /** Rows with one CR LF each stack up to as many CR LFs as rows. */
  lemma {:induction false} StackCount(row: nat -> seq<Token>, k: nat)
    requires forall y: nat :: y < k ==> Count(Marks(row(y)), CrLf) == 1
    ensures Count(Marks(Stack(row, k)), CrLf) == k
  {
    if k > 0 {
      StackCount(row, k - 1);
      CountSnoc(Stack(row, k - 1), row(k - 1), k);
    }
  }

  lemma CountSnoc(before: seq<Token>, row: seq<Token>, k: nat)
    requires k >= 1 && Count(Marks(before), CrLf) == k - 1 && Count(Marks(row), CrLf) == 1
    ensures Count(Marks(before + row), CrLf) == k
  {
    CharsAppend(before, row);
    CountAppend(Marks(before), Marks(row), CrLf);
  }

  /** On the cursor's row the visible text and the padding together fill
      the text area exactly, whenever the gutter fits in the window and the
      horizontal scroll does not run past the end of the line. */
  lemma CurrentRowWidth(line: string, lineno: nat, cols: nat, pad: nat, colOff: nat, r: (int, int), active: bool)
    requires colOff <= |line| && pad + 1 <= cols < Wrap + pad + 1
    requires DigitCount(lineno) <= pad
    ensures |Chars(ContentRow(line, Gutter(pad, lineno), true, cols, pad, colOff, r, active))| == cols
  {
    ContentRowChars(line, Gutter(pad, lineno), true, cols, pad, colOff, r, active);
  }
}

/** The kilo-style renderer of src/render.c: tilde rows with the centred
    branding, the inverted status bar and the expiring message bar. Output
    is the byte string appended to the extensible buffer. */
module Render {
  import opened Common

  const ESC: char := 27 as char

  /** `\x1b[K`, erase to the end of the line. */
  function EraseLine(): string { [ESC, '[', 'K'] }

  /** `\x1b[7m`, inverted colours. */
  function Invert(): string { [ESC, '[', '7', 'm'] }

  /** `\x1b[m`, plain colours. */
  function Reset(): string { [ESC, '[', 'm'] }

  const CrLf: string := "\r\n"

  /** The fields of the global editor record `T` that the renderer reads.
      `rows` holds each row's `render` text; `numrows` is its length. */
  datatype Config = Config(
    screenRows: nat,
    screenCols: nat,
    rowOff: nat,
    colOff: nat,
    rows: seq<string>,
    filename: Option<string>,
    dirty: bool,
    cursY: nat,
    statusMsg: string,
    statusMsgTime: int)

  /** `"%s -- v%s"` of `APPNAME` and `APPVERSION`. */
  function Branding(appName: string, appVersion: string): string
  {
    appName + " -- v" + appVersion
  }

  /** The branding row: the branding cut to the screen width, behind
      `(screencols - len) / 2` cells of padding, the first of them a tilde. */
  function BrandRow(brand: string, cols: nat): string
  {
    var n := Min(|brand|, cols);
    var p := (cols - n) / 2;
    (if p > 0 then "~" + Spaces(p - 1) else "") + brand[..n]
  }

  /** The visible part of a buffer row: from `colOff`, at most `cols` cells. */
  function FileRow(render: string, colOff: nat, cols: nat): string
  {
    if colOff >= |render| then "" else render[colOff..colOff + Min(|render| - colOff, cols)]
  }

  /** What screen line `line` shows before the line is erased and ended. */
  function RowBody(c: Config, brand: string, line: nat): string
  {
    var fileRow := line + c.rowOff;
    if fileRow >= |c.rows| then
      if |c.rows| == 0 && line == c.screenRows / 3 then BrandRow(brand, c.screenCols) else "~"
    else FileRow(c.rows[fileRow], c.colOff, c.screenCols)
  }

  function Row(c: Config, brand: string, line: nat): string
  {
    RowBody(c, brand, line) + EraseLine() + CrLf
  }

  /** The first `k` screen lines of `draw_rows`. */
  function Screen(c: Config, brand: string, k: nat): string
  {
    if k == 0 then "" else Screen(c, brand, k - 1) + Row(c, brand, k - 1)
  }

  /** `"%.20s - %d lines %s"`: the file name cut to 20 bytes, or
      `[No Name]`, the line count and the modified mark. */
  function StatusLeft(c: Config): string
  {
    var name := if c.filename.Some? then c.filename.value else "[No Name]";
    name[..Min(|name|, 20)] + " - " + Decimal(|c.rows|) + " lines " + (if c.dirty then "(modified)" else "")
  }

  /** `"%d/%d"`: the cursor's line, counted from one, and the line count. */
  function StatusRight(c: Config): string
  {
    Decimal(c.cursY + 1) + "/" + Decimal(|c.rows|)
  }

  /** The text between the colour switches of the status bar: the left
      status cut to the width, then spaces, then the right status flush
      right when it fits, otherwise spaces to the edge. */
  function BarMiddle(left: string, right: string, cols: nat): string
  {
    var len := Min(|left|, cols);
    if |right| <= cols - len then left[..len] + Spaces(cols - len - |right|) + right
    else left[..len] + Spaces(cols - len)
  }

  function StatsBar(c: Config): string
  {
    Invert() + BarMiddle(StatusLeft(c), StatusRight(c), c.screenCols) + Reset() + CrLf
  }

  /** The message bar: erase the line, then the message cut to the width if
      there is one and it is less than five seconds old at `now`. */
  function MsgBar(c: Config, now: int): string
  {
    var msg := CStr(c.statusMsg);
    var len := Min(|msg|, c.screenCols);
    EraseLine() + (if len > 0 && now - c.statusMsgTime < 5 then msg[..len] else "")
  }

  /** The global record `T`. */
  class Terminal {
    var screenRows: nat
    var screenCols: nat
    var rowOff: nat
    var colOff: nat
    var rows: seq<string>
    var filename: Option<string>
    var dirty: bool
    var cursY: nat
    var statusMsg: string
    var statusMsgTime: int

    constructor (c: Config)
      ensures State() == c
    {
      screenRows, screenCols, rowOff, colOff := c.screenRows, c.screenCols, c.rowOff, c.colOff;
      rows, filename, dirty, cursY := c.rows, c.filename, c.dirty, c.cursY;
      statusMsg, statusMsgTime := c.statusMsg, c.statusMsgTime;
    }

    function State(): Config
      reads this
    {
      Config(screenRows, screenCols, rowOff, colOff, rows, filename, dirty, cursY, statusMsg, statusMsgTime)
    }

    /** `draw_rows`: one line per screen row. */
    method DrawRows(brand: string) returns (out: string)
      requires |brand| < 80
      ensures out == Screen(State(), brand, screenRows)
    {
      out := "";
      var line := 0;
      while line < screenRows
        invariant line <= screenRows
        invariant out == Screen(State(), brand, line)
      {
        var body := DrawRowBody(brand, line);
        assert Screen(State(), brand, line + 1) == out + (body + EraseLine() + CrLf);
        out := out + (body + EraseLine() + CrLf);
        line := line + 1;
      }
    }

    /** One round of the loop of `draw_rows`, before the erase and CR LF. */
    method DrawRowBody(brand: string, line: nat) returns (body: string)
      requires |brand| < 80
      ensures body == RowBody(State(), brand, line)
    {
      var fileRow := line + rowOff;
      if fileRow >= |rows| {
        if |rows| == 0 && line == screenRows / 3 {
          body := DrawBranding(brand, screenCols);
        } else {
          body := "~";
        }
      } else {
        var render := rows[fileRow];
        var len := |render| - colOff;
        if len < 0 {
          len := 0;
        }
        if len > screenCols {
          len := screenCols;
        }
        body := if len == 0 then "" else render[colOff..colOff + len];
      }
    }

    /** `set_stats_msg` with the message already formatted; `now` is the
        clock reading it stores. */
    method SetStatsMsg(msg: string, now: int)
      modifies this
      ensures State() == old(State()).(statusMsg := msg, statusMsgTime := now)
    {
      statusMsg := msg;
      statusMsgTime := now;
    }

    /** `draw_msg_bar` at the clock reading `now`. */
    method DrawMsgBar(now: int) returns (out: string)
      ensures out == MsgBar(State(), now)
    {
      out := EraseLine();
      var msg := CStr(statusMsg);
      var len := |msg|;
      if len > screenCols {
        len := screenCols;
      }
      if len != 0 && now - statusMsgTime < 5 {
        out := out + msg[..len];
      }
    }

    /** `draw_stats_bar`. */
    method DrawStatsBar() returns (out: string)
      ensures out == StatsBar(State())
    {
      out := Invert();
      var status := StatusLeft(State());
      var rstatus := StatusRight(State());
      var mid := FillBar(status, rstatus, screenCols);
      out := out + mid + Reset() + CrLf;
    }
  }

  /** The branding of `draw_rows`: the padding loop, then the branding. */
  method DrawBranding(brand: string, cols: nat) returns (out: string)
    ensures out == BrandRow(brand, cols)
  {
    var len := |brand|;
    if len > cols {
      len := cols;
    }
    var padding := (cols - len) / 2;
    out := "";
    if padding != 0 {
      out := out + "~";
      padding := padding - 1;
    }
    ghost var p := padding;
    while padding > 0
      invariant 0 <= padding <= p
      invariant out == (if (cols - len) / 2 > 0 then "~" else "") + Spaces(p - padding)
    {
      out := out + " ";
      padding := padding - 1;
    }
    out := out + brand[..len];
  }

  /** The truncate-and-pad loop of `draw_stats_bar`. */
  method FillBar(status: string, rstatus: string, cols: nat) returns (out: string)
    ensures out == BarMiddle(status, rstatus, cols)
  {
    var len := |status|;
    if len > cols {
      len := cols;
    }
    out := status[..len];
    ghost var len0 := len;
    while len < cols
      invariant len0 <= len <= cols
      invariant out == status[..len0] + Spaces(len - len0)
      invariant |rstatus| <= cols - len0 ==> len - len0 <= cols - len0 - |rstatus|
    {
      if cols - len == |rstatus| {
        out := out + rstatus;
        return;
      } else {
        out := out + " ";
        len := len + 1;
      }
    }
  }

  /** Every screen line of `draw_rows` ends in erase-line and CR LF, and when
      neither the rows nor the branding hold a line feed the output holds
      exactly one per screen row. */
  lemma {:induction false} ScreenLines(c: Config, brand: string, k: nat)
    requires '\n' !in brand && forall i :: 0 <= i < |c.rows| ==> '\n' !in c.rows[i]
    ensures Occurrences(Screen(c, brand, k), '\n') == k
    ensures k > 0 ==> var out := Screen(c, brand, k);
                      |out| >= 5 && out[|out| - 5..] == EraseLine() + CrLf
  {
    if k > 0 {
      var before := Screen(c, brand, k - 1);
      var row := Row(c, brand, k - 1);
      assert Occurrences(before, '\n') == k - 1 by {
        ScreenLines(c, brand, k - 1);
      }
      assert Occurrences(row, '\n') == 1 && row[|row| - 5..] == EraseLine() + CrLf by {
        BodyNoNewline(c, brand, k - 1);
        RowEnd(RowBody(c, brand, k - 1));
      }
      OccurrencesAppend(before, row, '\n');
      assert (before + row)[|before + row| - 5..] == row[|row| - 5..];
    }
  }

  /** A line ended by erase-line and CR LF. */
  lemma RowEnd(body: string)
    requires '\n' !in body
    ensures var row := body + EraseLine() + CrLf;
            Occurrences(row, '\n') == 1 && |row| >= 5 && row[|row| - 5..] == EraseLine() + CrLf
  {
    OccurrencesAbsent(body, '\n');
    OccurrencesAppend(body, EraseLine() + CrLf, '\n');
    assert body + EraseLine() + CrLf == body + (EraseLine() + CrLf);
    OccurrencesAbsent(EraseLine(), '\n');
    OccurrencesAppend(EraseLine(), CrLf, '\n');
    assert CrLf[1..] == "\n" && "\n"[1..] == [];
  }

  lemma BodyNoNewline(c: Config, brand: string, line: nat)
    requires '\n' !in brand && forall i :: 0 <= i < |c.rows| ==> '\n' !in c.rows[i]
    ensures '\n' !in RowBody(c, brand, line)
  {
    var fileRow := line + c.rowOff;
    if fileRow < |c.rows| {
      var r := c.rows[fileRow];
      assert '\n' !in r;
      if c.colOff < |r| {
        assert forall j :: c.colOff <= j < c.colOff + Min(|r| - c.colOff, c.screenCols) ==> r[j] != '\n';
      }
    } else if |c.rows| == 0 && line == c.screenRows / 3 {
      var n := Min(|brand|, c.screenCols);
      assert forall j :: 0 <= j < n ==> brand[..n][j] == brand[j];
    }
  }

  /** The branding row is centred: `(screencols - len) / 2` cells of padding,
      a tilde first, then the branding cut to the width; the cells to its
      right are as many as those to its left, or one more. */
  lemma BrandRowShape(brand: string, cols: nat)
    ensures var n := Min(|brand|, cols);
            var p := (cols - n) / 2;
            var row := BrandRow(brand, cols);
            |row| == p + n && |row| <= cols &&
            (p > 0 ==> row[0] == '~') && (forall i :: 1 <= i < p ==> row[i] == ' ') &&
            row[p..] == brand[..n] &&
            (cols - |row| == p || cols - |row| == p + 1)
  {
  }

  /** A buffer row shows `render[coloff, coloff + len)` with `len` the row
      length past `coloff`, clamped to `[0, screencols]`. */
  lemma FileRowShape(render: string, colOff: nat, cols: nat)
    ensures var len := Max(0, Min(|render| - colOff, cols));
            var row := FileRow(render, colOff, cols);
            |row| == len && (len > 0 ==> row == render[colOff..colOff + len])
  {
  }

  /** The first `i` screen lines are the start of the first `k`. */
  lemma {:induction false} ScreenPrefix(c: Config, brand: string, i: nat, k: nat)
    requires i <= k
    decreases k
    ensures |Screen(c, brand, i)| <= |Screen(c, brand, k)|
    ensures Screen(c, brand, k)[..|Screen(c, brand, i)|] == Screen(c, brand, i)
  {
    if i == k {
      var s := Screen(c, brand, k);
      assert s[..|s|] == s;
    } else {
      ScreenPrefix(c, brand, i, k - 1);
      PrefixOfAppend(Screen(c, brand, i), Screen(c, brand, k - 1), Row(c, brand, k - 1), Screen(c, brand, k));
    }
  }

  lemma PrefixOfAppend(t: string, s: string, r: string, full: string)
    requires |t| <= |s| && s[..|t|] == t && full == s + r
    ensures |t| <= |full| && full[..|t|] == t
  {
    assert full[..|t|] == s[..|t|];
  }

  /** Which screen lines show what, read off the output of `draw_rows`:
      between the end of line `line - 1` and the end of line `line` lies a
      buffer row when one is left below the scroll offset, the branding on
      line `screenrows / 3` of an empty buffer, and a single tilde
      everywhere else, each followed by erase-line and CR LF. */
  lemma ScreenRowCases(c: Config, brand: string, line: nat, k: nat)
    requires line < k
    ensures var s := Screen(c, brand, k);
            var a := |Screen(c, brand, line)|;
            var b := |Screen(c, brand, line + 1)|;
            a <= b <= |s| &&
            (line + c.rowOff < |c.rows| ==>
              s[a..b] == FileRow(c.rows[line + c.rowOff], c.colOff, c.screenCols) + EraseLine() + CrLf) &&
            (line + c.rowOff >= |c.rows| && !(|c.rows| == 0 && line == c.screenRows / 3) ==>
              s[a..b] == "~" + EraseLine() + CrLf) &&
            (|c.rows| == 0 && line == c.screenRows / 3 ==>
              s[a..b] == BrandRow(brand, c.screenCols) + EraseLine() + CrLf)
  {
    ScreenPrefix(c, brand, line + 1, k);
    SegmentOf(Screen(c, brand, k), Screen(c, brand, line), Row(c, brand, line), Screen(c, brand, line + 1));
    RowCases(c, brand, line);
  }

  /** A prefix `full` of `s` made of `before` and `row` puts `row` right
      after `before` in `s`. */
  lemma SegmentOf(s: string, before: string, row: string, full: string)
    requires full == before + row && |full| <= |s| && s[..|full|] == full
    ensures |before| <= |full| <= |s| && s[|before|..|full|] == row
  {
    assert s[|before|..|full|] == full[|before|..];
  }

  /** Proof helper for `ScreenRowCases`: `Row` by cases, the three kinds
      of screen line with their line end. */
  lemma RowCases(c: Config, brand: string, line: nat)
    ensures line + c.rowOff < |c.rows| ==>
              Row(c, brand, line) == FileRow(c.rows[line + c.rowOff], c.colOff, c.screenCols) + EraseLine() + CrLf
    ensures line + c.rowOff >= |c.rows| && !(|c.rows| == 0 && line == c.screenRows / 3) ==>
              Row(c, brand, line) == "~" + EraseLine() + CrLf
    ensures |c.rows| == 0 && line == c.screenRows / 3 ==>
              Row(c, brand, line) == BrandRow(brand, c.screenCols) + EraseLine() + CrLf
  {
  }

  /** The status bar is exactly `screencols` wide between the colour
      switches. It starts with the left status cut to the width and ends
      with the right status exactly when that fits after it; otherwise it
      ends in spaces. */
  lemma BarMiddleShape(left: string, right: string, cols: nat)
    ensures var len := Min(|left|, cols);
            var mid := BarMiddle(left, right, cols);
            |mid| == cols && mid[..len] == left[..len] &&
            (|right| <= cols - len ==> mid[cols - |right|..] == right) &&
            (forall i :: len <= i < cols - (if |right| <= cols - len then |right| else 0) ==> mid[i] == ' ')
  {
    var len := Min(|left|, cols);
    var mid := BarMiddle(left, right, cols);
    if |right| <= cols - len {
      assert mid == left[..len] + Spaces(cols - len - |right|) + right;
    } else {
      assert mid == left[..len] + Spaces(cols - len);
    }
  }

  /** The whole status bar: inverted, `screencols` cells, reset, CR LF. */
  lemma StatsBarShape(c: Config)
    ensures var bar := StatsBar(c);
            |bar| == |Invert()| + c.screenCols + |Reset()| + 2 &&
            bar[..4] == Invert() && bar[|bar| - 5..] == Reset() + CrLf
  {
    BarMiddleShape(StatusLeft(c), StatusRight(c), c.screenCols);
  }

  /** The message bar always starts by erasing the line. It shows the
      message only when it is non-empty and less than five seconds old,
      and never more than `screencols` of it. */
  lemma MsgBarShape(c: Config, now: int)
    ensures var bar := MsgBar(c, now);
            var msg := CStr(c.statusMsg);
            bar[..3] == EraseLine() && |bar| <= 3 + c.screenCols &&
            (bar == EraseLine() <==> msg == [] || c.screenCols == 0 || now - c.statusMsgTime >= 5) &&
            (bar != EraseLine() ==> bar[3..] == msg[..Min(|msg|, c.screenCols)])
  {
  }
}

/** The editing operations of src/editor.c over the abstract buffer of
    `TextBuffer`. The global `editor` record becomes an object whose methods
    change its buffer `r` and cursor `curs` in place; what each call does to
    the document is stated once, as a lemma about the buffer, and the
    methods are proved against those. */
module Editor {
  import opened Common
  import opened Cursor
  import TB = TextBuffer

  /** DEFAULT_LNPAD of include/window.h: the initial `render_x`. */
  const DefaultLnPad: nat := 3

  /** The string `editor_insert_char` means to build: `c` followed by the
      terminating NUL, read as a C string, which is empty when `c` is NUL. */
  function CharText(c: char): (s: string)
    ensures s == CStr([c, '\0'])
  {
    if c == '\0' then [] else [c]
  }

  /** Inserting a character other than a newline splices it into line `y`
      at column `x`; no other line changes and the line count stays. */
  lemma InsertCharEffect(d: TB.Doc, x: nat, y: nat, c: char)
    requires TB.ValidDoc(d) && y < |d| && x <= |d[y]| && c != '\n'
    ensures TB.Apply(d, TB.Ins(x, y, CharText(c))) == d[y := d[y][..x] + CharText(c) + d[y][x..]]
  {
    if c == '\0' {
      assert TB.SplitLines(CharText(c)) == [[]];
    } else {
      TB.SplitCons(c, []);
    }
    TB.InsertWithinLine(d, x, y, CharText(c));
  }

  /** Inserting a newline cuts line `y` at column `x` into two lines. */
  lemma NewlineEffect(d: TB.Doc, x: nat, y: nat)
    requires TB.ValidDoc(d) && y < |d| && x <= |d[y]|
    ensures TB.Apply(d, TB.Ins(x, y, "\n")) == d[..y] + [d[y][..x], d[y][x..]] + d[y + 1..]
  {
    var p := TB.SplitLines("\n");
    assert p == [[], []];
    TB.InsertAcrossLines(d, x, y, "\n");
    var pre, suf := d[y][..x], d[y][x..];
    assert p[1..|p| - 1] == [] && pre + p[0] == pre && p[|p| - 1] + suf == suf;
    assert d[..y] + [pre] + [] + [suf] + d[y + 1..] == d[..y] + [pre, suf] + d[y + 1..];
  }

  /** The journal entries of `editor_delete_line_before_x` after `k` rounds
      of its loop on a cursor at column `x0` of line `y`: the deletes at
      columns `x0 - 1`, `x0 - 2`, ... `x0 - k`. */
  function BackspaceRun(line: TB.Line, x0: nat, y: nat, k: nat): (es: seq<TB.Edit>)
    requires k <= x0 <= |line|
    ensures |es| == k
    ensures forall j :: 0 <= j < k ==> es[j] == TB.Del(x0 - 1 - j, y, line[x0 - 1 - j])
  {
    seq(k, j requires 0 <= j < k => TB.Del(x0 - 1 - j, y, line[x0 - 1 - j]))
  }

  /** The same snapshot once per journal entry. */
  function Repeat(snap: Option<Coords>, k: nat): (s: seq<Option<Coords>>)
    ensures |s| == k && forall j :: 0 <= j < k ==> s[j] == snap
  {
    seq(k, _ => snap)
  }

  /** `k` rounds of the loop delete exactly the `k` characters left of
      column `x0` and leave every other line alone. */
  lemma {:induction false} BackspaceRunEffect(d: TB.Doc, x0: nat, y: nat, k: nat)
    requires TB.ValidDoc(d) && y < |d| && k <= x0 <= |d[y]|
    ensures TB.ApplyAll(d, BackspaceRun(d[y], x0, y, k)) == Some(d[y := d[y][..x0 - k] + d[y][x0..]])
    decreases k
  {
    var es := BackspaceRun(d[y], x0, y, k);
    if k == 0 {
      assert es == [];
      assert d[y][..x0] + d[y][x0..] == d[y];
      assert d[y := d[y]] == d;
    } else {
      assert es[..k - 1] == BackspaceRun(d[y], x0, y, k - 1);
      BackspaceRunEffect(d, x0, y, k - 1);
      var m := d[y := d[y][..x0 - (k - 1)] + d[y][x0..]];
      var l := m[y];
      assert l[x0 - k] == d[y][x0 - k];
      assert TB.Applicable(m, es[k - 1]);
      assert l[..x0 - k] == d[y][..x0 - k] && l[x0 - k + 1..] == d[y][x0..];
      assert TB.ApplyAll(d, es) == Some(m[y := l[..x0 - k] + l[x0 - k + 1..]]);
      assert m[y := d[y][..x0 - k] + d[y][x0..]] == d[y := d[y][..x0 - k] + d[y][x0..]];
    }
  }

  /** One more round appends one delete to the run. */
  lemma BackspaceRunSnoc(line: TB.Line, x0: nat, y: nat, k: nat)
    requires k < x0 <= |line|
    ensures BackspaceRun(line, x0, y, k + 1) == BackspaceRun(line, x0, y, k) + [TB.Del(x0 - 1 - k, y, line[x0 - 1 - k])]
  {
    var a, b := BackspaceRun(line, x0, y, k + 1), BackspaceRun(line, x0, y, k) + [TB.Del(x0 - 1 - k, y, line[x0 - 1 - k])];
    assert |a| == |b|;
    forall j | 0 <= j < |a| ensures a[j] == b[j] {
      if j < k { assert b[j] == BackspaceRun(line, x0, y, k)[j]; }
    }
  }

  /** One delete of the character at column `x` of row `y`, journalled with
      the snapshot `snap`: the row loses exactly that character. */
  function DeleteAt(h: TB.History, x: nat, y: nat, snap: Option<Coords>, joins: (TB.Edit, TB.Edit) -> bool): (r: TB.History)
    requires TB.HistoryValid(h) && y < |h.doc| && x < |h.doc[y]|
    ensures TB.HistoryValid(r) && r.doc == h.doc[y := h.doc[y][..x] + h.doc[y][x + 1..]]
  {
    TB.DeleteEffect(h.doc, x, y);
    TB.Record(h, TB.DeleteEdit(h.doc, x, y), snap, joins)
  }

  /** The `-1` delete at the start of row `y`, journalled with `snap`: row
      `y` is appended to row `y - 1` and the rows below move up by one. */
  function JoinAt(h: TB.History, y: nat, snap: Option<Coords>, joins: (TB.Edit, TB.Edit) -> bool): (r: TB.History)
    requires TB.HistoryValid(h) && 1 <= y < |h.doc|
    ensures TB.HistoryValid(r) && |r.doc| == |h.doc| - 1
    ensures r.doc[y - 1] == h.doc[y - 1] + h.doc[y]
    ensures r.doc[..y - 1] == h.doc[..y - 1] && r.doc[y..] == h.doc[y + 1..]
  {
    TB.DeleteEffect(h.doc, -1, y);
    TB.Record(h, TB.DeleteEdit(h.doc, -1, y), snap, joins)
  }

  /** The buffer after `k` rounds of the loop of `editor_delete_line_before_x`
      on a cursor at column `x0` of row `y`: the deletes of `BackspaceRun`
      journalled one after the other, each with the snapshot `snap`. The
      first `k` characters left of `x0` are gone. */
  function Cleared(h: TB.History, x0: nat, y: nat, snap: Option<Coords>, joins: (TB.Edit, TB.Edit) -> bool, k: nat): (r: TB.History)
    requires TB.HistoryValid(h) && y < |h.doc| && k <= x0 <= |h.doc[y]|
    ensures TB.HistoryValid(r) && r.doc == h.doc[y := h.doc[y][..x0 - k] + h.doc[y][x0..]]
  {
    BackspaceRunEffect(h.doc, x0, y, k);
    TB.RecordSeq(h, BackspaceRun(h.doc[y], x0, y, k), Repeat(snap, k), joins)
  }

  /** One round of the loop, the one that deletes column `x` after `k`
      earlier rounds, is one more `DeleteAt`. */
  lemma ClearedStep(h: TB.History, x0: nat, y: nat, snap: Option<Coords>, joins: (TB.Edit, TB.Edit) -> bool, k: nat, x: nat)
    requires TB.HistoryValid(h) && y < |h.doc| && x + k + 1 == x0 <= |h.doc[y]|
    ensures var p := Cleared(h, x0, y, snap, joins, k);
            x < |p.doc[y]| &&
            Cleared(h, x0, y, snap, joins, k + 1) == DeleteAt(p, x, y, snap, joins)
  {
    var line := h.doc[y];
    var es, ss := BackspaceRun(line, x0, y, k), Repeat(snap, k);
    var e := TB.Del(x, y, line[x]);
    BackspaceRunSnoc(line, x0, y, k);
    assert BackspaceRun(line, x0, y, k + 1) == es + [e];
    assert Repeat(snap, k + 1) == ss + [snap];
    BackspaceRunEffect(h.doc, x0, y, k + 1);
    TB.RecordSeqSnoc(h, es, ss, e, snap, joins);
    var p := Cleared(h, x0, y, snap, joins, k);
    assert p.doc[y][x] == line[x];
    assert TB.DeleteEdit(p.doc, x, y) == e;
  }

  /** The whole loop removes the first `x0` characters of row `y`; with
      nothing to the left of the cursor it changes nothing. */
  lemma ClearedEffect(h: TB.History, x0: nat, y: nat, snap: Option<Coords>, joins: (TB.Edit, TB.Edit) -> bool)
    requires TB.HistoryValid(h) && y < |h.doc| && x0 <= |h.doc[y]|
    ensures Cleared(h, x0, y, snap, joins, x0).doc == h.doc[y := h.doc[y][x0..]]
    ensures x0 == 0 ==> Cleared(h, x0, y, snap, joins, x0) == h
  {
    assert h.doc[y][..0] + h.doc[y][x0..] == h.doc[y][x0..];
    if x0 == 0 {
      assert BackspaceRun(h.doc[y], x0, y, 0) == [];
    }
  }

  /** The loop of `editor_delete_line_before_x` on the buffer: from column
      `x0` down to column 0, delete the character left of the position,
      journalling every delete with the snapshot `snap` taken on entry. */
  method ClearBeforeX(h0: TB.History, x0: nat, y: nat, snap: Option<Coords>, joins: (TB.Edit, TB.Edit) -> bool)
      returns (h: TB.History)
    requires TB.HistoryValid(h0) && y < |h0.doc| && x0 <= |h0.doc[y]|
    ensures h == Cleared(h0, x0, y, snap, joins, x0)
  {
    var x := x0;
    h := h0;
    ghost var k := 0;
    while x != 0
      invariant x + k == x0
      invariant h == Cleared(h0, x0, y, snap, joins, k)
      decreases x
    {
      x := x - 1;
      ClearedStep(h0, x0, y, snap, joins, k, x);
      k := k + 1;
      h := DeleteAt(h, x, y, snap, joins);
    }
  }

  class EditorState {
    /** The line buffer with its undo and redo stacks (`editor.r`). */
    var r: TB.History
    /** `editor.curs`. */
    var curs: Cursor
    /** The undo-grouping rule of the buffer library: whether an edit joins
        the group of the edit journalled just before it. */
    const joins: (TB.Edit, TB.Edit) -> bool

    ghost predicate Valid()
      reads this
    {
      TB.HistoryValid(r)
    }

    function Lines(): TB.Doc
      reads this
    {
      r.doc
    }

    /** The position every buffer call is made at exists in the buffer. */
    predicate CursorInDoc()
      reads this
    {
      curs.y < |r.doc| && curs.x <= |r.doc[curs.y]|
    }

    /** `cursor_create_copy`, as far as the buffer keeps it. */
    function Snapshot(): Option<Coords>
      reads this
    {
      Some(Position(curs))
    }

    /** `editor_init` without the terminal: a cursor at the origin and a
        buffer holding one empty line, into which the empty string has been
        journalled. */
    constructor Init(joins: (TB.Edit, TB.Edit) -> bool)
      ensures Valid() && CursorInDoc() && this.joins == joins
      ensures Lines() == [[]]
      ensures curs == Initial(DefaultLnPad)
      ensures |r.undo| == 1 && r.redo == []
    {
      this.joins := joins;
      var h := TB.Empty();
      TB.InsertWithinLine(h.doc, 0, 0, "");
      r := TB.Record(h, TB.Ins(0, 0, ""), Some(Coords(0, 0)), joins);
      curs := Initial(DefaultLnPad);
    }

    /** `editor_insert`: insert `s` at the cursor, which does not move. */
    method Insert(s: string)
      requires Valid() && CursorInDoc()
      modifies this
      ensures Valid()
      ensures r == TB.Record(old(r), TB.Ins(old(curs.x), old(curs.y), s), old(Snapshot()), joins)
      ensures curs == old(curs)
    {
      r := TB.Record(r, TB.Ins(curs.x, curs.y, s), Snapshot(), joins);
    }

    /** `editor_insert_char`: `c` lands at column x of line y and only x
        moves, one to the right. */
    method InsertChar(c: char)
      requires Valid() && CursorInDoc()
      modifies this
      ensures Valid()
      ensures r == TB.Record(old(r), TB.Ins(old(curs.x), old(curs.y), CharText(c)), old(Snapshot()), joins)
      ensures curs == old(curs).(x := old(curs.x) + 1)
      ensures c != '\n' ==> Lines() == old(Lines()[curs.y := Lines()[curs.y][..curs.x] + CharText(c) + Lines()[curs.y][curs.x..]])
    {
      if c != '\n' {
        InsertCharEffect(r.doc, curs.x, curs.y, c);
      }
      r := TB.Record(r, TB.Ins(curs.x, curs.y, CharText(c)), Snapshot(), joins);
      curs := curs.(x := curs.x + 1);
    }

    /** `editor_insert_newline`: line y is cut at x; its head stays on row y,
        its tail becomes row y + 1, and the cursor goes to the start of it. */
    method InsertNewline()
      requires Valid() && CursorInDoc()
      modifies this
      ensures Valid() && CursorInDoc()
      ensures r == TB.Record(old(r), TB.Ins(old(curs.x), old(curs.y), "\n"), old(Snapshot()), joins)
      ensures curs == old(curs).(x := 0, y := old(curs.y) + 1)
      ensures Lines() == old(Lines()[..curs.y] + [Lines()[curs.y][..curs.x], Lines()[curs.y][curs.x..]] + Lines()[curs.y + 1..])
    {
      NewlineEffect(r.doc, curs.x, curs.y);
      r := TB.Record(r, TB.Ins(curs.x, curs.y, "\n"), Snapshot(), joins);
      curs := curs.(y := curs.y + 1);
      curs := curs.(x := 0);
    }

    /** `editor_delete_char` (backspace). At the origin nothing happens.
        Otherwise the character left of the cursor goes, or, at the start of
        a row, the row is appended to the one above with the `-1` sentinel
        and the cursor lands where the two were joined. */
    method DeleteChar()
      requires Valid() && CursorInDoc()
      modifies this
      ensures Valid() && CursorInDoc()
      ensures old(curs.x) == 0 && old(curs.y) == 0 ==> r == old(r) && curs == old(curs)
      ensures old(curs.x) > 0 ==>
                r == DeleteAt(old(r), old(curs.x) - 1, old(curs.y), old(Snapshot()), joins) &&
                curs == old(curs).(x := old(curs.x) - 1)
      ensures old(curs.x) == 0 && old(curs.y) > 0 ==>
                r == JoinAt(old(r), old(curs.y), old(Snapshot()), joins) &&
                curs == old(curs).(x := old(|Lines()[curs.y - 1]|), y := old(curs.y) - 1)
    {
      if curs.x == 0 && curs.y == 0 {
        return;
      }
      var snap := Snapshot();
      if curs.x != 0 {
        var h := DeleteAt(r, curs.x - 1, curs.y, snap, joins);
        assert curs.x - 1 <= |h.doc[curs.y]|;
        r, curs := h, curs.(x := curs.x - 1);
      } else {
        var rowLength := |r.doc[curs.y - 1]|;
        var h := JoinAt(r, curs.y, snap, joins);
        assert rowLength <= |h.doc[curs.y - 1]|;
        r, curs := h, curs.(x := rowLength, y := curs.y - 1);
      }
    }

    /** `editor_delete_line_before_x`: every character left of the cursor is
        deleted, right to left, each delete journalled with the one snapshot
        taken on entry; the cursor ends at the start of the same row. */
    method DeleteLineBeforeX()
      requires Valid() && CursorInDoc()
      modifies this
      ensures Valid() && CursorInDoc()
      ensures r == Cleared(old(r), old(curs.x), old(curs.y), old(Snapshot()), joins, old(curs.x))
      ensures curs == old(curs).(x := 0)
    {
      r := ClearBeforeX(r, curs.x, curs.y, Snapshot(), joins);
      curs := curs.(x := 0);
    }

    /** `editor_undo`: the buffer reverts its top group; when that group has
        a snapshot, only its x and y are copied into the cursor. */
    method Undo()
      requires Valid()
      modifies this
      ensures Valid()
      ensures r == TB.Undo(old(r)).0
      ensures var snap := TB.Undo(old(r)).1;
              curs == if snap.Some? then old(curs).(x := snap.value.x, y := snap.value.y) else old(curs)
    {
      var (h, oldCurs) := TB.Undo(r);
      r := h;
      if oldCurs.Some? {
        curs := curs.(x := oldCurs.value.x);
        curs := curs.(y := oldCurs.value.y);
      }
    }

    /** `editor_redo`, the mirror of `Undo`. */
    method Redo()
      requires Valid()
      modifies this
      ensures Valid()
      ensures r == TB.Redo(old(r)).0
      ensures var snap := TB.Redo(old(r)).1;
              curs == if snap.Some? then old(curs).(x := snap.value.x, y := snap.value.y) else old(curs)
    {
      var (h, oldCurs) := TB.Redo(r);
      r := h;
      if oldCurs.Some? {
        curs := curs.(x := oldCurs.value.x);
        curs := curs.(y := oldCurs.value.y);
      }
    }
  }

  /** Typing a character that starts a new undo group and undoing it gives
      back the document and the cursor position from before. */
  method TypeThenUndo(ed: EditorState, c: char)
    requires ed.Valid() && ed.CursorInDoc()
    requires !TB.JoinsTop(ed.r, TB.Ins(ed.curs.x, ed.curs.y, CharText(c)), ed.joins)
    modifies ed
    ensures ed.Valid()
    ensures ed.Lines() == old(ed.Lines()) && Position(ed.curs) == Position(old(ed.curs))
    ensures ed.r.undo == old(ed.r.undo)
  {
    TB.UndoRecord(ed.r, TB.Ins(ed.curs.x, ed.curs.y, CharText(c)), ed.Snapshot(), ed.joins);
    ed.InsertChar(c);
    ed.Undo();
  }

  /** Backspaces never empty the buffer: from any valid state, any number of
      them leaves at least one line. */
  method Backspaces(ed: EditorState, n: nat)
    requires ed.Valid() && ed.CursorInDoc()
    modifies ed
    ensures ed.Valid() && ed.CursorInDoc() && |ed.Lines()| >= 1
  {
    var i := 0;
    while i < n
      invariant ed.Valid() && ed.CursorInDoc()
    {
      ed.DeleteChar();
      i := i + 1;
    }
  }
}

/** The line buffer with its undo/redo journal (libutil's `render_state_*`,
    whose code is not part of this model), described by what editor.c and
    the regression scenarios rely on:
    - the document is a non-empty sequence of lines without newlines;
    - `insert(x, y, s)` splices `s` into line `y` at column `x`, splitting it
      on every `'\n'` of `s`;
    - `delete(x, y)` removes column `x` of line `y`; `x == -1` joins line `y`
      onto line `y - 1`;
    - every change is journalled with an optional cursor snapshot; a change
      either opens a new undo group or extends the top one, as decided by a
      grouping rule `joins` that is a parameter of the model (libutil's own
      rule is not visible);
    - undo reverts the top group and hands back its snapshot, redo replays it;
      any fresh change empties the redo stack. */
module TextBuffer {
  import opened Common
  import opened Cursor

  type Line = seq<char>
  type Doc = seq<Line>

  predicate NoNewline(l: Line) { forall i :: 0 <= i < |l| ==> l[i] != '\n' }

  /** The document invariant: at least one line, and no line holds a newline. */
  predicate ValidDoc(d: Doc) { |d| >= 1 && forall y :: 0 <= y < |d| ==> NoNewline(d[y]) }

  function NewlineCount(s: string): nat
  {
    if s == [] then 0 else (if s[0] == '\n' then 1 else 0) + NewlineCount(s[1..])
  }

  lemma {:induction false} NewlineCountAppend(a: string, b: string)
    ensures NewlineCount(a + b) == NewlineCount(a) + NewlineCount(b)
  {
    if a != [] {
      assert (a + b)[0] == a[0];
      assert (a + b)[1..] == a[1..] + b;
      NewlineCountAppend(a[1..], b);
    } else {
      assert a + b == b;
    }
  }

  lemma {:induction false} NoNewlineCount(l: Line)
    requires NoNewline(l)
    ensures NewlineCount(l) == 0
  {
    if l != [] {
      assert l[0] != '\n';
      assert NoNewline(l[1..]) by {
        forall i | 0 <= i < |l| - 1 ensures l[1..][i] != '\n' {
          assert l[1..][i] == l[i + 1];
        }
      }
      NoNewlineCount(l[1..]);
    }
  }

  /** Cutting a text at every newline. */
  function SplitLines(s: string): (r: seq<Line>)
    ensures |r| == NewlineCount(s) + 1
    ensures forall i :: 0 <= i < |r| ==> NoNewline(r[i])
  {
    if s == [] then [[]]
    else if s[0] == '\n' then [[]] + SplitLines(s[1..])
    else
      var t := SplitLines(s[1..]);
      assert NoNewline(t[0]);
      [[s[0]] + t[0]] + t[1..]
  }

  /** Gluing lines back together with newlines: the inverse of `SplitLines`. */
  function JoinLines(ls: seq<Line>): string
    requires |ls| >= 1
  {
    if |ls| == 1 then ls[0] else ls[0] + "\n" + JoinLines(ls[1..])
  }

  lemma {:induction false} JoinSplit(s: string)
    ensures JoinLines(SplitLines(s)) == s
  {
    if s != [] {
      JoinSplit(s[1..]);
      if s[0] != '\n' {
        var t := SplitLines(s[1..]);
        if |t| > 1 {
          assert ([[s[0]] + t[0]] + t[1..])[1..] == t[1..];
        }
      }
    }
  }

  /** A leading newline-free piece lands on the first line. */
  lemma {:induction false} SplitPrefix(a: Line, rest: string)
    requires NoNewline(a)
    ensures var t := SplitLines(rest);
            SplitLines(a + rest) == [a + t[0]] + t[1..]
  {
    if a != [] {
      assert (a + rest)[0] == a[0] && a[0] != '\n';
      assert (a + rest)[1..] == a[1..] + rest;
      assert NoNewline(a[1..]) by {
        forall i | 0 <= i < |a| - 1 ensures a[1..][i] != '\n' {
          assert a[1..][i] == a[i + 1];
        }
      }
      SplitPrefix(a[1..], rest);
      var t := SplitLines(rest);
      var t1 := SplitLines(a[1..] + rest);
      assert t1 == [a[1..] + t[0]] + t[1..];
      assert t1[0] == a[1..] + t[0] && t1[1..] == t[1..];
      assert SplitLines(a + rest) == [[a[0]] + t1[0]] + t1[1..];
      assert [a[0]] + (a[1..] + t[0]) == a + t[0];
    } else {
      var t := SplitLines(rest);
      assert a + rest == rest;
      assert a + t[0] == t[0];
      assert [t[0]] + t[1..] == t;
    }
  }

  /** One character in front of a text: a newline opens a new first line,
      anything else is prepended to the first line. */
  lemma SplitCons(c: char, s: string)
    ensures var t := SplitLines(s);
            SplitLines([c] + s) == if c == '\n' then [[]] + t else [[c] + t[0]] + t[1..]
  {
    assert ([c] + s)[0] == c;
    assert ([c] + s)[1..] == s;
  }

  /** Sequence bookkeeping for `SplitSuffix` when the text starts with a
      newline-free character `h`. */
  lemma ExtendFirstLast(h: Line, q: seq<Line>, b: Line)
    requires |q| >= 1
    ensures var m := |q| - 1;
            var r := q[..m] + [q[m] + b];
            var p := [h + q[0]] + q[1..];
            [h + r[0]] + r[1..] == p[..|p| - 1] + [p[|p| - 1] + b]
  {
    var m := |q| - 1;
    var r := q[..m] + [q[m] + b];
    var p := [h + q[0]] + q[1..];
    if m == 0 {
      assert r == [q[0] + b];
      assert p == [h + q[0]];
      assert (h + q[0]) + b == h + (q[0] + b);
    } else {
      assert r[0] == q[0];
      assert r[1..] == q[1..m] + [q[m] + b];
      assert p[..|p| - 1] == [h + q[0]] + q[1..m];
      assert p[|p| - 1] == q[m];
    }
  }

  /** Sequence bookkeeping for `SplitSuffix` when the text starts with a newline. */
  lemma ExtendLastAfterEmpty(q: seq<Line>, b: Line)
    requires |q| >= 1
    ensures var m := |q| - 1;
            var p := [[]] + q;
            [[]] + (q[..m] + [q[m] + b]) == p[..|p| - 1] + [p[|p| - 1] + b]
  {
    var p: seq<Line> := [[]] + q;
    assert p[..|p| - 1] == [[]] + q[..|q| - 1];
  }

  /** A trailing newline-free piece lands on the last line. */
  lemma {:induction false} SplitSuffix(s: string, b: Line)
    requires NoNewline(b)
    ensures var p := SplitLines(s);
            SplitLines(s + b) == p[..|p| - 1] + [p[|p| - 1] + b]
  {
    if s == [] {
      SplitPrefix(b, []);
      assert b + [] == b;
      assert s + b == b;
    } else {
      var c, s' := s[0], s[1..];
      assert s == [c] + s';
      assert s + b == [c] + (s' + b);
      SplitSuffix(s', b);
      SplitCons(c, s');
      SplitCons(c, s' + b);
      var q := SplitLines(s');
      if c == '\n' {
        ExtendLastAfterEmpty(q, b);
      } else {
        ExtendFirstLast([c], q, b);
      }
    }
  }

  lemma {:induction false} SplitJoin(ls: seq<Line>)
    requires |ls| >= 1
    requires forall i :: 0 <= i < |ls| ==> NoNewline(ls[i])
    ensures SplitLines(JoinLines(ls)) == ls
  {
    if |ls| == 1 {
      SplitPrefix(ls[0], []);
      assert ls[0] + [] == ls[0];
    } else {
      SplitJoin(ls[1..]);
      var rest := "\n" + JoinLines(ls[1..]);
      assert ls[0] + "\n" + JoinLines(ls[1..]) == ls[0] + rest;
      SplitPrefix(ls[0], rest);
      assert rest[0] == '\n';
      assert rest[1..] == JoinLines(ls[1..]);
      assert SplitLines(rest) == [[]] + ls[1..];
      assert ls[0] + [] == ls[0];
      assert [ls[0]] + ls[1..] == ls;
    }
  }

  /** `render_state_insert(x, y, s)`: the text of line `y` around column `x`
      receives `s` and is cut again at its newlines. */
  function InsertText(d: Doc, x: nat, y: nat, s: string): Doc
    requires y < |d| && x <= |d[y]|
  {
    d[..y] + SplitLines(d[y][..x] + s + d[y][x..]) + d[y + 1..]
  }

  /** Splitting `s` with newline-free text on both sides: the outer pieces
      stick to the first and the last segment of `s`. */
  lemma SplitAround(pre: Line, s: string, suf: Line)
    requires NoNewline(pre) && NoNewline(suf)
    ensures var p := SplitLines(s);
            (|p| == 1 ==> SplitLines(pre + s + suf) == [pre + s + suf]) &&
            (|p| > 1 ==> SplitLines(pre + s + suf) == [pre + p[0]] + p[1..|p| - 1] + [p[|p| - 1] + suf])
  {
    var p := SplitLines(s);
    var t := SplitLines(s + suf);
    assert t == p[..|p| - 1] + [p[|p| - 1] + suf] by {
      SplitSuffix(s, suf);
    }
    assert SplitLines(pre + s + suf) == [pre + t[0]] + t[1..] by {
      Assoc(pre, s, suf);
      SplitPrefix(pre, s + suf);
    }
    if |p| == 1 {
      assert p[0] == s by {
        JoinSplit(s);
      }
      assert p[..0] == [];
      assert t == [s + suf];
      Assoc(pre, s, suf);
    } else {
      assert t[0] == p[0];
      TailSnoc(p[..|p| - 1], p[|p| - 1] + suf);
      assert p[..|p| - 1][1..] == p[1..|p| - 1];
    }
  }

  /** Dropping the head of a non-empty sequence with one more element. */
  lemma TailSnoc<T>(a: seq<T>, x: T)
    requires |a| >= 1
    ensures (a + [x])[1..] == a[1..] + [x]
  {
  }

  lemma Assoc<T>(a: seq<T>, b: seq<T>, c: seq<T>)
    ensures a + b + c == a + (b + c)
  {
  }

  lemma Reassociate<T>(u: seq<T>, a: seq<T>, b: seq<T>, c: seq<T>, v: seq<T>)
    ensures u + (a + b + c) + v == u + a + b + c + v
  {
  }

  /** An insert adds one line per newline of the inserted text. */
  lemma InsertLength(d: Doc, x: nat, y: nat, s: string)
    requires ValidDoc(d) && y < |d| && x <= |d[y]|
    ensures |InsertText(d, x, y, s)| == |d| + NewlineCount(s)
  {
    var pre, suf := d[y][..x], d[y][x..];
    assert d[y] == pre + suf;
    assert NoNewline(d[y]);
    assert NoNewline(pre) && NoNewline(suf);
    NewlineCountAppend(pre + s, suf);
    NewlineCountAppend(pre, s);
    NoNewlineCount(pre);
    NoNewlineCount(suf);
  }

  /** Text without a newline is spliced into line `y` and nothing else changes. */
  lemma InsertWithinLine(d: Doc, x: nat, y: nat, s: string)
    requires ValidDoc(d) && y < |d| && x <= |d[y]| && |SplitLines(s)| == 1
    ensures InsertText(d, x, y, s) == d[y := d[y][..x] + s + d[y][x..]]
  {
    var pre, suf := d[y][..x], d[y][x..];
    assert NoNewline(pre) && NoNewline(suf) by {
      NoNewlineParts(d[y], x);
    }
    assert SplitLines(pre + s + suf) == [pre + s + suf] by {
      SplitAround(pre, s, suf);
    }
    Splice(d, y, pre + s + suf);
  }

  /** Both sides of a cut through a line are lines. */
  lemma NoNewlineParts(l: Line, x: nat)
    requires NoNewline(l) && x <= |l|
    ensures NoNewline(l[..x]) && NoNewline(l[x..])
  {
    assert forall i :: 0 <= i < |l| - x ==> l[x..][i] == l[x + i];
  }

  /** Replacing one line by a one-line slice. */
  lemma Splice(d: Doc, y: nat, l: Line)
    requires y < |d|
    ensures d[..y] + [l] + d[y + 1..] == d[y := l]
  {
  }

  /** Text with newlines: its first segment ends line `y`, each further
      segment becomes a new line, and the rest of line `y` is attached to the
      last one. */
  lemma InsertAcrossLines(d: Doc, x: nat, y: nat, s: string)
    requires ValidDoc(d) && y < |d| && x <= |d[y]| && |SplitLines(s)| > 1
    ensures var p := SplitLines(s);
            InsertText(d, x, y, s) ==
              d[..y] + [d[y][..x] + p[0]] + p[1..|p| - 1] + [p[|p| - 1] + d[y][x..]] + d[y + 1..]
  {
    var p := SplitLines(s);
    var pre, suf := d[y][..x], d[y][x..];
    assert d[y] == pre + suf;
    assert NoNewline(d[y]);
    assert NoNewline(pre) && NoNewline(suf);
    SplitAround(pre, s, suf);
    var a, b, c := [pre + p[0]], p[1..|p| - 1], [p[|p| - 1] + suf];
    assert SplitLines(pre + s + suf) == a + b + c;
    Reassociate(d[..y], a, b, c, d[y + 1..]);
  }

  /** One journalled change, carrying what its inverse needs. */
  datatype Edit =
    | Ins(x: nat, y: nat, text: string)   // render_state_insert(x, y, text)
    | Del(x: nat, y: nat, ch: char)       // render_state_delete(x, y), x >= 0; `ch` is the removed character
    | Join(y: nat, at: nat)               // render_state_delete(-1, y); `at` is the old length of line y-1

  predicate Applicable(d: Doc, e: Edit)
  {
    ValidDoc(d) &&
    match e
    case Ins(x, y, _) => y < |d| && x <= |d[y]|
    case Del(x, y, ch) => y < |d| && x < |d[y]| && d[y][x] == ch
    case Join(y, at) => 1 <= y < |d| && at == |d[y - 1]|
  }

  function Apply(d: Doc, e: Edit): (r: Doc)
    requires Applicable(d, e)
    ensures ValidDoc(r)
  {
    match e
    case Ins(x, y, s) =>
      var r := InsertText(d, x, y, s);
      assert forall i :: 0 <= i < |r| ==> NoNewline(r[i]) by {
        var p := SplitLines(d[y][..x] + s + d[y][x..]);
        forall i | 0 <= i < |r| ensures NoNewline(r[i]) {
          if i < y { assert r[i] == d[i]; }
          else if i < y + |p| { assert r[i] == p[i - y]; }
          else { assert r[i] == d[i - |p| + 1]; }
        }
      }
      r
    case Del(x, y, _) =>
      var l := d[y][..x] + d[y][x + 1..];
      assert NoNewline(d[y]);
      d[y := l]
    case Join(y, _) =>
      var r := d[..y - 1] + [d[y - 1] + d[y]] + d[y + 1..];
      assert forall i :: 0 <= i < |r| ==> NoNewline(r[i]) by {
        forall i | 0 <= i < |r| ensures NoNewline(r[i]) {
          if i < y - 1 { assert r[i] == d[i]; }
          else if i == y - 1 { assert NoNewline(d[y - 1]) && NoNewline(d[y]); }
          else { assert r[i] == d[i + 1]; }
        }
      }
      r
  }

  /** `render_state_delete(x, y)` as editor.c calls it: the entry it journals.
      `x == -1` is the sentinel joining line `y` onto line `y - 1`. */
  function DeleteEdit(d: Doc, x: int, y: nat): (e: Edit)
    requires ValidDoc(d) && y < |d|
    requires x == -1 ==> y >= 1
    requires x != -1 ==> 0 <= x < |d[y]|
    ensures Applicable(d, e)
  {
    if x == -1 then Join(y, |d[y - 1]|) else Del(x, y, d[y][x])
  }

  /** Deleting column `x` removes exactly that character; the join sentinel
      appends line `y` to line `y - 1` and removes one line. */
  lemma DeleteEffect(d: Doc, x: int, y: nat)
    requires ValidDoc(d) && y < |d|
    requires x == -1 ==> y >= 1
    requires x != -1 ==> 0 <= x < |d[y]|
    ensures var r := Apply(d, DeleteEdit(d, x, y));
            (x == -1 ==> |r| == |d| - 1 && r[y - 1] == d[y - 1] + d[y] &&
                         r[..y - 1] == d[..y - 1] && r[y..] == d[y + 1..]) &&
            (x != -1 ==> r == d[y := d[y][..x] + d[y][x + 1..]])
  {
  }

  predicate Revertible(d: Doc, e: Edit)
  {
    match e
    case Ins(x, y, s) =>
      var k := NewlineCount(s);
      y + k < |d| && x + |s| <= |JoinLines(d[y..y + k + 1])|
    case Del(x, y, _) => y < |d| && x <= |d[y]|
    case Join(y, at) => 1 <= y <= |d| && at <= |d[y - 1]|
  }

  /** The inverse of an edit: removes inserted text, puts a deleted character
      back, or splits a joined line again. */
  function Revert(d: Doc, e: Edit): Doc
    requires Revertible(d, e)
  {
    match e
    case Ins(x, y, s) =>
      var k := NewlineCount(s);
      var j := JoinLines(d[y..y + k + 1]);
      d[..y] + [j[..x] + j[x + |s|..]] + d[y + k + 1..]
    case Del(x, y, ch) => d[y := d[y][..x] + [ch] + d[y][x..]]
    case Join(y, at) => d[..y - 1] + [d[y - 1][..at], d[y - 1][at..]] + d[y..]
  }

  /** Every edit is exactly undone by its inverse. */
  lemma RevertApply(d: Doc, e: Edit)
    requires Applicable(d, e)
    ensures Revertible(Apply(d, e), e) && Revert(Apply(d, e), e) == d
  {
    match e
    case Ins(x, y, s) => RevertInsert(d, x, y, s);
    case Del(x, y, ch) => RevertDelete(d, x, y, ch);
    case Join(y, at) => RevertJoin(d, y, at);
  }

  lemma RevertDelete(d: Doc, x: nat, y: nat, ch: char)
    requires Applicable(d, Del(x, y, ch))
    ensures Revertible(Apply(d, Del(x, y, ch)), Del(x, y, ch))
    ensures Revert(Apply(d, Del(x, y, ch)), Del(x, y, ch)) == d
  {
    var l := d[y][..x] + d[y][x + 1..];
    assert l[..x] == d[y][..x] && l[x..] == d[y][x + 1..];
    assert d[y] == d[y][..x] + [ch] + d[y][x + 1..];
  }

  lemma RevertJoin(d: Doc, y: nat, at: nat)
    requires Applicable(d, Join(y, at))
    ensures Revertible(Apply(d, Join(y, at)), Join(y, at))
    ensures Revert(Apply(d, Join(y, at)), Join(y, at)) == d
  {
    var d2 := Apply(d, Join(y, at));
    assert d2 == d[..y - 1] + [d[y - 1] + d[y]] + d[y + 1..];
    assert d2[y - 1] == d[y - 1] + d[y];
    assert d2[y - 1][..at] == d[y - 1] && d2[y - 1][at..] == d[y];
    assert d2[..y - 1] == d[..y - 1];
    assert d2[y..] == d[y + 1..];
    assert d[..y - 1] + [d[y - 1], d[y]] + d[y + 1..] == d;
  }

  lemma RevertInsert(d: Doc, x: nat, y: nat, s: string)
    requires Applicable(d, Ins(x, y, s))
    ensures Revertible(Apply(d, Ins(x, y, s)), Ins(x, y, s))
    ensures Revert(Apply(d, Ins(x, y, s)), Ins(x, y, s)) == d
  {
    var pre, suf := d[y][..x], d[y][x..];
    assert NoNewline(d[y]);
    assert NoNewline(pre) && NoNewline(suf);
    var t := pre + s + suf;
    var p := SplitLines(t);
    var k := NewlineCount(s);
    assert |p| == k + 1 by {
      NewlineCountAppend(pre + s, suf);
      NewlineCountAppend(pre, s);
      NoNewlineCount(pre);
      NoNewlineCount(suf);
    }
    var d2 := d[..y] + p + d[y + 1..];
    assert Apply(d, Ins(x, y, s)) == d2;
    SpliceParts(d[..y], p, d[y + 1..]);
    assert JoinLines(p) == t by { JoinSplit(t); }
    ThreeParts(pre, s, suf);
    assert pre + suf == d[y];
    SpliceBack(d, y);
  }

  /** The three parts of a concatenation can be sliced back out. */
  lemma SpliceParts<T>(a: seq<T>, p: seq<T>, b: seq<T>)
    ensures (a + p + b)[..|a|] == a && (a + p + b)[|a|..|a| + |p|] == p && (a + p + b)[|a| + |p|..] == b
  {
  }

  /** The same for a concatenation of three texts. */
  lemma ThreeParts<T>(a: seq<T>, m: seq<T>, b: seq<T>)
    ensures (a + m + b)[..|a|] == a && (a + m + b)[|a| + |m|..] == b
  {
  }

  /** A sequence is its elements before `y`, element `y` and those after. */
  lemma SpliceBack<T>(d: seq<T>, y: nat)
    requires y < |d|
    ensures d[..y] + [d[y]] + d[y + 1..] == d
  {
  }

  /** Applying the edits of a group in order; `None` when one does not apply. */
  function ApplyAll(d: Doc, es: seq<Edit>): Option<Doc>
    decreases |es|
  {
    if es == [] then Some(d)
    else
      var m := ApplyAll(d, es[..|es| - 1]);
      if m.Some? && Applicable(m.value, es[|es| - 1]) then Some(Apply(m.value, es[|es| - 1])) else None
  }

  /** Reverting the edits of a group, last first. */
  function RevertAll(d: Doc, es: seq<Edit>): Option<Doc>
    decreases |es|
  {
    if es == [] then Some(d)
    else
      var e := es[|es| - 1];
      if Revertible(d, e) then RevertAll(Revert(d, e), es[..|es| - 1]) else None
  }

  /** A whole group is undone by reverting its edits in reverse order. */
  lemma {:induction false} RevertAllApplyAll(d: Doc, es: seq<Edit>)
    requires ApplyAll(d, es).Some?
    ensures RevertAll(ApplyAll(d, es).value, es) == Some(d)
    decreases |es|
  {
    if es != [] {
      var m := ApplyAll(d, es[..|es| - 1]);
      RevertApply(m.value, es[|es| - 1]);
      RevertAllApplyAll(d, es[..|es| - 1]);
    }
  }

  lemma ApplyAllValid(d: Doc, es: seq<Edit>)
    requires ValidDoc(d) && ApplyAll(d, es).Some?
    ensures ValidDoc(ApplyAll(d, es).value)
  {
  }

  /** An undo group: the edits of a run, in order, and the snapshot taken
      before its first edit. */
  datatype Group = Group(edits: seq<Edit>, snap: Option<Coords>)

  datatype History = History(doc: Doc, undo: seq<Group>, redo: seq<Group>)

  /** Popping the undo stack group by group walks back through earlier
      documents, each of which the group's edits turn into the next one. */
  predicate UndoValid(cur: Doc, st: seq<Group>)
    decreases |st|
  {
    st == [] ||
    (var g := st[|st| - 1];
     var prev := RevertAll(cur, g.edits);
     prev.Some? && ValidDoc(prev.value) && ApplyAll(prev.value, g.edits) == Some(cur) &&
     UndoValid(prev.value, st[..|st| - 1]))
  }

  /** Popping the redo stack replays groups forward, each undoable again. */
  predicate RedoValid(cur: Doc, st: seq<Group>)
    decreases |st|
  {
    st == [] ||
    (var g := st[|st| - 1];
     var next := ApplyAll(cur, g.edits);
     next.Some? && ValidDoc(next.value) && RevertAll(next.value, g.edits) == Some(cur) &&
     RedoValid(next.value, st[..|st| - 1]))
  }

  predicate HistoryValid(h: History)
  {
    ValidDoc(h.doc) && UndoValid(h.doc, h.undo) && RedoValid(h.doc, h.redo)
  }

  /** `render_state_init`: a single empty line and no history. */
  function Empty(): (h: History)
    ensures HistoryValid(h) && |h.doc| == 1 && h.doc[0] == []
    ensures h.undo == [] && h.redo == []
  {
    History([[]], [], [])
  }

  /** Whether a new edit extends the top undo group under the grouping rule. */
  predicate JoinsTop(h: History, e: Edit, joins: (Edit, Edit) -> bool)
  {
    |h.undo| > 0 && |h.undo[|h.undo| - 1].edits| > 0 &&
    var top := h.undo[|h.undo| - 1].edits;
    joins(top[|top| - 1], e)
  }

  /** A journalled change: apply `e`, push it as a new group with snapshot
      `snap` or extend the top group, and empty the redo stack. */
  function Record(h: History, e: Edit, snap: Option<Coords>, joins: (Edit, Edit) -> bool): (r: History)
    requires HistoryValid(h) && Applicable(h.doc, e)
    ensures HistoryValid(r)
    ensures r.doc == Apply(h.doc, e) && r.redo == []
    ensures |r.undo| == if JoinsTop(h, e, joins) then |h.undo| else |h.undo| + 1
    ensures !JoinsTop(h, e, joins) ==> r.undo == h.undo + [Group([e], snap)]
  {
    var d2 := Apply(h.doc, e);
    RevertApply(h.doc, e);
    if JoinsTop(h, e, joins) then
      var n := |h.undo|;
      var top := h.undo[n - 1];
      var es := top.edits + [e];
      assert es[..|es| - 1] == top.edits;
      var r := History(d2, h.undo[..n - 1] + [Group(es, top.snap)], []);
      assert r.undo[..n - 1] == h.undo[..n - 1];
      r
    else
      var r := History(d2, h.undo + [Group([e], snap)], []);
      assert r.undo[..|h.undo|] == h.undo;
      assert [e][..0] == [];
      r
  }

  /** A change that joins the top group is appended to it. */
  lemma RecordJoins(h: History, e: Edit, snap: Option<Coords>, joins: (Edit, Edit) -> bool)
    requires HistoryValid(h) && Applicable(h.doc, e) && JoinsTop(h, e, joins)
    ensures var top := h.undo[|h.undo| - 1];
            Record(h, e, snap, joins).undo == h.undo[..|h.undo| - 1] + [Group(top.edits + [e], top.snap)]
  {
  }

  /** `render_state_undo`: revert the top group, move it to the redo stack,
      and hand back its snapshot; a no-op yielding `None` on an empty stack. */
  function Undo(h: History): (r: (History, Option<Coords>))
    requires HistoryValid(h)
    ensures HistoryValid(r.0)
    ensures h.undo == [] ==> r == (h, None)
    ensures h.undo != [] ==> |r.0.undo| == |h.undo| - 1 && |r.0.redo| == |h.redo| + 1
    ensures h.undo != [] ==>
              var g := h.undo[|h.undo| - 1];
              r.0.undo == h.undo[..|h.undo| - 1] && r.0.redo == h.redo + [g] && r.1 == g.snap &&
              RevertAll(h.doc, g.edits) == Some(r.0.doc) && ApplyAll(r.0.doc, g.edits) == Some(h.doc)
  {
    if h.undo == [] then (h, None)
    else
      var n := |h.undo|;
      var g := h.undo[n - 1];
      var prev := RevertAll(h.doc, g.edits).value;
      var r := History(prev, h.undo[..n - 1], h.redo + [g]);
      assert r.redo[..|r.redo| - 1] == h.redo;
      (r, g.snap)
  }

  /** `render_state_redo`: replay the top redo group and move it back. */
  function Redo(h: History): (r: (History, Option<Coords>))
    requires HistoryValid(h)
    ensures HistoryValid(r.0)
    ensures h.redo == [] ==> r == (h, None)
    ensures h.redo != [] ==> |r.0.undo| == |h.undo| + 1 && |r.0.redo| == |h.redo| - 1
    ensures h.redo != [] ==>
              var g := h.redo[|h.redo| - 1];
              r.0.redo == h.redo[..|h.redo| - 1] && r.0.undo == h.undo + [g] && r.1 == g.snap &&
              ApplyAll(h.doc, g.edits) == Some(r.0.doc) && RevertAll(r.0.doc, g.edits) == Some(h.doc)
  {
    if h.redo == [] then (h, None)
    else
      var n := |h.redo|;
      var g := h.redo[n - 1];
      var next := ApplyAll(h.doc, g.edits).value;
      var r := History(next, h.undo + [g], h.redo[..n - 1]);
      assert r.undo[..|r.undo| - 1] == h.undo;
      (r, g.snap)
  }

  /** Undo right after a change that opened a new group gives back the
      document and the snapshot from before the change. */
  lemma UndoRecord(h: History, e: Edit, snap: Option<Coords>, joins: (Edit, Edit) -> bool)
    requires HistoryValid(h) && Applicable(h.doc, e) && !JoinsTop(h, e, joins)
    ensures var (u, c) := Undo(Record(h, e, snap, joins));
            u.doc == h.doc && u.undo == h.undo && u.redo == [Group([e], snap)] && c == snap
  {
    var r := Record(h, e, snap, joins);
    RevertApply(h.doc, e);
    assert r.undo == h.undo + [Group([e], snap)];
    assert [e][..0] == [];
    assert RevertAll(r.doc, [e]) == Some(h.doc);
    assert r.undo[..|r.undo| - 1] == h.undo;
    assert r.redo + [Group([e], snap)] == [Group([e], snap)];
  }

  /** Redo undoes an undo exactly. */
  lemma RedoUndo(h: History)
    requires HistoryValid(h) && h.undo != []
    ensures Redo(Undo(h).0) == (h, h.undo[|h.undo| - 1].snap)
  {
    var u := Undo(h).0;
    assert u.undo + [h.undo[|h.undo| - 1]] == h.undo;
    assert u.redo[..|u.redo| - 1] == h.redo;
  }

  /** Undo undoes a redo exactly. */
  lemma UndoRedo(h: History)
    requires HistoryValid(h) && h.redo != []
    ensures Undo(Redo(h).0) == (h, h.redo[|h.redo| - 1].snap)
  {
    var u := Redo(h).0;
    assert u.redo + [h.redo[|h.redo| - 1]] == h.redo;
    assert u.undo[..|u.undo| - 1] == h.undo;
  }

  /** A series of journalled changes, with one snapshot per change. */
  function RecordSeq(h: History, es: seq<Edit>, snaps: seq<Option<Coords>>, joins: (Edit, Edit) -> bool): (r: History)
    requires HistoryValid(h) && |snaps| == |es| && ApplyAll(h.doc, es).Some?
    ensures HistoryValid(r) && Some(r.doc) == ApplyAll(h.doc, es)
    decreases |es|
  {
    if es == [] then h
    else
      var n := |es|;
      var p := RecordSeq(h, es[..n - 1], snaps[..n - 1], joins);
      Record(p, es[n - 1], snaps[n - 1], joins)
  }

  /** Journalling one more change after a series. */
  lemma RecordSeqSnoc(h: History, es: seq<Edit>, snaps: seq<Option<Coords>>, e: Edit, snap: Option<Coords>,
                      joins: (Edit, Edit) -> bool)
    requires HistoryValid(h) && |snaps| == |es| && ApplyAll(h.doc, es + [e]).Some?
    ensures ApplyAll(h.doc, es).Some? && Applicable(RecordSeq(h, es, snaps, joins).doc, e)
    ensures RecordSeq(h, es + [e], snaps + [snap], joins) == Record(RecordSeq(h, es, snaps, joins), e, snap, joins)
  {
    assert (es + [e])[..|es|] == es && (snaps + [snap])[..|snaps|] == snaps;
  }

  /** The run starts a group and every later edit joins its predecessor. */
  predicate IsRun(h: History, es: seq<Edit>, joins: (Edit, Edit) -> bool)
  {
    |es| >= 1 && !JoinsTop(h, es[0], joins) &&
    forall i :: 1 <= i < |es| ==> joins(es[i - 1], es[i])
  }

  lemma {:induction false} RunShape(h: History, es: seq<Edit>, snaps: seq<Option<Coords>>, joins: (Edit, Edit) -> bool)
    requires HistoryValid(h) && |snaps| == |es| && ApplyAll(h.doc, es).Some?
    requires IsRun(h, es, joins)
    ensures RecordSeq(h, es, snaps, joins).undo == h.undo + [Group(es, snaps[0])]
    decreases |es|
  {
    var n := |es|;
    var pre, ps := es[..n - 1], snaps[..n - 1];
    RecordSeqLast(h, es, snaps, joins);
    var p := RecordSeq(h, pre, ps, joins);
    if n > 1 {
      assert p.undo == h.undo + [Group(pre, snaps[0])] by {
        RunPrefix(h, es, joins);
        RunShape(h, pre, ps, joins);
        assert ps[0] == snaps[0];
      }
      assert Record(p, es[n - 1], snaps[n - 1], joins).undo == h.undo + [Group(es, snaps[0])] by {
        assert joins(pre[|pre| - 1], es[n - 1]) by {
          assert pre[|pre| - 1] == es[n - 2];
          assert joins(es[n - 2], es[n - 1]);
        }
        RunStep(h, p, pre, es[n - 1], snaps[0], snaps[n - 1], joins);
        SplitLast(es);
      }
    } else {
      assert pre == [] && ps == [];
      assert [es[0]] == es;
    }
  }

  /** A non-empty sequence is its front followed by its last element. */
  lemma SplitLast<T>(s: seq<T>)
    requires |s| > 0
    ensures s[..|s| - 1] + [s[|s| - 1]] == s
  {
  }

  /** A run without its last change is still a run. */
  lemma RunPrefix(h: History, es: seq<Edit>, joins: (Edit, Edit) -> bool)
    requires IsRun(h, es, joins) && |es| > 1
    ensures IsRun(h, es[..|es| - 1], joins)
  {
    var pre := es[..|es| - 1];
    forall i | 1 <= i < |pre| ensures joins(pre[i - 1], pre[i]) {
      assert pre[i - 1] == es[i - 1] && pre[i] == es[i];
    }
  }

  /** A non-empty series is its prefix followed by its last change. */
  lemma RecordSeqLast(h: History, es: seq<Edit>, snaps: seq<Option<Coords>>, joins: (Edit, Edit) -> bool)
    requires HistoryValid(h) && |snaps| == |es| && ApplyAll(h.doc, es).Some? && |es| >= 1
    ensures ApplyAll(h.doc, es[..|es| - 1]).Some?
    ensures Applicable(RecordSeq(h, es[..|es| - 1], snaps[..|es| - 1], joins).doc, es[|es| - 1])
    ensures RecordSeq(h, es, snaps, joins) ==
            Record(RecordSeq(h, es[..|es| - 1], snaps[..|es| - 1], joins), es[|es| - 1], snaps[|es| - 1], joins)
  {
  }

  /** A change that joins the group on top of `h.undo` lengthens it. */
  lemma RunStep(h: History, p: History, pre: seq<Edit>, e: Edit, first: Option<Coords>, snap: Option<Coords>,
                joins: (Edit, Edit) -> bool)
    requires HistoryValid(p) && Applicable(p.doc, e)
    requires p.undo == h.undo + [Group(pre, first)] && |pre| >= 1 && joins(pre[|pre| - 1], e)
    ensures Record(p, e, snap, joins).undo == h.undo + [Group(pre + [e], first)]
  {
    assert JoinsTop(p, e, joins) by {
      assert p.undo[|p.undo| - 1].edits == pre;
    }
    RecordJoins(p, e, snap, joins);
    assert p.undo[..|p.undo| - 1] == h.undo;
  }

  /** One undo reverts a whole run of grouped changes and restores the
      snapshot taken before the first of them. */
  lemma UndoRun(h: History, es: seq<Edit>, snaps: seq<Option<Coords>>, joins: (Edit, Edit) -> bool)
    requires HistoryValid(h) && |snaps| == |es| && ApplyAll(h.doc, es).Some?
    requires IsRun(h, es, joins)
    ensures var (u, c) := Undo(RecordSeq(h, es, snaps, joins));
            u.doc == h.doc && u.undo == h.undo && c == snaps[0]
  {
    RunShape(h, es, snaps, joins);
    RevertAllApplyAll(h.doc, es);
    var r := RecordSeq(h, es, snaps, joins);
    assert r.undo[..|r.undo| - 1] == h.undo;
  }

  /** Loading a whole file into a fresh buffer with no snapshot: undoing it
      leaves a single empty line and no snapshot, so the cursor stays. */
  lemma UndoWholeFile(s: string, joins: (Edit, Edit) -> bool)
    ensures var (u, c) := Undo(Record(Empty(), Ins(0, 0, s), None, joins));
            u.doc == [[]] && c == None
  {
    UndoRecord(Empty(), Ins(0, 0, s), None, joins);
  }
}

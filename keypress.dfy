/** The key decoder and the dispatch rules of src/keypress.c. The terminal
    is a sequence of pending bytes; a read that finds the sequence used up
    is a read that failed. */
module Keypress {
  import opened Common

  /** The escape byte that starts every sequence (`ESC_SEQ_CHAR`). */
  const ESC: char := 27 as char

  datatype Dir = Up | Down | Right | Left

  /** What `keypress_read` returns. `Byte(c)` is a byte returned unchanged;
      `Esc` is `ESC_SEQ_CHAR`, the answer to every sequence it does not
      recognise. */
  datatype Key =
    | Byte(c: char)
    | Esc
    | Unknown
    | Enter
    | Backspace
    | CtrlA | CtrlE | CtrlU | CtrlQ | CtrlZ
    | Delete | Home | End | PageUp | PageDown
    | Arrow(d: Dir)
    | CtrlArrow(d: Dir)
    | ShiftArrow(d: Dir)
    | CtrlShiftArrow(d: Dir)

  /** The bits `KEYPRESS_SHIFT` and `KEYPRESS_CTRL` of `*flags`. */
  datatype Flags = Flags(shift: bool, ctrl: bool)

  const NoFlags := Flags(false, false)

  /** One decoded key: the key, the flags it set and the number of bytes
      it took from the input. */
  datatype Read = Read(key: Key, flags: Flags, used: nat)

  /** `CTRL_KEY(k)`, that is `k & 0x1f`. */
  function CtrlKey(c: char): int
  {
    (c as int) % 32
  }

  /** A single byte that is not the escape byte. */
  function Plain(c: char): (k: Key)
    ensures c as int >= 32 ==> k == Byte(c)
    ensures c as int < 32 ==> !k.Byte?
  {
    if c as int == CtrlKey('a') then CtrlA
    else if c as int == CtrlKey('e') then CtrlE
    else if c as int == CtrlKey('u') then CtrlU
    else if c as int == CtrlKey('q') then CtrlQ
    else if c as int == CtrlKey('z') then CtrlZ
    else if c as int == CtrlKey('h') then Backspace
    else if c == '\r' then Enter
    else if CtrlKey(c) == c as int then Unknown
    else Byte(c)
  }

  /** `ESC [ d ~` for the digits the code knows. */
  function Tilde(d: char): Option<Key>
  {
    if d == '3' then Some(Delete)
    else if d == '1' || d == '7' then Some(Home)
    else if d == '4' || d == '8' then Some(End)
    else if d == '5' then Some(PageUp)
    else if d == '6' then Some(PageDown)
    else None
  }

  /** The flags the modifier parameter `m` of `ESC [ d ; m L` sets. */
  function Modifier(m: char): Flags
  {
    if m == '2' then Flags(true, false)
    else if m == '5' then Flags(false, true)
    else if m == '6' then Flags(true, true)
    else NoFlags
  }

  function ArrowDir(l: char): Option<Dir>
  {
    if l == 'A' then Some(Up)
    else if l == 'B' then Some(Down)
    else if l == 'C' then Some(Right)
    else if l == 'D' then Some(Left)
    else None
  }

  /** A modified arrow: shift selects, control moves by word, and an arrow
      with neither flag is not recognised. */
  function ModArrow(d: Dir, f: Flags): Key
  {
    if f.shift then (if f.ctrl then CtrlShiftArrow(d) else ShiftArrow(d))
    else if f.ctrl then CtrlArrow(d)
    else Esc
  }

  /** `ESC [ L` with a letter `L`. */
  function CsiLetter(l: char): Option<Key>
  {
    if ArrowDir(l).Some? then Some(Arrow(ArrowDir(l).value))
    else if l == 'H' then Some(Home)
    else if l == 'F' then Some(End)
    else None
  }

  /** `ESC O L`. */
  function Ss3Letter(l: char): Option<Key>
  {
    if l == 'H' then Some(Home) else if l == 'F' then Some(End) else None
  }

  function OrEsc(k: Option<Key>): Key
  {
    if k.Some? then k.value else Esc
  }

  /** `keypress_read` with `*flags` zero on entry, as `keypress_handle`
      passes it. `None` is an input with no byte at all, on which the code
      keeps waiting. A later byte that is missing ends the sequence with
      `Esc` and uses every byte there was. */
  function Decode(s: seq<char>): (r: Option<Read>)
    ensures r.None? <==> s == []
    ensures r.Some? ==> 1 <= r.value.used <= |s|
    ensures r.Some? && s[0] != ESC ==> r.value == Read(Plain(s[0]), NoFlags, 1)
  {
    if s == [] then None
    else if s[0] != ESC then Some(Read(Plain(s[0]), NoFlags, 1))
    else if |s| < 3 then Some(Read(Esc, NoFlags, |s|))
    else if s[1] == '[' then
      if IsDigit(s[2]) then
        if |s| < 4 then Some(Read(Esc, NoFlags, 3))
        else if s[3] == '~' && Tilde(s[2]).Some? then Some(Read(Tilde(s[2]).value, NoFlags, 4))
        else if s[3] == ';' then
          if |s| < 5 then Some(Read(Esc, NoFlags, 4))
          else if |s| < 6 then Some(Read(Esc, Modifier(s[4]), 5))
          else
            var f := Modifier(s[4]);
            Some(Read(if ArrowDir(s[5]).Some? then ModArrow(ArrowDir(s[5]).value, f) else Esc, f, 6))
        else Some(Read(Esc, NoFlags, 4))
      else Some(Read(OrEsc(CsiLetter(s[2])), NoFlags, 3))
    else if s[1] == 'O' then Some(Read(OrEsc(Ss3Letter(s[2])), NoFlags, 3))
    else Some(Read(Esc, NoFlags, 3))
  }

  /** The pending input of the terminal. */
  class Input {
    var pending: seq<char>

    constructor (s: seq<char>)
      ensures pending == s
    {
      pending := s;
    }

    /** `read(STDIN_FILENO, &c, 1)`: one byte, or failure when none is left. */
    method ReadByte() returns (ok: bool, c: char)
      modifies this
      ensures ok <==> old(pending) != []
      ensures ok ==> c == old(pending)[0] && pending == old(pending)[1..]
      ensures !ok ==> pending == old(pending)
    {
      if pending == [] {
        ok, c := false, ESC;
      } else {
        ok, c := true, pending[0];
        pending := pending[1..];
      }
    }
  }

  /** `keypress_read`, byte by byte. The blocking loop around the first
      read is the requirement that a byte is there. */
  method ReadKey(inp: Input) returns (key: Key, flags: Flags)
    requires inp.pending != []
    modifies inp
    ensures var r := Decode(old(inp.pending)).value;
            key == r.key && flags == r.flags && inp.pending == old(inp.pending)[r.used..]
  {
    ghost var s := inp.pending;
    flags := NoFlags;
    var _, c := inp.ReadByte();
    if c == ESC {
      var ok0, s0 := inp.ReadByte();
      if !ok0 {
        key := Esc;
        return;
      }
      var ok1, s1 := inp.ReadByte();
      if !ok1 {
        key := Esc;
        return;
      }
      assert s[..3] == [c, s0, s1];
      if s0 == '[' {
        if IsDigit(s1) {
          var ok2, s2 := inp.ReadByte();
          if !ok2 {
            key := Esc;
            return;
          }
          if s2 == '~' {
            if s1 == '3' {
              key := Delete;
              return;
            } else if s1 == '1' || s1 == '7' {
              key := Home;
              return;
            } else if s1 == '4' || s1 == '8' {
              key := End;
              return;
            } else if s1 == '5' {
              key := PageUp;
              return;
            } else if s1 == '6' {
              key := PageDown;
              return;
            }
          }
          if s2 == ';' {
            var ok3, s3 := inp.ReadByte();
            if !ok3 {
              key := Esc;
              return;
            }
            if s3 == '2' {
              flags := flags.(shift := true);
            } else if s3 == '5' {
              flags := flags.(ctrl := true);
            } else if s3 == '6' {
              flags := flags.(shift := true);
              flags := flags.(ctrl := true);
            }
            var ok4, s4 := inp.ReadByte();
            if !ok4 {
              key := Esc;
              return;
            }
            var isCtrl := flags.ctrl;
            var isShift := flags.shift;
            var dir := ArrowDir(s4);
            if dir.Some? {
              if isShift {
                key := if isCtrl then CtrlShiftArrow(dir.value) else ShiftArrow(dir.value);
                return;
              }
              key := if isCtrl then CtrlArrow(dir.value) else Esc;
              return;
            }
          }
        } else {
          if s1 == 'A' {
            key := Arrow(Up);
            return;
          } else if s1 == 'B' {
            key := Arrow(Down);
            return;
          } else if s1 == 'C' {
            key := Arrow(Right);
            return;
          } else if s1 == 'D' {
            key := Arrow(Left);
            return;
          } else if s1 == 'H' {
            key := Home;
            return;
          } else if s1 == 'F' {
            key := End;
            return;
          }
        }
      } else if s0 == 'O' {
        if s1 == 'H' {
          key := Home;
          return;
        } else if s1 == 'F' {
          key := End;
          return;
        }
      }
      key := Esc;
      return;
    }
    if c as int == CtrlKey('a') {
      key := CtrlA;
    } else if c as int == CtrlKey('e') {
      key := CtrlE;
    } else if c as int == CtrlKey('u') {
      key := CtrlU;
    } else if c as int == CtrlKey('q') {
      key := CtrlQ;
    } else if c as int == CtrlKey('z') {
      key := CtrlZ;
    } else if c as int == CtrlKey('h') {
      key := Backspace;
    } else if c == '\r' {
      key := Enter;
    } else if CtrlKey(c) == c as int {
      key := Unknown;
    } else {
      key := Byte(c);
    }
  }

  /** The byte sequence a terminal sends for a key: the canonical one of
      the forms `keypress_read` accepts. `Unknown` and the control bytes
      it stands for have none. */
  predicate Encodable(k: Key)
  {
    match k
    case Byte(c) => c as int >= 32
    case Unknown => false
    case _ => true
  }

  function Letter(d: Dir): char
  {
    match d
    case Up => 'A'
    case Down => 'B'
    case Right => 'C'
    case Left => 'D'
  }

  function Encode(k: Key): (s: seq<char>)
    requires Encodable(k)
    ensures s != [] && (s[0] == ESC <==> |s| > 1 || k == Esc)
  {
    match k
    case Byte(c) => [c]
    case Esc => [ESC]
    case Enter => ['\r']
    case Backspace => [8 as char]
    case CtrlA => [1 as char]
    case CtrlE => [5 as char]
    case CtrlU => [21 as char]
    case CtrlQ => [17 as char]
    case CtrlZ => [26 as char]
    case Delete => [ESC, '[', '3', '~']
    case Home => [ESC, '[', 'H']
    case End => [ESC, '[', 'F']
    case PageUp => [ESC, '[', '5', '~']
    case PageDown => [ESC, '[', '6', '~']
    case Arrow(d) => [ESC, '[', Letter(d)]
    case ShiftArrow(d) => [ESC, '[', '1', ';', '2', Letter(d)]
    case CtrlArrow(d) => [ESC, '[', '1', ';', '5', Letter(d)]
    case CtrlShiftArrow(d) => [ESC, '[', '1', ';', '6', Letter(d)]
  }

  /** The flags a recognised key comes with. */
  function FlagsOf(k: Key): Flags
  {
    match k
    case ShiftArrow(_) => Flags(true, false)
    case CtrlArrow(_) => Flags(false, true)
    case CtrlShiftArrow(_) => Flags(true, true)
    case _ => NoFlags
  }

  /** Every key with a byte sequence decodes back from it, whatever follows;
      a lone escape is only a lone escape at the end of the input. */
  lemma DecodeEncode(k: Key, rest: seq<char>)
    requires Encodable(k) && (k == Esc ==> rest == [])
    ensures Decode(Encode(k) + rest) == Some(Read(k, FlagsOf(k), |Encode(k)|))
  {
    var s := Encode(k) + rest;
    assert s[..|Encode(k)|] == Encode(k);
    match k
    case Arrow(d) =>
      assert ArrowDir(Letter(d)) == Some(d) by { LetterDir(d); }
    case ShiftArrow(d) =>
      assert ArrowDir(Letter(d)) == Some(d) by { LetterDir(d); }
    case CtrlArrow(d) =>
      assert ArrowDir(Letter(d)) == Some(d) by { LetterDir(d); }
    case CtrlShiftArrow(d) =>
      assert ArrowDir(Letter(d)) == Some(d) by { LetterDir(d); }
    case _ =>
  }

  lemma LetterDir(d: Dir)
    ensures ArrowDir(Letter(d)) == Some(d)
  {
  }

  /** The other direction: whatever the bytes, a recognised key comes with
      exactly the flags of its canonical sequence, a single byte decodes to
      itself or to a named control key, and everything the decoder accepts
      besides a lone escape or a control byte has a canonical sequence. */
  lemma DecodeSound(s: seq<char>)
    requires s != []
    ensures var r := Decode(s).value;
            (r.key != Esc ==> r.flags == FlagsOf(r.key)) &&
            (r.key != Unknown ==> Encodable(r.key)) &&
            (r.key.Byte? ==> r.used == 1 && s[0] == r.key.c)
  {
    var r := Decode(s).value;
    if s[0] == ESC && |s| >= 6 && s[1] == '[' && IsDigit(s[2]) && s[3] == ';' && ArrowDir(s[5]).Some? {
      var f := Modifier(s[4]);
      assert r.key == ModArrow(ArrowDir(s[5]).value, f) && r.flags == f;
    }
  }

  /** ESC followed by a byte that never comes, at any stage of a sequence,
      gives `ESC_SEQ_CHAR` and uses up what there was. */
  lemma Truncated(s: seq<char>, n: nat)
    requires s != [] && 1 <= n < Decode(s).value.used
    ensures Decode(s[..n]).value.key == Esc && Decode(s[..n]).value.used == n
  {
    assert s[0] == ESC;
    var p := s[..n];
    assert p[0] == ESC;
    if n >= 2 {
      assert p[1] == s[1];
    }
    if n >= 3 {
      assert p[2] == s[2];
    }
    if n >= 4 {
      assert p[3] == s[3];
    }
    if n >= 5 {
      assert p[4] == s[4];
    }
  }

  /** The decoder never looks at a byte it does not use: the bytes it
      consumed alone decode to the same key and flags. */
  lemma NoLookahead(s: seq<char>)
    requires s != []
    ensures Decode(s[..Decode(s).value.used]) == Decode(s)
  {
    var p := s[..Decode(s).value.used];
    assert p[0] == s[0];
    if |p| >= 3 {
      assert p[1] == s[1] && p[2] == s[2];
    }
    if |p| >= 4 {
      assert p[3] == s[3];
    }
    if |p| >= 6 {
      assert p[4] == s[4] && p[5] == s[5];
    }
  }

  /** A control byte other than ESC: the six named ones decode to their
      keys, carriage return to ENTER, and every other one to UNKNOWN. */
  lemma DecodeControlByte(c: char, rest: seq<char>)
    requires c as int < 32 && c != ESC
    ensures var r := Decode([c] + rest).value;
            r.used == 1 && r.flags == NoFlags &&
            (r.key == CtrlA <==> c as int == 1) &&
            (r.key == CtrlE <==> c as int == 5) &&
            (r.key == Backspace <==> c as int == 8) &&
            (r.key == Enter <==> c as int == 13) &&
            (r.key == CtrlQ <==> c as int == 17) &&
            (r.key == CtrlU <==> c as int == 21) &&
            (r.key == CtrlZ <==> c as int == 26) &&
            (r.key == Unknown <==> c as int !in {1, 5, 8, 13, 17, 21, 26})
  {
    assert ([c] + rest)[0] == c;
  }

  /** `ESC [ d ~`: the digits 3, 1 or 7, 4 or 8, 5 and 6 name DELETE, HOME,
      END, PAGE UP and PAGE DOWN; the other digits give ESC. */
  lemma DecodeTilde(d: char, rest: seq<char>)
    requires IsDigit(d)
    ensures var r := Decode([ESC, '[', d, '~'] + rest).value;
            r.used == 4 && r.flags == NoFlags &&
            (r.key == Delete <==> d == '3') &&
            (r.key == Home <==> d == '1' || d == '7') &&
            (r.key == End <==> d == '4' || d == '8') &&
            (r.key == PageUp <==> d == '5') &&
            (r.key == PageDown <==> d == '6') &&
            (r.key == Esc <==> d == '0' || d == '2' || d == '9')
  {
    var s := [ESC, '[', d, '~'] + rest;
    assert s[0] == ESC && s[1] == '[' && s[2] == d && s[3] == '~';
  }

  /** `ESC [ d b` with a digit `d` and a byte `b` that is neither `~` nor
      `;` is not recognised and takes four bytes. */
  lemma DecodeDigitOther(d: char, b: char, rest: seq<char>)
    requires IsDigit(d) && b != '~' && b != ';'
    ensures Decode([ESC, '[', d, b] + rest) == Some(Read(Esc, NoFlags, 4))
  {
    var s := [ESC, '[', d, b] + rest;
    assert s[0] == ESC && s[1] == '[' && s[2] == d && s[3] == b;
  }

  /** `ESC [ d ; m L` with a modifier 2, 5 or 6 and an arrow letter: shift,
      control or both, on any digit `d`. */
  lemma DecodeModifiedArrow(d: char, m: char, dir: Dir, rest: seq<char>)
    requires IsDigit(d) && (m == '2' || m == '5' || m == '6')
    ensures var r := Decode([ESC, '[', d, ';', m, Letter(dir)] + rest).value;
            r.used == 6 && r.flags == Flags(m != '5', m != '2') &&
            r.key == (if m == '2' then ShiftArrow(dir) else if m == '5' then CtrlArrow(dir) else CtrlShiftArrow(dir))
  {
    var s := [ESC, '[', d, ';', m, Letter(dir)] + rest;
    assert s[0] == ESC && s[1] == '[' && s[2] == d && s[3] == ';' && s[4] == m && s[5] == Letter(dir);
    LetterDir(dir);
  }

  /** `ESC [ d ; m L` with any other modifier sets no flag and gives ESC,
      whatever the final byte. */
  lemma DecodeOtherModifier(d: char, m: char, l: char, rest: seq<char>)
    requires IsDigit(d) && m != '2' && m != '5' && m != '6'
    ensures Decode([ESC, '[', d, ';', m, l] + rest) == Some(Read(Esc, NoFlags, 6))
  {
    var s := [ESC, '[', d, ';', m, l] + rest;
    assert s[0] == ESC && s[1] == '[' && s[2] == d && s[3] == ';' && s[4] == m && s[5] == l;
  }

  /** `ESC [ L` with a byte `L` that is not a digit: the arrow letters, H
      and F; anything else gives ESC. */
  lemma DecodeCsiLetter(l: char, rest: seq<char>)
    requires !IsDigit(l)
    ensures var r := Decode([ESC, '[', l] + rest).value;
            r.used == 3 && r.flags == NoFlags &&
            (r.key.Arrow? <==> l in {'A', 'B', 'C', 'D'}) &&
            (r.key.Arrow? ==> Letter(r.key.d) == l) &&
            (r.key == Home <==> l == 'H') &&
            (r.key == End <==> l == 'F') &&
            (r.key == Esc <==> l !in {'A', 'B', 'C', 'D', 'H', 'F'})
  {
    var s := [ESC, '[', l] + rest;
    assert s[0] == ESC && s[1] == '[' && s[2] == l;
  }

  /** `ESC O L`: H is HOME, F is END, anything else ESC. */
  lemma DecodeSs3(l: char, rest: seq<char>)
    ensures var r := Decode([ESC, 'O', l] + rest).value;
            r.used == 3 && r.flags == NoFlags &&
            (r.key == Home <==> l == 'H') &&
            (r.key == End <==> l == 'F') &&
            (r.key == Esc <==> l != 'H' && l != 'F')
  {
    var s := [ESC, 'O', l] + rest;
    assert s[0] == ESC && s[1] == 'O' && s[2] == l;
  }

  /** `ESC b L` with `b` neither `[` nor `O` is not recognised. */
  lemma DecodeOtherIntroducer(b: char, l: char, rest: seq<char>)
    requires b != '[' && b != 'O'
    ensures Decode([ESC, b, l] + rest) == Some(Read(Esc, NoFlags, 3))
  {
    var s := [ESC, b, l] + rest;
    assert s[0] == ESC && s[1] == b && s[2] == l;
  }

  /** The calls `keypress_handle` makes. The cursor motions live in code
      outside this model and are only named. */
  datatype Call =
    | InsertChar(c: char)
    | InsertNewline
    | DeleteChar
    | DeleteLineBeforeX
    | Undo
    | MoveBegin | MoveEnd | MoveVisibleTop | MoveVisibleBottom
    | Move(d: Dir)
    | MoveWord(d: Dir)
    | Select(d: Dir)
    | SelectWord(d: Dir)
    | SelectClear
    | SnapToEnd
    | Exit

  /** The `switch` of `keypress_handle`. `ESC_SEQ_CHAR` has no case of its
      own and reaches the default, which inserts it. */
  function Dispatch(k: Key): (calls: seq<Call>)
    ensures SelectClear !in calls && SnapToEnd !in calls
    ensures Exit in calls <==> k == CtrlQ
  {
    match k
    case Unknown => []
    case CtrlQ => [Exit]
    case Enter => [InsertNewline]
    case Backspace => [DeleteChar]
    case CtrlA => [MoveBegin]
    case CtrlE => [MoveEnd]
    case CtrlU => [DeleteLineBeforeX]
    case CtrlZ => [Undo]
    case Delete => [Move(Right), DeleteChar]
    case PageUp => [MoveVisibleTop]
    case PageDown => [MoveVisibleBottom]
    case Home => [MoveBegin]
    case End => [MoveEnd]
    case Arrow(d) => [Move(d)]
    case CtrlArrow(d) => if d == Left || d == Right then [MoveWord(d)] else [Move(d)]
    case ShiftArrow(d) => [Select(d)]
    case CtrlShiftArrow(d) => if d == Left || d == Right then [SelectWord(d)] else []
    case Esc => [InsertChar(ESC)]
    case Byte(c) => [InsertChar(c)]
  }

  /** Everything one key press does: the dispatch, then the selection is
      cleared unless the decoder saw SHIFT, then the cursor is snapped to
      the end of its line; CTRL-Q exits before any of that. */
  function Handle(k: Key, f: Flags): (calls: seq<Call>)
    ensures k == CtrlQ ==> calls == [Exit]
    ensures k != CtrlQ ==> |calls| >= 1 && calls[|calls| - 1] == SnapToEnd && Exit !in calls
    ensures k != CtrlQ ==> (SelectClear in calls <==> !f.shift)
    ensures k != CtrlQ ==> calls[..|calls| - 1] == Dispatch(k) + (if f.shift then [] else [SelectClear])
  {
    if k == CtrlQ then [Exit]
    else Dispatch(k) + (if f.shift then [] else [SelectClear]) + [SnapToEnd]
  }

  /** DELETE is a move to the right followed by a backspace. */
  lemma DeleteIsRightThenBackspace(f: Flags)
    ensures Handle(Delete, f)[..2] == [Move(Right), DeleteChar]
  {
  }

  /** `keypress_handle`: read a key, make its calls, clear the selection
      unless SHIFT was seen, and snap the cursor. */
  method KeypressHandle(inp: Input) returns (calls: seq<Call>)
    requires inp.pending != []
    modifies inp
    ensures var r := Decode(old(inp.pending)).value;
            calls == Handle(r.key, r.flags) && inp.pending == old(inp.pending)[r.used..]
  {
    var c, flags := ReadKey(inp);
    var selectClear := !flags.shift;
    if c == CtrlQ {
      calls := [Exit];
      return;
    }
    calls := Dispatch(c);
    if selectClear {
      calls := calls + [SelectClear];
    }
    calls := calls + [SnapToEnd];
  }
}

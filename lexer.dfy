/** The command lexer of src/lexer.c: a command line split into words and
    single spaces. */
module Lexer {
  import opened Common

  /** `TOKEN_STRING` with its text, or `TOKEN_SPACE`, whose text is " ". */
  datatype Token = Str(value: string) | Space

  function Value(t: Token): string
  {
    if t.Space? then " " else t.value
  }

  /** The token texts one after another. */
  function Concat(ts: seq<Token>): string
  {
    if ts == [] then [] else Value(ts[0]) + Concat(ts[1..])
  }

  /** `scanner_next` on the C string `text` at index `i`: the character
      there, and NUL at and after the end. */
  function At(text: string, i: nat): char
  {
    if i < |text| then text[i] else '\0'
  }

  /** Where the word starting at `i` ends: the first space at or after `i`,
      or the end of the text. */
  function WordEnd(text: string, i: nat): (e: nat)
    requires i <= |text|
    ensures i <= e <= |text| && (e < |text| ==> text[e] == ' ')
    ensures forall k :: i <= k < e ==> text[k] != ' '
    decreases |text| - i
  {
    if i == |text| || text[i] == ' ' then i else WordEnd(text, i + 1)
  }

  /** The tokens of the text from index `i` on, defined by what starts
      there: a space is a `SPACE`, a word is one `STRING`. */
  function LexFrom(text: string, i: nat): (ts: seq<Token>)
    requires i <= |text|
    decreases |text| - i
  {
    if i == |text| then []
    else if text[i] == ' ' then [Space] + LexFrom(text, i + 1)
    else [Str(text[i..WordEnd(text, i)])] + LexFrom(text, WordEnd(text, i))
  }

  /** The tokens of a command line. */
  function Lex(s: string): seq<Token>
  {
    LexFrom(s, 0)
  }

  /** What the tokens of `lexer_tokenize` are like: words are non-empty and
      hold no space, and no two words are next to each other. */
  predicate WellFormed(ts: seq<Token>)
  {
    (forall i :: 0 <= i < |ts| && ts[i].Str? ==> ts[i].value != [] && ' ' !in ts[i].value) &&
    (forall i :: 0 <= i < |ts| - 1 && ts[i].Str? ==> ts[i + 1].Space?)
  }

  /** `lexer_init` followed by `lexer_tokenize`: the scanner is an index into
      the C string held by `source`. */
  method Tokenize(source: string) returns (toks: seq<Token>)
    ensures toks == Lex(CStr(source))
  {
    var text := CStr(source);
    var pos: nat := 0;
    toks := [];
    while true
      invariant pos <= |text| + 1
      invariant pos <= |text| ==> toks + LexFrom(text, pos) == Lex(text)
      invariant pos > |text| ==> toks == Lex(text)
      decreases |text| + 1 - pos
    {
      var c := At(text, pos);
      pos := pos + 1;
      if c == '\0' {
        assert toks + [] == toks;
        break;
      }
      if c == ' ' {
        SpaceStep(text, pos - 1, toks);
        toks := toks + [Space];
      } else {
        toks, pos := NextWord(text, pos - 1, toks);
      }
    }
  }

  /** One round of the outer loop of `lexer_tokenize` that meets a word at
      `start`: the word's `STRING` and, when a space ended it, its `SPACE`. */
  method NextWord(text: string, start: nat, before: seq<Token>) returns (toks: seq<Token>, pos: nat)
    requires start < |text| && text[start] != ' ' && '\0' !in text
    requires before + LexFrom(text, start) == Lex(text)
    ensures start < pos <= |text| + 1
    ensures pos <= |text| ==> toks + LexFrom(text, pos) == Lex(text)
    ensures pos > |text| ==> toks == Lex(text)
  {
    var buf, c, next := ScanWord(text, start);
    WordStep(text, start, next - 1, before);
    toks := before;
    if |buf| > 0 {
      toks := toks + [Str(buf)];
    }
    if c == ' ' {
      SpaceStep(text, next - 1, toks);
      toks := toks + [Space];
    } else {
      assert toks + [] == toks;
    }
    pos := next;
  }

  /** A word from `start` to the space or end at `e`, lexed after `before`. */
  lemma WordStep(text: string, start: nat, e: nat, before: seq<Token>)
    requires start < e <= |text| && (e < |text| ==> text[e] == ' ')
    requires forall k :: start <= k < e ==> text[k] != ' '
    requires before + LexFrom(text, start) == Lex(text)
    ensures before + [Str(text[start..e])] + LexFrom(text, e) == Lex(text)
  {
    WordEndIs(text, start, e);
    assert LexFrom(text, start) == [Str(text[start..e])] + LexFrom(text, e);
    Regroup(before, [Str(text[start..e])], LexFrom(text, e));
  }

  /** A space at `i`, lexed after `toks`. */
  lemma SpaceStep(text: string, i: nat, toks: seq<Token>)
    requires i < |text| && text[i] == ' '
    requires toks + LexFrom(text, i) == Lex(text)
    ensures toks + [Space] + LexFrom(text, i + 1) == Lex(text)
  {
    assert LexFrom(text, i) == [Space] + LexFrom(text, i + 1);
    Regroup(toks, [Space], LexFrom(text, i + 1));
  }

  /** Proof helper for `WordStep` and `SpaceStep`: concatenation regrouped. */
  lemma Regroup(a: seq<Token>, b: seq<Token>, c: seq<Token>)
    ensures a + (b + c) == a + b + c
  {
  }

  /** The inner loop of `lexer_tokenize`: the word starting at `start`, and
      the character that ended it, read at `pos - 1`. */
  method ScanWord(text: string, start: nat) returns (buf: string, c: char, pos: nat)
    requires start < |text| && text[start] != ' ' && '\0' !in text
    ensures start < pos - 1 <= |text| && buf == text[start..pos - 1]
    ensures forall i :: start <= i < pos - 1 ==> text[i] != ' '
    ensures c == ' ' || c == '\0'
    ensures c == ' ' <==> pos - 1 < |text|
    ensures c == ' ' ==> text[pos - 1] == ' '
  {
    c := text[start];
    pos := start + 1;
    buf := [];
    while c != '\0' && c != ' '
      invariant start < pos <= |text| + 1
      invariant c == At(text, pos - 1)
      invariant buf == text[start..pos - 1]
      invariant forall i :: start <= i < pos - 1 ==> text[i] != ' '
      invariant start < pos - 1 || (c != '\0' && c != ' ')
      decreases |text| + 1 - pos
    {
      buf := buf + [c];
      c := At(text, pos);
      pos := pos + 1;
    }
  }

  /** A run of non-spaces from `i` to a space or the end is the word there. */
  lemma {:induction false} WordEndIs(text: string, i: nat, e: nat)
    requires i <= e <= |text| && (e < |text| ==> text[e] == ' ')
    requires forall k :: i <= k < e ==> text[k] != ' '
    ensures WordEnd(text, i) == e
    decreases e - i
  {
    if i < e {
      WordEndIs(text, i + 1, e);
    }
  }

  lemma ConcatCons(t: Token, ts: seq<Token>)
    ensures Concat([t] + ts) == Value(t) + Concat(ts)
  {
    assert ([t] + ts)[1..] == ts;
  }

  /** The token texts put back together give the text back. */
  lemma {:induction false} LexConcat(text: string, i: nat)
    requires i <= |text|
    ensures Concat(LexFrom(text, i)) == text[i..]
    decreases |text| - i
  {
    if i < |text| {
      var e := if text[i] == ' ' then i + 1 else WordEnd(text, i);
      var head := if text[i] == ' ' then Space else Str(text[i..e]);
      assert LexFrom(text, i) == [head] + LexFrom(text, e);
      assert Value(head) == text[i..e];
      LexConcat(text, e);
      ConcatCons(head, LexFrom(text, e));
      assert text[i..] == text[i..e] + text[e..];
    }
  }

  /** The tokens of a text from `i` on are well formed: every word is
      non-empty and space-free, and a space always follows a word. */
  lemma {:induction false} LexWellFormed(text: string, i: nat)
    requires i <= |text|
    ensures WellFormed(LexFrom(text, i))
    decreases |text| - i
  {
    if i < |text| {
      var e := if text[i] == ' ' then i + 1 else WordEnd(text, i);
      var head := if text[i] == ' ' then Space else Str(text[i..e]);
      var rest := LexFrom(text, e);
      var ts := LexFrom(text, i);
      assert ts == [head] + rest;
      if head.Str? {
        assert forall k :: 0 <= k < e - i ==> text[i..e][k] == text[i + k];
        assert ' ' !in head.value;
        if e < |text| {
          assert rest[0] == Space;
        }
      }
      LexWellFormed(text, e);
      forall k | 0 <= k < |ts| && ts[k].Str?
        ensures ts[k].value != [] && ' ' !in ts[k].value
      {
        if k > 0 {
          assert ts[k] == rest[k - 1];
        }
      }
      forall k | 0 <= k < |ts| - 1 && ts[k].Str?
        ensures ts[k + 1].Space?
      {
        if k > 0 {
          assert ts[k] == rest[k - 1] && ts[k + 1] == rest[k];
        }
      }
    }
  }

  /** A well-formed sequence of tokens stays well formed without its first. */
  lemma WellFormedTail(ts: seq<Token>)
    requires ts != [] && WellFormed(ts)
    ensures WellFormed(ts[1..])
  {
    var rest := ts[1..];
    forall i | 0 <= i < |rest| && rest[i].Str?
      ensures rest[i].value != [] && ' ' !in rest[i].value
    {
      assert rest[i] == ts[i + 1];
    }
    forall i | 0 <= i < |rest| - 1 && rest[i].Str?
      ensures rest[i + 1].Space?
    {
      assert rest[i] == ts[i + 1] && rest[i + 1] == ts[i + 2];
    }
  }

  /** The lexer's tokens are the only well-formed splitting of the text:
      any well-formed token sequence whose texts make up `text[i..]` is
      `LexFrom(text, i)`. So each maximal run of non-spaces is exactly one
      word token, and each space exactly one `SPACE`. */
  lemma {:induction false} LexUnique(ts: seq<Token>, text: string, i: nat)
    requires i <= |text| && WellFormed(ts) && Concat(ts) == text[i..]
    ensures ts == LexFrom(text, i)
    decreases |ts|
  {
    if ts == [] {
      assert |text[i..]| == 0;
    } else {
      var rest := ts[1..];
      WellFormedTail(ts);
      ConcatCons(ts[0], rest);
      assert ts == [ts[0]] + rest;
      var v := Value(ts[0]);
      assert text[i..] == v + Concat(rest);
      assert v != [];
      var e := i + |v|;
      assert text[i..e] == v && text[e..] == Concat(rest) by {
        assert text[i..][..|v|] == v && text[i..][|v|..] == Concat(rest);
      }
      LexUnique(rest, text, e);
      if ts[0].Space? {
        assert text[i] == v[0] == ' ';
      } else {
        assert text[i] == v[0];
        assert ' ' !in v;
        assert forall k :: i <= k < e ==> text[k] == v[k - i];
        if e < |text| {
          assert rest != [] && rest[0].Space?;
          ConcatCons(rest[0], rest[1..]);
          assert rest == [rest[0]] + rest[1..];
          assert text[e] == text[e..][0] == ' ';
        }
        WordEndIs(text, i, e);
      }
    }
  }

  function SpaceTokens(ts: seq<Token>): nat
  {
    if ts == [] then 0 else (if ts[0].Space? then 1 else 0) + SpaceTokens(ts[1..])
  }

  /** A word holds no space, so skipping it skips none. */
  lemma {:induction false} OccurrencesSkip(text: string, i: nat, e: nat)
    requires i <= e <= |text| && forall k :: i <= k < e ==> text[k] != ' '
    ensures Occurrences(text[i..], ' ') == Occurrences(text[e..], ' ')
    decreases e - i
  {
    if i < e {
      OccurrencesSkip(text, i + 1, e);
      assert text[i..][1..] == text[i + 1..];
    }
  }

  /** Every space of the text is one `SPACE` token, and there are no
      others. */
  lemma {:induction false} LexSpaces(text: string, i: nat)
    requires i <= |text|
    ensures SpaceTokens(LexFrom(text, i)) == Occurrences(text[i..], ' ')
    decreases |text| - i
  {
    if i < |text| {
      var e := if text[i] == ' ' then i + 1 else WordEnd(text, i);
      var head := if text[i] == ' ' then Space else Str(text[i..e]);
      assert LexFrom(text, i) == [head] + LexFrom(text, e);
      assert ([head] + LexFrom(text, e))[1..] == LexFrom(text, e);
      LexSpaces(text, e);
      assert text[i..][1..] == text[i + 1..];
      if text[i] != ' ' {
        OccurrencesSkip(text, i + 1, e);
      }
    }
  }

  /** What `lexer_tokenize` promises of a command line, collected: the
      tokens give the line back up to its first NUL, they are well formed,
      there is one `SPACE` per space, an empty line gives no tokens, and no
      other well-formed splitting exists. */
  lemma LexFacts(source: string)
    ensures var text := CStr(source);
            Concat(Lex(text)) == text && WellFormed(Lex(text)) &&
            SpaceTokens(Lex(text)) == Occurrences(text, ' ') &&
            (Lex(text) == [] <==> text == [])
    ensures forall ts :: WellFormed(ts) && Concat(ts) == CStr(source) ==> ts == Lex(CStr(source))
  {
    var text := CStr(source);
    LexConcat(text, 0);
    LexWellFormed(text, 0);
    LexSpaces(text, 0);
    assert text[0..] == text;
    forall ts | WellFormed(ts) && Concat(ts) == text
      ensures ts == Lex(text)
    {
      LexUnique(ts, text, 0);
    }
  }
}

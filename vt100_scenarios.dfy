/** `vt100_getline` from vt100-tgetc.c over a finite input, and the line
    editing scenarios of test/test.c stated as lemmas about it. */
module Vt100Scenarios {
  import opened CType
  import opened Vt100Spec
  import History

  /** A byte sequence holding no line terminator. */
  predicate NoTerminator(s: seq<byte>) {
    forall i :: 0 <= i < |s| ==> s[i] != LF && s[i] != CR
  }

  /** Feed every byte of `input` to `vt100_char`. */
  function Run(cfg: Config, e: Editor, hist: Option<History.Ring>, input: seq<byte>): (res: (Editor, Option<History.Ring>))
    requires ConfigValid(cfg) && EditorValid(cfg, e) && HistValid(hist)
    ensures EditorValid(cfg, res.0) && HistValid(res.1)
    decreases |input|
  {
    if input == [] then (e, hist)
    else
      var o := VtChar(cfg, e, hist, input[0]);
      Run(cfg, o.ed, o.hist, input[1..])
  }

  /** The `for(;;)` loop of `vt100_getline` from a given state: the line
      captured when the first terminator arrives, or nothing when the input
      runs out before one (`tgetc` returning a negative value). */
  function Capture(cfg: Config, e: Editor, hist: Option<History.Ring>, input: seq<byte>): (res: Option<seq<byte>>)
    requires ConfigValid(cfg) && EditorValid(cfg, e) && HistValid(hist)
    ensures res.Some? <==> !NoTerminator(input)
    ensures res.Some? ==> NulFree(res.value) && (|res.value| == 0 || |res.value| + 2 <= cfg.max)
    decreases |input|
  {
    if input == [] then None
    else
      var o := VtChar(cfg, e, hist, input[0]);
      if o.len >= 0 then Some(e.text)
      else
        var res := Capture(cfg, o.ed, o.hist, input[1..]);
        assert NoTerminator(input[1..]) ==> NoTerminator(input) by {
          if NoTerminator(input[1..]) {
            assert forall i :: 1 <= i < |input| ==> input[i] == input[1..][i - 1];
          }
        }
        res
  }

  /** `vt100_getline`: a fresh capture over `input`. */
  function GetLine(cfg: Config, hist: Option<History.Ring>, input: seq<byte>): (res: Option<seq<byte>>)
    requires ConfigValid(cfg) && HistValid(hist)
    ensures res.Some? <==> !NoTerminator(input)
  {
    Capture(cfg, Init(), hist, input)
  }

  /** Feeding two pieces one after the other is feeding them together. */
  lemma {:induction false} RunAppend(cfg: Config, e: Editor, hist: Option<History.Ring>, a: seq<byte>, b: seq<byte>)
    requires ConfigValid(cfg) && EditorValid(cfg, e) && HistValid(hist)
    ensures var (e1, h1) := Run(cfg, e, hist, a);
      Run(cfg, e, hist, a + b) == Run(cfg, e1, h1, b)
    decreases |a|
  {
    if a == [] {
      assert a + b == b;
    } else {
      var o := VtChar(cfg, e, hist, a[0]);
      assert (a + b)[1..] == a[1..] + b;
      RunAppend(cfg, o.ed, o.hist, a[1..], b);
    }
  }

  /** Bytes before the first terminator only prepare the state in which it
      arrives. */
  lemma {:induction false} CaptureAfter(cfg: Config, e: Editor, hist: Option<History.Ring>, a: seq<byte>, b: seq<byte>)
    requires ConfigValid(cfg) && EditorValid(cfg, e) && HistValid(hist) && NoTerminator(a)
    ensures var (e1, h1) := Run(cfg, e, hist, a);
      Capture(cfg, e, hist, a + b) == Capture(cfg, e1, h1, b)
    decreases |a|
  {
    if a == [] {
      assert a + b == b;
    } else {
      var o := VtChar(cfg, e, hist, a[0]);
      LineCompletes(cfg, e, hist, a[0]);
      assert (a + b)[1..] == a[1..] + b;
      assert NoTerminator(a[1..]) by {
        assert forall i :: 0 <= i < |a[1..]| ==> a[1..][i] == a[i + 1];
      }
      CaptureAfter(cfg, o.ed, o.hist, a[1..], b);
    }
  }

  /** Typing printable bytes in the character state inserts them at the
      cursor, as long as the buffer keeps two bytes free. */
  lemma {:induction false} TypeText(cfg: Config, e: Editor, hist: Option<History.Ring>, s: seq<byte>)
    requires ConfigValid(cfg) && EditorValid(cfg, e) && HistValid(hist) && e.state == Char
    requires forall i :: 0 <= i < |s| ==> IsPrint(s[i])
    requires |e.text| + |s| + 2 <= cfg.max
    ensures Run(cfg, e, hist, s) ==
      (e.(text := e.text[..e.cur] + s + e.text[e.cur..], cur := e.cur + |s|), hist)
    decreases |s|
  {
    if s == [] {
      assert e.text[..e.cur] + s + e.text[e.cur..] == e.text;
    } else {
      var o := VtChar(cfg, e, hist, s[0]);
      TypingInserts(cfg, e, hist, s[0]);
      assert o.ed == e.(text := e.text[..e.cur] + [s[0]] + e.text[e.cur..], cur := e.cur + 1);
      TypeText(cfg, o.ed, o.hist, s[1..]);
      InsertAgain(e.text, e.cur, s);
    }
  }

  /** Inserting the rest of `s` after its first byte was inserted at `c`
      inserts all of `s` at `c`. */
  lemma InsertAgain(t: seq<byte>, c: nat, s: seq<byte>)
    requires c <= |t| && s != []
    ensures var t1 := t[..c] + [s[0]] + t[c..];
      t1[..c + 1] + s[1..] + t1[c + 1..] == t[..c] + s + t[c..]
  {
    var t1 := t[..c] + [s[0]] + t[c..];
    assert t1[..c + 1] == t[..c] + [s[0]];
    assert t1[c + 1..] == t[c..];
    assert [s[0]] + s[1..] == s;
  }

  /** The decimal value that `vt100_char` accumulates in `param` from the
      digits `ds`, starting from `p`. */
  function Accumulate(p: nat, ds: seq<byte>): nat
    requires forall i :: 0 <= i < |ds| ==> IsDigit(ds[i])
    decreases |ds|
  {
    if ds == [] then p else Accumulate(10 * p + DigitValue(ds[0]), ds[1..])
  }

  /** Digits after `ESC [` only accumulate the parameter. */
  lemma {:induction false} BracketDigits(cfg: Config, e: Editor, hist: Option<History.Ring>, ds: seq<byte>)
    requires ConfigValid(cfg) && EditorValid(cfg, e) && HistValid(hist) && e.state == Bracket
    requires forall i :: 0 <= i < |ds| ==> IsDigit(ds[i])
    ensures Run(cfg, e, hist, ds) == (e.(param := Accumulate(e.param, ds)), hist)
    decreases |ds|
  {
    if ds != [] {
      var o := VtChar(cfg, e, hist, ds[0]);
      assert o.ed == e.(param := 10 * e.param + DigitValue(ds[0])) && o.hist == hist;
      BracketDigits(cfg, o.ed, o.hist, ds[1..]);
    }
  }

  /** `ESC [` in the character state starts a parameter of 0. */
  lemma BracketLead(cfg: Config, e: Editor, hist: Option<History.Ring>)
    requires ConfigValid(cfg) && EditorValid(cfg, e) && HistValid(hist) && e.state == Char
    ensures Run(cfg, e, hist, [ESC, '[' as int]) == (e.(state := Bracket, param := 0), hist)
  {
    var lead: seq<byte> := [ESC, '[' as int];
    var o1 := VtChar(cfg, e, hist, ESC);
    assert o1.ed == e.(state := Escape) && o1.hist == hist;
    var o2 := VtChar(cfg, o1.ed, o1.hist, '[' as int);
    assert o2.ed == e.(state := Bracket, param := 0) && o2.hist == hist;
    assert lead[1..] == ['[' as int];
    assert lead[1..][1..] == [];
    assert Run(cfg, e, hist, lead) == Run(cfg, o1.ed, o1.hist, lead[1..]);
    assert Run(cfg, o1.ed, o1.hist, lead[1..]) == Run(cfg, o2.ed, o2.hist, []);
  }

  /** The final byte of `ESC [ <digits> <final>` runs the command. */
  lemma BracketFinal(cfg: Config, e: Editor, hist: Option<History.Ring>, final: byte)
    requires ConfigValid(cfg) && EditorValid(cfg, e) && HistValid(hist) && e.state == Bracket
    requires !IsDigit(final) && final != ';' as int && final != LF && final != CR
    ensures var (e2, h2) := EscapeSquareBracket(cfg, e, hist, final);
      Run(cfg, e, hist, [final]) == (e2.(state := Char), h2)
  {
    var o := VtChar(cfg, e, hist, final);
    assert [final][1..] == [];
    assert Run(cfg, e, hist, [final]) == Run(cfg, o.ed, o.hist, []);
  }

  /** A whole `ESC [ <digits> <final>` sequence typed in the character
      state: the command runs with the accumulated parameter and the parser
      returns to the character state. */
  lemma Bracketed(cfg: Config, e: Editor, hist: Option<History.Ring>, ds: seq<byte>, final: byte)
    requires ConfigValid(cfg) && EditorValid(cfg, e) && HistValid(hist) && e.state == Char
    requires forall i :: 0 <= i < |ds| ==> IsDigit(ds[i])
    requires !IsDigit(final) && final != ';' as int && final != LF && final != CR
    ensures var e1 := e.(state := Bracket, param := Accumulate(0, ds));
      var (e2, h2) := EscapeSquareBracket(cfg, e1, hist, final);
      Run(cfg, e, hist, [ESC, '[' as int] + ds + [final]) == (e2.(state := Char), h2)
  {
    var lead: seq<byte> := [ESC, '[' as int];
    var e0 := e.(state := Bracket, param := 0);
    BracketLead(cfg, e, hist);
    RunAppend(cfg, e, hist, lead, ds + [final]);
    assert lead + ds + [final] == lead + (ds + [final]);
    RunAppend(cfg, e0, hist, ds, [final]);
    BracketDigits(cfg, e0, hist, ds);
    BracketFinal(cfg, e0.(param := Accumulate(0, ds)), hist, final);
  }

  /** `ESC O <final>` in the character state: the word jump (full echo
      only), then back to the character state. */
  lemma BigOSequence(cfg: Config, e: Editor, hist: Option<History.Ring>, final: byte)
    requires ConfigValid(cfg) && EditorValid(cfg, e) && HistValid(hist) && e.state == Char
    requires final != LF && final != CR
    ensures Run(cfg, e, hist, [ESC, 'O' as int, final]) == (EscapeBigO(cfg, e, final).(state := Char), hist)
  {
    var s: seq<byte> := [ESC, 'O' as int, final];
    var o1 := VtChar(cfg, e, hist, ESC);
    var o2 := VtChar(cfg, o1.ed, o1.hist, 'O' as int);
    var o3 := VtChar(cfg, o2.ed, o2.hist, final);
    assert o2.ed == e.(state := BigO) && o2.hist == hist;
    assert s[1..] == ['O' as int, final];
    assert s[1..][1..] == [final];
    assert s[1..][1..][1..] == [];
    assert Run(cfg, e, hist, s) == Run(cfg, o1.ed, o1.hist, s[1..]);
    assert Run(cfg, o1.ed, o1.hist, s[1..]) == Run(cfg, o2.ed, o2.hist, s[1..][1..]);
    assert Run(cfg, o2.ed, o2.hist, s[1..][1..]) == Run(cfg, o3.ed, o3.hist, []);
  }

  /** A single byte other than a terminator. */
  lemma OneByte(cfg: Config, e: Editor, hist: Option<History.Ring>, c: byte)
    requires ConfigValid(cfg) && EditorValid(cfg, e) && HistValid(hist)
    ensures var o := VtChar(cfg, e, hist, c);
      Run(cfg, e, hist, [c]) == (o.ed, o.hist)
  {
    var o := VtChar(cfg, e, hist, c);
    assert [c][1..] == [];
    assert Run(cfg, e, hist, [c]) == Run(cfg, o.ed, o.hist, []);
  }

  /** A terminator as the next byte completes the line held so far. */
  lemma Completes(cfg: Config, e: Editor, hist: Option<History.Ring>, rest: seq<byte>)
    requires ConfigValid(cfg) && EditorValid(cfg, e) && HistValid(hist)
    requires |rest| > 0 && (rest[0] == LF || rest[0] == CR)
    ensures Capture(cfg, e, hist, rest) == Some(e.text)
  {
    LineCompletes(cfg, e, hist, rest[0]);
  }

  lemma NoTerminatorAppend(a: seq<byte>, b: seq<byte>)
    requires NoTerminator(a) && NoTerminator(b)
    ensures NoTerminator(a + b)
  {
    assert forall i :: |a| <= i < |a + b| ==> (a + b)[i] == b[i - |a|];
  }

  // ------------------------------------------------- the test scenarios

  /** The terminal of the tests: a 128-byte line buffer, full echo, no
      history and no hints. */
  const Term: Config := Config(128, EchoOn, None)

  /** `ESC [ <digits> <final>`. */
  function Csi(digits: seq<byte>, final: char): seq<byte>
    requires ' ' <= final <= '~'
  {
    [ESC, '[' as int] + digits + [final as int]
  }

  /** Decimal digits. */
  predicate Digits(ds: seq<byte>) {
    forall i :: 0 <= i < |ds| ==> IsDigit(ds[i])
  }

  /** The keys of test/test.c. */
  function HomeKey(): seq<byte> { Csi([49], '~') }
  function EndKey(): seq<byte> { Csi([52], '~') }
  function DeleteKey(): seq<byte> { Csi([51], '~') }
  function Backspace(): seq<byte> { [DEL] }
  function ShiftBackspace(): seq<byte> { [BS] }
  function ShiftLeft(): seq<byte> { [ESC, 'O' as int, 'D' as int] }
  function ShiftRight(): seq<byte> { [ESC, 'O' as int, 'C' as int] }

  /** `a` takes the test terminal from `e` to `e'` without completing a
      line. */
  predicate Leads(e: Editor, a: seq<byte>, e': Editor) {
    EditorValid(Term, e) && NoTerminator(a) && Run(Term, e, None, a) == (e', None)
  }

  lemma Then(e: Editor, a: seq<byte>, e1: Editor, b: seq<byte>, e2: Editor)
    requires Leads(e, a, e1) && Leads(e1, b, e2)
    ensures Leads(e, a + b, e2)
  {
    RunAppend(Term, e, None, a, b);
    NoTerminatorAppend(a, b);
  }

  /** A line feed after `a` completes the line `a` has left in the
      buffer. */
  lemma Finish(a: seq<byte>, e: Editor)
    requires Leads(Init(), a, e)
    ensures GetLine(Term, None, a + [LF]) == Some(e.text)
  {
    assert ConfigValid(Term);
    CaptureAfter(Term, Init(), None, a, [LF]);
    Completes(Term, e, None, [LF]);
  }

  /** Typing printable bytes at the cursor of the test terminal. */
  lemma Typed(e: Editor, b: seq<byte>)
    requires EditorValid(Term, e) && e.state == Char
    requires Printable(b)
    requires |e.text| + |b| + 2 <= Term.max
    ensures Leads(e, b, e.(text := e.text[..e.cur] + b + e.text[e.cur..], cur := e.cur + |b|))
  {
    TypeText(Term, e, None, b);
  }

  /** `ESC [ <digits> <final>` with a decimal parameter `n`. */
  lemma CsiKey(e: Editor, digits: seq<byte>, n: nat, final: char)
    requires EditorValid(Term, e) && e.state == Char && Digits(digits) && ' ' <= final <= '~'
    requires Accumulate(0, digits) == n
    requires !('0' <= final <= '9') && final != ';'
    ensures var (e2, h2) := EscapeSquareBracket(Term, e.(state := Bracket, param := n), None, final as int);
      h2 == None && Leads(e, Csi(digits, final), e2.(state := Char))
  {
    Bracketed(Term, e, None, digits, final as int);
  }

  /** Home moves to the line start. */
  lemma HomeMoves(e: Editor)
    requires EditorValid(Term, e) && e.state == Char
    ensures Leads(e, HomeKey(), e.(param := 1, cur := 0))
  {
    CsiKey(e, [49], 1, '~');
  }

  /** End moves to the line end. */
  lemma EndMoves(e: Editor)
    requires EditorValid(Term, e) && e.state == Char
    ensures Leads(e, EndKey(), e.(param := 4, cur := |e.text|))
  {
    CsiKey(e, [52], 4, '~');
  }

  /** Delete removes the byte under the cursor. */
  lemma DeleteOnce(e: Editor)
    requires EditorValid(Term, e) && e.state == Char && e.cur < |e.text|
    ensures Leads(e, DeleteKey(), e.(param := 3, text := e.text[..e.cur] + e.text[e.cur + 1..]))
  {
    CsiKey(e, [51], 3, '~');
  }

  /** `n` presses of Delete remove the `n` bytes under the cursor. */
  lemma {:induction false} DeleteKeys(e: Editor, n: nat)
    requires EditorValid(Term, e) && e.state == Char && 0 < n && e.cur + n <= |e.text|
    ensures Leads(e, Repeat(DeleteKey(), n), e.(param := 3, text := e.text[..e.cur] + e.text[e.cur + n..]))
    decreases n
  {
    DeleteOnce(e);
    var e1 := e.(param := 3, text := e.text[..e.cur] + e.text[e.cur + 1..]);
    if n == 1 {
      assert Repeat(DeleteKey(), n) == DeleteKey() + [];
      assert DeleteKey() + [] == DeleteKey();
    } else {
      DeleteKeys(e1, n - 1);
      DeleteAgain(e.text, e.cur, n);
      Then(e, DeleteKey(), e1, Repeat(DeleteKey(), n - 1),
        e.(param := 3, text := e.text[..e.cur] + e.text[e.cur + n..]));
    }
  }

  /** Backspace removes the byte before the cursor. */
  lemma BackspaceOnce(e: Editor, e': Editor)
    requires EditorValid(Term, e) && e.state == Char && e' == RemoveChar(Term, e)
    ensures Leads(e, Backspace(), e')
  {
    OneByte(Term, e, None, DEL);
  }

  /** `n` presses of Backspace remove the `n` bytes before the cursor. */
  lemma {:induction false} Backspaces(e: Editor, n: nat)
    requires EditorValid(Term, e) && e.state == Char && n <= e.cur
    ensures Leads(e, Repeat(Backspace(), n), e.(text := e.text[..e.cur - n] + e.text[e.cur..], cur := e.cur - n))
    decreases n
  {
    if n == 0 {
      assert e.text[..e.cur] + e.text[e.cur..] == e.text;
    } else {
      var e1 := e.(text := e.text[..e.cur - 1] + e.text[e.cur..], cur := e.cur - 1);
      BackspaceOnce(e, e1);
      Backspaces(e1, n - 1);
      CutAgain(e.text, e.cur, n);
      Then(e, Backspace(), e1, Repeat(Backspace(), n - 1),
        e.(text := e.text[..e.cur - n] + e.text[e.cur..], cur := e.cur - n));
    }
  }

  /** Cutting `n - 1` bytes before the cursor after one was cut cuts `n`. */
  lemma CutAgain(t: seq<byte>, c: int, n: nat)
    requires 0 < n <= c <= |t|
    ensures var t1 := t[..c - 1] + t[c..];
      t1[..c - 1 - (n - 1)] + t1[c - 1..] == t[..c - n] + t[c..]
  {
    var t1 := t[..c - 1] + t[c..];
    assert t1[..c - n] == t[..c - n];
    assert t1[c - 1..] == t[c..];
  }

  /** Deleting `n - 1` bytes at the cursor after one was deleted deletes `n`. */
  lemma DeleteAgain(t: seq<byte>, c: nat, n: nat)
    requires 1 < n && c + n <= |t|
    ensures var t1 := t[..c] + t[c + 1..];
      t1[..c] + t1[c + (n - 1)..] == t[..c] + t[c + n..]
  {
    var t1 := t[..c] + t[c + 1..];
    assert t1[..c] == t[..c];
    assert t1[c + (n - 1)..] == t[c + n..];
  }

  /** `s` repeated `n` times. */
  function Repeat(s: seq<byte>, n: nat): (r: seq<byte>)
    ensures NoTerminator(s) ==> NoTerminator(r)
  {
    if n == 0 then []
    else
      assert NoTerminator(s) ==> NoTerminator(s + Repeat(s, n - 1)) by {
        if NoTerminator(s) {
          NoTerminatorAppend(s, Repeat(s, n - 1));
        }
      }
      s + Repeat(s, n - 1)
  }

  /** A printable line typed straight through and ended by a terminator
      is captured as typed. */
  lemma TypedLine(a: seq<byte>, t: seq<byte>)
    requires Printable(a)
    requires |a| + 2 <= Term.max && |t| > 0 && (t[0] == CR || t[0] == LF)
    ensures GetLine(Term, None, a + t) == Some(a)
  {
    var e0 := Init();
    Typed(e0, a);
    assert e0.text[..0] + a + e0.text[0..] == a;
    assert ConfigValid(Term);
    CaptureAfter(Term, e0, None, a, t);
    Completes(Term, e0.(text := a, cur := |a|), None, t);
  }

  /** ESC O D: jump to the previous word start. */
  lemma ShiftLeftMoves(e: Editor)
    requires EditorValid(Term, e) && e.state == Char
    ensures Leads(e, ShiftLeft(), e.(cur := PrevWord(e.text, e.cur)))
  {
    BigOSequence(Term, e, None, 'D' as int);
  }

  /** ESC O C: jump to the next word start. */
  lemma ShiftRightMoves(e: Editor)
    requires EditorValid(Term, e) && e.state == Char
    ensures Leads(e, ShiftRight(), e.(cur := NextWord(e.text, e.cur, |e.text|)))
  {
    BigOSequence(Term, e, None, 'C' as int);
  }

  /** Shift + Backspace: erase the word at the cursor. */
  lemma ShiftBackspaceErases(e: Editor, e': Editor)
    requires EditorValid(Term, e) && e.state == Char && e' == EraseWord(Term, e)
    ensures Leads(e, ShiftBackspace(), e')
  {
    OneByte(Term, e, None, BS);
  }

  /** `prevword` stops at `k` when `k` is a word start (or the line start)
      and no word starts between `k` and `pos`. */
  lemma PrevWordIs(t: seq<byte>, pos: int, k: int)
    requires 0 <= k < pos <= |t|
    requires k == 0 || WordStart(t, k)
    requires forall j :: k < j < pos ==> !WordStart(t, j)
    ensures PrevWord(t, pos) == k
  {
  }

  /** `nextword` stops at `k` when `k` is a word start (or the line end)
      and no word starts between `pos` and `k`. */
  lemma NextWordIs(t: seq<byte>, pos: int, k: int)
    requires 0 <= pos < k <= |t|
    requires k == |t| || WordStart(t, k)
    requires forall j :: pos < j < k ==> !WordStart(t, j)
    ensures NextWord(t, pos, |t|) == k
  {
  }

  /** A word: printable bytes, none of them a space. */
  predicate Word(s: seq<byte>) {
    |s| > 0 && forall i :: 0 <= i < |s| ==> IsPrint(s[i]) && !IsSpace(s[i])
  }

  const SP: seq<byte> := [32]

  /** Inside `t`, the bytes `[a, b)` hold a word: nothing after `a` in it
      starts a word. */
  lemma InsideWord(t: seq<byte>, a: int, b: int)
    requires 0 <= a <= b <= |t|
    requires forall i :: a <= i < b ==> !IsSpace(t[i])
    ensures forall j :: a < j < b ==> !WordStart(t, j)
  {
  }

  /** Bytes that the editor inserts when typed: all printable. */
  predicate Printable(s: seq<byte>) {
    forall i :: 0 <= i < |s| ==> IsPrint(s[i])
  }

  /** Printable text joined by a space stays printable. */
  lemma PrintableLine(u: seq<byte>, v: seq<byte>)
    requires Printable(u) && Printable(v)
    ensures Printable(u + SP + v) && Printable(u + SP)
  {
  }

  /** `ESC [ <digits> D`: the cursor moves `n` columns left (one when
      `n` is 0), stopping at the line start. */
  lemma ArrowLeft(e: Editor, digits: seq<byte>, n: nat)
    requires EditorValid(Term, e) && e.state == Char && Digits(digits)
    requires Accumulate(0, digits) == n
    ensures var m := if n == 0 then 1 else n;
      Leads(e, Csi(digits, 'D'), e.(param := n, cur := if m <= e.cur then e.cur - m else 0))
  {
    var e' := e.(state := Bracket, param := n);
    var m := if n == 0 then 1 else n;
    assert EscapeSquareBracket(Term, e', None, 'D' as int) == (CursorBackward(Term, e'), None);
    CursorMoves(Term, e');
    assert CursorBackward(Term, e').(state := Char) == e.(param := n, cur := if m <= e.cur then e.cur - m else 0);
    CsiKey(e, digits, n, 'D');
  }

  /** `ESC [ <digits> C`: the cursor moves `n` columns right (one when
      `n` is 0), stopping at the line end. */
  lemma ArrowRight(e: Editor, digits: seq<byte>, n: nat)
    requires EditorValid(Term, e) && e.state == Char && Digits(digits)
    requires Accumulate(0, digits) == n
    ensures var m := if n == 0 then 1 else n;
      Leads(e, Csi(digits, 'C'), e.(param := n, cur := if e.cur + m <= |e.text| then e.cur + m else |e.text|))
  {
    var e' := e.(state := Bracket, param := n);
    var m := if n == 0 then 1 else n;
    assert EscapeSquareBracket(Term, e', None, 'C' as int) == (CursorForward(Term, e'), None);
    CursorMoves(Term, e');
    assert CursorForward(Term, e').(state := Char) == e.(param := n, cur := if e.cur + m <= |e.text| then e.cur + m else |e.text|);
    CsiKey(e, digits, n, 'C');
  }

  /** The arrow keys of the arrows test (`d100`, `d50` and `d6` the
      digits of 100, 50 and 6) from the end of a line of `k + 6` bytes: the
      cursor ends `k + 1` bytes in. */
  lemma ArrowKeys(e1: Editor, k: nat, d100: seq<byte>, d50: seq<byte>, d6: seq<byte>)
    requires EditorValid(Term, e1) && e1.state == Char && e1.cur == |e1.text| == k + 6 <= 50
    requires Digits(d100) && Accumulate(0, d100) == 100
    requires Digits(d50) && Accumulate(0, d50) == 50
    requires Digits(d6) && Accumulate(0, d6) == 6
    ensures Leads(e1, Csi(d100, 'D') + Csi(d50, 'C') + Csi(d6, 'D') + Csi([], 'C'),
                  e1.(param := 0, cur := k + 1))
  {
    var c1, c2, c3, c4 := Csi(d100, 'D'), Csi(d50, 'C'), Csi(d6, 'D'), Csi([], 'C');
    ArrowLeft(e1, d100, 100);
    var e2 := e1.(param := 100, cur := 0);
    ArrowRight(e2, d50, 50);
    var e3 := e1.(param := 50);
    Then(e1, c1, e2, c2, e3);
    ArrowLeft(e3, d6, 6);
    var e4 := e1.(param := 6, cur := k);
    Then(e1, c1 + c2, e3, c3, e4);
    ArrowRight(e4, [], 0);
    var e5 := e1.(param := 0, cur := k + 1);
    Then(e1, c1 + c2 + c3, e4, c4, e5);
  }

  /** The words of the tests, "One" to "Four", and the digits of the
      escape parameters 100, 50, 12, 10 and 6. */
  const One: seq<byte> := [79, 110, 101]
  const Two: seq<byte> := [84, 119, 111]
  const Three: seq<byte> := [84, 104, 114, 101, 101]
  const Four: seq<byte> := [70, 111, 117, 114]
  const D100: seq<byte> := [49, 48, 48]
  const D50: seq<byte> := [53, 48]
  const D12: seq<byte> := [49, 50]
  const D10: seq<byte> := [49, 48]
  const D6: seq<byte> := [54]

  lemma DigitValues()
    ensures Digits(D100) && Accumulate(0, D100) == 100
    ensures Digits(D50) && Accumulate(0, D50) == 50
    ensures Digits(D12) && Accumulate(0, D12) == 12
    ensures Digits(D10) && Accumulate(0, D10) == 10
    ensures Digits(D6) && Accumulate(0, D6) == 6
  {
  }

  lemma TestWords()
    ensures Word(One) && Word(Two) && Word(Three) && Word(Four)
  {
  }

  /** arrows, for any words `u`, `v`, `w` with `w` five bytes long:
      `ESC [ 100 D` stops at the line start, `ESC [ 50 C` at its end, and
      `ESC [ 6 D` and a bare `ESC [ C` then put the cursor after `u `. */
  lemma ArrowsWith(u: seq<byte>, v: seq<byte>, w: seq<byte>)
    requires Word(u) && Word(v) && Word(w) && |w| == 5 && |u| + |v| + |w| + 4 <= 50
    ensures GetLine(Term, None,
              u + SP + w + (Csi(D100, 'D') + Csi(D50, 'C') + Csi(D6, 'D') + Csi([], 'C'))
              + (v + SP) + [LF]) == Some(u + SP + v + SP + w)
  {
    var t := u + SP + w;
    PrintableLine(u, w);
    PrintableLine(v, []);
    DigitValues();
    ArrowKeys(Init().(text := t, cur := |t|), |u|, D100, D50, D6);
    var em := Init().(text := t, cur := |u| + 1);
    Scenario(t, Csi(D100, 'D') + Csi(D50, 'C') + Csi(D6, 'D') + Csi([], 'C'), em, v + SP);
    assert t[..|u| + 1] == u + SP;
    assert t[|u| + 1..] == w;
    assert em.text[..em.cur] + (v + SP) + em.text[em.cur..] == u + SP + v + SP + w;
  }

  /** The arrows test of test/test.c. */
  lemma Arrows()
    ensures GetLine(Term, None,
              One + SP + Three + (Csi(D100, 'D') + Csi(D50, 'C') + Csi(D6, 'D') + Csi([], 'C'))
              + (Two + SP) + [LF]) == Some(One + SP + Two + SP + Three)
  {
    TestWords();
    ArrowsWith(One, Two, Three);
  }

  /** basicInput: a line typed straight through and ended by CR LF. */
  lemma BasicInput()
    ensures GetLine(Term, None, One + SP + Two + SP + Three + [CR, LF]) == Some(One + SP + Two + SP + Three)
  {
    TestWords();
    PrintableLine(One, Two);
    PrintableLine(One + SP + Two, Three);
    TypedLine(One + SP + Two + SP + Three, [CR, LF]);
  }

  /** A word starts right after a space and nowhere else inside a run of
      non-space bytes. */
  lemma WordAfterSpace(t: seq<byte>, a: int, b: int)
    requires 0 < a < b <= |t| && IsSpace(t[a - 1])
    requires forall i :: a <= i < b ==> !IsSpace(t[i])
    ensures WordStart(t, a)
    ensures forall j :: a < j < b ==> !WordStart(t, j)
  {
  }

  /** The shape of every test: type `a1`, press `keys`, type `a2`, press
      Enter; the line is what `a2` makes of the buffer the keys left. */
  lemma Scenario(a1: seq<byte>, keys: seq<byte>, em: Editor, a2: seq<byte>)
    requires Printable(a1) && |a1| + 2 <= Term.max
    requires Leads(Init().(text := a1, cur := |a1|), keys, em)
    requires EditorValid(Term, em) && em.state == Char
    requires Printable(a2) && |em.text| + |a2| + 2 <= Term.max
    ensures GetLine(Term, None, a1 + keys + a2 + [LF])
            == Some(em.text[..em.cur] + a2 + em.text[em.cur..])
  {
    var e0 := Init();
    Typed(e0, a1);
    assert e0.text[..0] + a1 + e0.text[0..] == a1;
    var e1 := e0.(text := a1, cur := |a1|);
    Typed(em, a2);
    var e3 := em.(text := em.text[..em.cur] + a2 + em.text[em.cur..], cur := em.cur + |a2|);
    Then(e0, a1, e1, keys, em);
    Then(e0, a1 + keys, em, a2, e3);
    Finish(a1 + keys + a2, e3);
  }

  /** The keys of arrows2 on `u w`: Shift + Left twice reaches the line
      start, Shift + Right then the start of `w`. */
  lemma Arrows2Keys(u: seq<byte>, w: seq<byte>)
    requires Word(u) && Word(w) && |u| + |w| + 3 <= Term.max
    ensures var t := u + SP + w;
      Leads(Init().(text := t, cur := |t|), ShiftLeft() + ShiftLeft() + ShiftRight(),
            Init().(text := t, cur := |u| + 1))
  {
    var t := u + SP + w;
    var e1 := Init().(text := t, cur := |t|);
    Arrows2Scan(u, w);
    ShiftLeftMoves(e1);
    var e2 := e1.(cur := |u| + 1);
    ShiftLeftMoves(e2);
    var e3 := e1.(cur := 0);
    ShiftRightMoves(e3);
    Then(e1, ShiftLeft(), e2, ShiftLeft(), e3);
    Then(e1, ShiftLeft() + ShiftLeft(), e3, ShiftRight(), e1.(cur := |u| + 1));
  }

  /** The word starts in `u w`: `w` starts after the space, and `u` at
      the line start. */
  lemma Arrows2Scan(u: seq<byte>, w: seq<byte>)
    requires Word(u) && Word(w)
    ensures var t := u + SP + w;
      && PrevWord(t, |t|) == |u| + 1
      && PrevWord(t, |u| + 1) == 0
      && NextWord(t, 0, |t|) == |u| + 1
  {
    var t := u + SP + w;
    assert forall i :: |u| + 1 <= i < |t| ==> t[i] == w[i - |u| - 1];
    assert forall i :: 0 <= i < |u| ==> t[i] == u[i];
    WordAfterSpace(t, |u| + 1, |t|);
    PrevWordIs(t, |t|, |u| + 1);
    InsideWord(t, 0, |u|);
    PrevWordIs(t, |u| + 1, 0);
    NextWordIs(t, 0, |u| + 1);
  }

  /** arrows2, for any words: two Shift + Left jumps reach the line
      start, a Shift + Right jump the second word. */
  lemma Arrows2With(u: seq<byte>, v: seq<byte>, w: seq<byte>)
    requires Word(u) && Word(v) && Word(w) && |u| + |v| + |w| + 4 <= Term.max
    ensures GetLine(Term, None,
              u + SP + w + (ShiftLeft() + ShiftLeft() + ShiftRight()) + (v + SP) + [LF])
            == Some(u + SP + v + SP + w)
  {
    var t := u + SP + w;
    PrintableLine(u, w);
    PrintableLine(v, []);
    Arrows2Keys(u, w);
    var em := Init().(text := t, cur := |u| + 1);
    Scenario(t, ShiftLeft() + ShiftLeft() + ShiftRight(), em, v + SP);
    assert t[..|u| + 1] == u + SP;
    assert t[|u| + 1..] == w;
    assert em.text[..em.cur] + (v + SP) + em.text[em.cur..] == u + SP + v + SP + w;
  }

  /** The arrows2 test of test/test.c. */
  lemma Arrows2()
    ensures GetLine(Term, None,
              One + SP + Three + (ShiftLeft() + ShiftLeft() + ShiftRight()) + (Two + SP) + [LF])
            == Some(One + SP + Two + SP + Three)
  {
    TestWords();
    Arrows2With(One, Two, Three);
  }

  /** backSpaceEnd, for any words: Backspace once per byte of the last
      word removes it. */
  lemma BackspaceEndWith(u: seq<byte>, v: seq<byte>, w: seq<byte>, x: seq<byte>)
    requires Word(u) && Word(v) && Word(w) && Word(x)
    requires |u| + |v| + |w| + |x| + 4 <= Term.max
    ensures GetLine(Term, None,
              u + SP + x + Repeat(Backspace(), |x|) + (v + SP + w) + [LF])
            == Some(u + SP + v + SP + w)
  {
    PrintableLine(u, x);
    PrintableLine(v, w);
    BackspaceEndKeys(u, x);
    var em := Init().(text := u + SP, cur := |u| + 1);
    Scenario(u + SP + x, Repeat(Backspace(), |x|), em, v + SP + w);
    TypedAtEnd(u, v, w);
  }

  /** The keys of backSpaceEnd on `u x`: one Backspace per byte of `x`
      leaves `u` and the space. */
  lemma BackspaceEndKeys(u: seq<byte>, x: seq<byte>)
    requires Word(u) && Word(x) && |u| + |x| + 3 <= Term.max
    ensures var t := u + SP + x;
      Leads(Init().(text := t, cur := |t|), Repeat(Backspace(), |x|), Init().(text := u + SP, cur := |u| + 1))
  {
    var t := u + SP + x;
    PrintableLine(u, x);
    var e1 := Init().(text := t, cur := |t|);
    Backspaces(e1, |x|);
    DropLast(u + SP, x);
  }

  /** Cutting the `|x|` bytes before the end of `p x` leaves `p`. */
  lemma DropLast(p: seq<byte>, x: seq<byte>)
    ensures (p + x)[..|p + x| - |x|] + (p + x)[|p + x|..] == p
  {
    assert (p + x)[..|p + x| - |x|] == p;
  }

  /** `v w` typed at the end of `u ` makes the line `u v w`. */
  lemma TypedAtEnd(u: seq<byte>, v: seq<byte>, w: seq<byte>)
    ensures (u + SP)[..|u| + 1] + (v + SP + w) + (u + SP)[|u| + 1..] == u + SP + v + SP + w
  {
    assert (u + SP)[..|u| + 1] == u + SP;
    assert (u + SP)[|u| + 1..] == [];
  }

  /** The backSpaceEnd test of test/test.c. */
  lemma BackspaceEnd()
    ensures GetLine(Term, None,
              One + SP + Four + Repeat(Backspace(), 4) + (Two + SP + Three) + [LF])
            == Some(One + SP + Two + SP + Three)
  {
    TestWords();
    BackspaceEndWith(One, Two, Three, Four);
  }

  /** `p w` fits the test terminal, `p` is printable and ends in a space
      and `w` is a word. */
  predicate MiddleReady(p: seq<byte>, w: seq<byte>, n: nat) {
    Printable(p) && |p| > 0 && p[|p| - 1] == 32 && Word(w) && n <= |p| && |p| + |w| + 2 <= Term.max
  }

  /** In `p w`, where `p` ends in a space and `w` is a word, the last word
      starts after `p`. */
  lemma LastWordScan(p: seq<byte>, w: seq<byte>)
    requires |p| > 0 && p[|p| - 1] == 32 && Word(w)
    ensures PrevWord(p + w, |p + w|) == |p|
  {
    var t := p + w;
    assert forall i :: |p| <= i < |t| ==> t[i] == w[i - |p|];
    WordAfterSpace(t, |p|, |t|);
    PrevWordIs(t, |t|, |p|);
  }

  /** The keys of backSpaceMiddle on `p w`, where `p` ends in a space:
      Shift + Left jumps to the start of `w`, then `n` Backspaces remove
      the last `n` bytes of `p`. */
  lemma BackspaceMiddleKeys(p: seq<byte>, w: seq<byte>, n: nat)
    requires MiddleReady(p, w, n)
    ensures var t := p + w;
      Leads(Init().(text := t, cur := |t|), ShiftLeft() + Repeat(Backspace(), n),
            Init().(text := p[..|p| - n] + w, cur := |p| - n))
  {
    var t := p + w;
    var e1 := Init().(text := t, cur := |t|);
    assert Printable(t);
    LastWordScan(p, w);
    ShiftLeftMoves(e1);
    var e2 := e1.(cur := |p|);
    Backspaces(e2, n);
    assert t[..|p| - n] + t[|p|..] == p[..|p| - n] + w;
    Then(e1, ShiftLeft(), e2, Repeat(Backspace(), n), Init().(text := p[..|p| - n] + w, cur := |p| - n));
  }

  /** backSpaceMiddle on `p w`: the line keeps `w` and loses the last `n`
      bytes of `p`. */
  lemma BackspaceMiddleLine(p: seq<byte>, w: seq<byte>, n: nat)
    requires MiddleReady(p, w, n)
    ensures GetLine(Term, None, p + w + (ShiftLeft() + Repeat(Backspace(), n)) + [LF])
            == Some(p[..|p| - n] + w)
  {
    var t := p + w;
    var keys := ShiftLeft() + Repeat(Backspace(), n);
    BackspaceMiddleKeys(p, w, n);
    var em := Init().(text := p[..|p| - n] + w, cur := |p| - n);
    assert Printable(t);
    Scenario(t, keys, em, []);
    assert t + keys + [] == t + keys;
    assert em.text[..em.cur] + [] + em.text[em.cur..] == em.text;
  }

  /** The text `u v x ` before the last word of backSpaceMiddle. */
  lemma MiddleText(u: seq<byte>, v: seq<byte>, w: seq<byte>, x: seq<byte>)
    requires Word(u) && Word(v) && Word(w) && Word(x)
    requires |u| + |v| + |w| + |x| + 5 <= Term.max
    ensures var p := u + SP + v + SP + x + SP;
      MiddleReady(p, w, |x| + 1) && p[..|p| - (|x| + 1)] == u + SP + v + SP
  {
    PrintableLine(u, v);
    PrintableLine(u + SP + v, x);
    var p := u + SP + v + SP + x + SP;
    assert p[..|p| - (|x| + 1)] == u + SP + v + SP;
  }

  /** backSpaceMiddle, for any words: after a Shift + Left jump to the last
      word, Backspace removes the word and space before it. */
  lemma BackspaceMiddleWith(u: seq<byte>, v: seq<byte>, w: seq<byte>, x: seq<byte>, n: nat)
    requires Word(u) && Word(v) && Word(w) && Word(x) && n == |x| + 1
    requires |u| + |v| + |w| + |x| + 5 <= Term.max
    ensures GetLine(Term, None,
              u + SP + v + SP + x + SP + w + (ShiftLeft() + Repeat(Backspace(), n)) + [LF])
            == Some(u + SP + v + SP + w)
  {
    MiddleText(u, v, w, x);
    BackspaceMiddleLine(u + SP + v + SP + x + SP, w, n);
  }

  /** The backSpaceMiddle test of test/test.c. */
  lemma BackspaceMiddle()
    ensures GetLine(Term, None,
              One + SP + Two + SP + Four + SP + Three + (ShiftLeft() + Repeat(Backspace(), 5)) + [LF])
            == Some(One + SP + Two + SP + Three)
  {
    TestWords();
    BackspaceMiddleWith(One, Two, Three, Four, 5);
  }

  /** The key of shiftBackSpaceEnd on `u x`: Shift + Backspace at the line
      end erases the last word `x`. */
  lemma ShiftBackspaceEndKeys(u: seq<byte>, x: seq<byte>)
    requires Word(u) && Word(x) && |u| + |x| + 3 <= Term.max
    ensures var t := u + SP + x;
      Leads(Init().(text := t, cur := |t|), ShiftBackspace(), Init().(text := u + SP, cur := |u| + 1))
  {
    var t := u + SP + x;
    var e1 := Init().(text := t, cur := |t|);
    assert forall i :: |u| + 1 <= i < |t| ==> t[i] == x[i - |u| - 1];
    WordAfterSpace(t, |u| + 1, |t|);
    PrevWordIs(t, |t|, |u| + 1);
    NextWordIs(t, |u| + 1, |t|);
    assert t[..|u| + 1] + t[|t|..] == u + SP;
    ShiftBackspaceErases(e1, Init().(text := u + SP, cur := |u| + 1));
  }

  /** shiftBackSpaceEnd, for any words: Shift + Backspace erases the last
      word, then the rest is typed. */
  lemma ShiftBackspaceEndWith(u: seq<byte>, v: seq<byte>, w: seq<byte>, x: seq<byte>)
    requires Word(u) && Word(v) && Word(w) && Word(x)
    requires |u| + |v| + |w| + |x| + 4 <= Term.max
    ensures GetLine(Term, None, u + SP + x + ShiftBackspace() + (v + SP + w) + [LF])
            == Some(u + SP + v + SP + w)
  {
    PrintableLine(u, x);
    PrintableLine(v, w);
    ShiftBackspaceEndKeys(u, x);
    var em := Init().(text := u + SP, cur := |u| + 1);
    Scenario(u + SP + x, ShiftBackspace(), em, v + SP + w);
    TypedAtEnd(u, v, w);
  }

  /** The shiftBackSpaceEnd test of test/test.c. */
  lemma ShiftBackspaceEnd()
    ensures GetLine(Term, None, One + SP + Four + ShiftBackspace() + (Two + SP + Three) + [LF])
            == Some(One + SP + Two + SP + Three)
  {
    TestWords();
    ShiftBackspaceEndWith(One, Two, Three, Four);
  }

  /** In `u x r`, where `r` is a space and then a word, the word at any
      cursor inside `x` is `x` and the next word starts after the space. */
  lemma MiddleWordScan(u: seq<byte>, x: seq<byte>, r: seq<byte>, c: int)
    requires Word(u) && Word(x) && |r| > 1 && r[0] == 32 && !IsSpace(r[1])
    requires |u| + 1 < c <= |u| + 1 + |x|
    ensures var t := u + SP + x + r;
      && PrevWord(t, c) == |u| + 1
      && NextWord(t, |u| + 1, |t|) == |u| + |x| + 2
      && t[..|u| + 1] + t[|u| + |x| + 2..] == u + SP + r[1..]
  {
    var t := u + SP + x + r;
    var first := |u| + 1;
    var end := first + |x| + 1;
    assert forall i :: first <= i < first + |x| ==> t[i] == x[i - first];
    assert forall i :: first + |x| <= i < |t| ==> t[i] == r[i - first - |x|];
    WordAfterSpace(t, first, first + |x|);
    PrevWordIs(t, c, first);
    assert WordStart(t, end);
    NextWordIs(t, first, end);
    assert t[..first] + t[end..] == u + SP + r[1..];
  }

  /** The keys of shiftBackSpaceMiddle on `u x r`: `ESC [ n D` puts the
      cursor inside `x`, Shift + Backspace erases `x` and the space after
      it. */
  lemma EraseMiddleKeys(u: seq<byte>, x: seq<byte>, r: seq<byte>, digits: seq<byte>, n: nat)
    requires Word(u) && Word(x) && Printable(r) && |r| > 1 && r[0] == 32 && !IsSpace(r[1])
    requires |u| + |x| + |r| + 3 <= Term.max
    requires Digits(digits) && Accumulate(0, digits) == n && 0 < n
    requires |u| + 1 < |u| + 1 + |x| + |r| - n <= |u| + 1 + |x|
    ensures var t := u + SP + x + r;
      Leads(Init().(text := t, cur := |t|), Csi(digits, 'D') + ShiftBackspace(),
            Init().(param := n, text := u + SP + r[1..], cur := |u| + 1))
  {
    var t := u + SP + x + r;
    var e1 := Init().(text := t, cur := |t|);
    PrintableLine(u, x);
    assert Printable(t);
    ArrowLeft(e1, digits, n);
    var e2 := Init().(param := n, text := t, cur := |t| - n);
    assert e1.(param := n, cur := if n <= e1.cur then e1.cur - n else 0) == e2;
    EraseMiddleResult(u, x, r, n);
    ShiftBackspaceErases(e2, Init().(param := n, text := u + SP + r[1..], cur := |u| + 1));
    Then(e1, Csi(digits, 'D'), e2, ShiftBackspace(), Init().(param := n, text := u + SP + r[1..], cur := |u| + 1));
  }

  /** Shift + Backspace with the cursor inside `x` of `u x r` erases `x`
      and the space after it. */
  lemma EraseMiddleResult(u: seq<byte>, x: seq<byte>, r: seq<byte>, n: nat)
    requires Word(u) && Word(x) && Printable(r) && |r| > 1 && r[0] == 32 && !IsSpace(r[1])
    requires |u| + |x| + |r| + 3 <= Term.max
    requires |u| + 1 < |u| + 1 + |x| + |r| - n <= |u| + 1 + |x|
    ensures var t := u + SP + x + r;
      && EditorValid(Term, Init().(param := n, text := t, cur := |t| - n))
      && EraseWord(Term, Init().(param := n, text := t, cur := |t| - n))
         == Init().(param := n, text := u + SP + r[1..], cur := |u| + 1)
  {
    var t := u + SP + x + r;
    PrintableLine(u, x);
    assert Printable(t);
    MiddleWordScan(u, x, r, |t| - n);
  }

  /** shiftBackSpaceMiddle on `u x r`: the line loses `x` and one space. */
  lemma EraseMiddleLine(u: seq<byte>, x: seq<byte>, r: seq<byte>, digits: seq<byte>, n: nat)
    requires Word(u) && Word(x) && Printable(r) && |r| > 1 && r[0] == 32 && !IsSpace(r[1])
    requires |u| + |x| + |r| + 3 <= Term.max
    requires Digits(digits) && Accumulate(0, digits) == n && 0 < n
    requires |u| + 1 < |u| + 1 + |x| + |r| - n <= |u| + 1 + |x|
    ensures GetLine(Term, None, u + SP + x + r + (Csi(digits, 'D') + ShiftBackspace()) + [LF])
            == Some(u + SP + r[1..])
  {
    var t := u + SP + x + r;
    var keys := Csi(digits, 'D') + ShiftBackspace();
    EraseMiddleKeys(u, x, r, digits, n);
    var em := Init().(param := n, text := u + SP + r[1..], cur := |u| + 1);
    PrintableLine(u, x);
    assert Printable(t);
    Scenario(t, keys, em, []);
    assert t + keys + [] == t + keys;
    assert em.text[..em.cur] + [] + em.text[em.cur..] == em.text;
  }

  /** The line `u x v w` of shiftBackSpaceMiddle, split after `x`. */
  lemma MiddleWordText(u: seq<byte>, v: seq<byte>, w: seq<byte>, x: seq<byte>)
    requires Word(v) && Word(w)
    ensures var r := SP + v + SP + w;
      && u + SP + x + r == u + SP + x + SP + v + SP + w
      && u + SP + r[1..] == u + SP + v + SP + w
      && Printable(r) && |r| > 1 && r[0] == 32 && !IsSpace(r[1])
  {
    var r := SP + v + SP + w;
    assert r[1..] == v + SP + w;
    PrintableLine([], v);
    PrintableLine(SP + v, w);
  }

  /** shiftBackSpaceMiddle, for any words with `x v w` twelve bytes long:
      `ESC [ 12 D` lands inside `x`, and Shift + Backspace erases it. */
  lemma ShiftBackspaceMiddleWith(u: seq<byte>, v: seq<byte>, w: seq<byte>, x: seq<byte>)
    requires Word(u) && Word(v) && Word(w) && Word(x)
    requires |x| + |v| + |w| == 12 && 2 <= |x| && |u| + 18 <= Term.max
    ensures GetLine(Term, None, u + SP + x + SP + v + SP + w + (Csi(D12, 'D') + ShiftBackspace()) + [LF])
            == Some(u + SP + v + SP + w)
  {
    MiddleWordText(u, v, w, x);
    DigitValues();
    EraseMiddleLine(u, x, SP + v + SP + w, D12, 12);
  }

  /** The shiftBackSpaceMiddle test of test/test.c. */
  lemma ShiftBackspaceMiddle()
    ensures GetLine(Term, None, One + SP + Four + SP + Two + SP + Three + (Csi(D12, 'D') + ShiftBackspace()) + [LF])
            == Some(One + SP + Two + SP + Three)
  {
    TestWords();
    ShiftBackspaceMiddleWith(One, Two, Three, Four);
  }

  /** The keys of the delete test on `p x r`: `ESC [ n D` brings the cursor
      back to the start of `x`, and `k` presses of Delete remove it. */
  lemma DeleteMiddleKeys(p: seq<byte>, x: seq<byte>, r: seq<byte>, digits: seq<byte>, n: nat, k: nat)
    requires Printable(p + x + r) && |p| + |x| + |r| + 2 <= Term.max
    requires Digits(digits) && Accumulate(0, digits) == n && 0 < n == |x| + |r| && k == |x| > 0
    ensures var t := p + x + r;
      Leads(Init().(text := t, cur := |t|), Csi(digits, 'D') + Repeat(DeleteKey(), k),
            Init().(param := 3, text := p + r, cur := |p|))
  {
    var t := p + x + r;
    var e1 := Init().(text := t, cur := |t|);
    ArrowLeft(e1, digits, n);
    var e2 := e1.(param := n, cur := |p|);
    DeleteKeys(e2, k);
    DropMiddle(p, x, r);
    Then(e1, Csi(digits, 'D'), e2, Repeat(DeleteKey(), k), Init().(param := 3, text := p + r, cur := |p|));
  }

  /** The delete test on `p x r`: the line loses `x` and `v` is typed in
      its place. */
  lemma DeleteMiddleLine(p: seq<byte>, x: seq<byte>, r: seq<byte>, v: seq<byte>, digits: seq<byte>, n: nat, k: nat)
    requires Printable(p + x + r) && Printable(v) && |p| + |x| + |r| + 2 <= Term.max
    requires |p| + |r| + |v| + 2 <= Term.max
    requires Digits(digits) && Accumulate(0, digits) == n && 0 < n == |x| + |r| && k == |x| > 0
    ensures GetLine(Term, None, p + x + r + (Csi(digits, 'D') + Repeat(DeleteKey(), k)) + v + [LF])
            == Some(p + v + r)
  {
    DeleteMiddleKeys(p, x, r, digits, n, k);
    var em := Init().(param := 3, text := p + r, cur := |p|);
    Scenario(p + x + r, Csi(digits, 'D') + Repeat(DeleteKey(), k), em, v);
    TypedBetween(p, v, r);
  }

  /** Cutting `x` out of `p x r` leaves `p r`. */
  lemma DropMiddle(p: seq<byte>, x: seq<byte>, r: seq<byte>)
    ensures (p + x + r)[..|p|] + (p + x + r)[|p| + |x|..] == p + r
  {
    assert (p + x + r)[..|p|] == p;
    assert (p + x + r)[|p| + |x|..] == r;
  }

  /** `v` typed between `p` and `r` makes the line `p v r`. */
  lemma TypedBetween(p: seq<byte>, v: seq<byte>, r: seq<byte>)
    ensures (p + r)[..|p|] + v + (p + r)[|p|..] == p + v + r
  {
    assert (p + r)[..|p|] == p;
    assert (p + r)[|p|..] == r;
  }

  /** delete, for any words with `x w` nine bytes long: `ESC [ 10 D` lands
      on `x`, Delete once per byte removes it and `v` is typed there. */
  lemma DeleteWith(u: seq<byte>, v: seq<byte>, w: seq<byte>, x: seq<byte>, k: nat)
    requires Word(u) && Word(v) && Word(w) && Word(x) && k == |x|
    requires |x| + 1 + |w| == 10 && |u| + |v| + 13 <= Term.max
    ensures GetLine(Term, None, u + SP + x + SP + w + (Csi(D10, 'D') + Repeat(DeleteKey(), k)) + v + [LF])
            == Some(u + SP + v + SP + w)
  {
    PrintableLine(u, x);
    PrintableLine(u + SP + x, w);
    assert u + SP + x + SP + w == (u + SP) + x + (SP + w);
    assert (u + SP) + v + (SP + w) == u + SP + v + SP + w;
    DigitValues();
    DeleteMiddleLine(u + SP, x, SP + w, v, D10, 10, k);
  }

  /** The delete test of test/test.c. */
  lemma Delete()
    ensures GetLine(Term, None, One + SP + Four + SP + Three + (Csi(D10, 'D') + Repeat(DeleteKey(), 4)) + Two + [LF])
            == Some(One + SP + Two + SP + Three)
  {
    TestWords();
    DeleteWith(One, Two, Three, Four, 4);
  }

  /** home, for any words: Home goes to the line start, where `u ` is
      typed. */
  lemma HomeWith(u: seq<byte>, v: seq<byte>, w: seq<byte>)
    requires Word(u) && Word(v) && Word(w) && |u| + |v| + |w| + 4 <= Term.max
    ensures GetLine(Term, None, v + SP + w + HomeKey() + (u + SP) + [LF]) == Some(u + SP + v + SP + w)
  {
    var t := v + SP + w;
    PrintableLine(v, w);
    PrintableLine(u, []);
    var e1 := Init().(text := t, cur := |t|);
    HomeMoves(e1);
    var em := e1.(param := 1, cur := 0);
    Scenario(t, HomeKey(), em, u + SP);
    assert em.text[..em.cur] + (u + SP) + em.text[em.cur..] == u + SP + v + SP + w;
  }

  /** The home test of test/test.c. */
  lemma Home()
    ensures GetLine(Term, None, Two + SP + Three + HomeKey() + (One + SP) + [LF]) == Some(One + SP + Two + SP + Three)
  {
    TestWords();
    HomeWith(One, Two, Three);
  }

  /** The keys of the end test after typing `v`: Home, `u `, End. */
  lemma EndKeys(u: seq<byte>, v: seq<byte>)
    requires Word(u) && Word(v) && |u| + |v| + 3 <= Term.max
    ensures Leads(Init().(text := v, cur := |v|), HomeKey() + (u + SP) + EndKey(),
                  Init().(param := 4, text := u + SP + v, cur := |u| + |v| + 1))
  {
    var e1 := Init().(text := v, cur := |v|);
    HomeMoves(e1);
    var e2 := e1.(param := 1, cur := 0);
    PrintableLine(u, []);
    Typed(e2, u + SP);
    var e3 := e2.(text := u + SP + v, cur := |u| + 1);
    assert e2.text[..e2.cur] + (u + SP) + e2.text[e2.cur..] == u + SP + v;
    EndMoves(e3);
    var e4 := e3.(param := 4, cur := |u| + |v| + 1);
    Then(e1, HomeKey(), e2, u + SP, e3);
    Then(e1, HomeKey() + (u + SP), e3, EndKey(), e4);
  }

  /** end, for any words: after Home and `u `, End goes back to the line
      end, where ` w` is typed. */
  lemma EndWith(u: seq<byte>, v: seq<byte>, w: seq<byte>)
    requires Word(u) && Word(v) && Word(w) && |u| + |v| + |w| + 4 <= Term.max
    ensures GetLine(Term, None, v + (HomeKey() + (u + SP) + EndKey()) + (SP + w) + [LF])
            == Some(u + SP + v + SP + w)
  {
    EndKeys(u, v);
    PrintableLine([], w);
    var em := Init().(param := 4, text := u + SP + v, cur := |u| + |v| + 1);
    Scenario(v, HomeKey() + (u + SP) + EndKey(), em, SP + w);
    assert em.text[..em.cur] + (SP + w) + em.text[em.cur..] == u + SP + v + SP + w;
  }

  /** The end test of test/test.c. */
  lemma End()
    ensures GetLine(Term, None, Two + (HomeKey() + (One + SP) + EndKey()) + (SP + Three) + [LF])
            == Some(One + SP + Two + SP + Three)
  {
    TestWords();
    EndWith(One, Two, Three);
  }
}

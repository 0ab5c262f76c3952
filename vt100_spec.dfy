/** What the line editor of vt100.c does, stated on values: the word and
    hint scans, every editing primitive as a function of the captured text
    and cursor, and `vt100_char` as one step of a state machine over an
    `Editor` value and the history's `Ring`. The class `LineEditor` (module
    Vt100) edits the caller's buffer in place and is proved to follow these
    functions step by step. */
module Vt100Spec {
  import opened CType
  import History

  // ------------------------------------------------------ control bytes

  const BS: byte := 8     // Shift + Backspace: erase a word
  const TAB: byte := 9    // next hint
  const LF: byte := 10
  const CR: byte := 13
  const ESC: byte := 27
  const DEL: byte := 127  // Backspace

  // ----------------------------------------------------- word boundaries

  /** A word begins at `j`: a non-space byte at the line start or after a
      space. */
  predicate WordStart(s: seq<byte>, j: int)
    requires 0 <= j < |s|
  {
    !IsSpace(s[j]) && (j == 0 || IsSpace(s[j - 1]))
  }

  /** The first loop of `nextword`: skip non-space bytes. */
  function SkipWord(s: seq<byte>, p: int, end: int): (r: int)
    requires 0 <= p <= end <= |s|
    ensures p <= r <= end
    ensures forall i :: p <= i < r ==> !IsSpace(s[i])
    ensures r < end ==> IsSpace(s[r])
    decreases end - p
  {
    if p < end && !IsSpace(s[p]) then SkipWord(s, p + 1, end) else p
  }

  /** The second loop of `nextword`: skip space bytes. */
  function SkipBlanks(s: seq<byte>, p: int, end: int): (r: int)
    requires 0 <= p <= end <= |s|
    ensures p <= r <= end
    ensures forall i :: p <= i < r ==> IsSpace(s[i])
    ensures r < end ==> !IsSpace(s[r])
    decreases end - p
  {
    if p < end && IsSpace(s[p]) then SkipBlanks(s, p + 1, end) else p
  }

  /** `nextword`: the first word start after `pos`, or `end` when there is
      none before it. */
  function NextWord(s: seq<byte>, pos: int, end: int): (r: int)
    requires 0 <= pos <= end <= |s|
    ensures pos <= r <= end
    ensures pos < end ==> pos < r
    ensures r < end ==> WordStart(s, r)
    ensures forall j :: pos < j < r ==> !WordStart(s, j)
  {
    SkipBlanks(s, SkipWord(s, pos, end), end)
  }

  /** The first loop of `prevword`: skip space bytes backwards. */
  function SkipBlanksBack(s: seq<byte>, p: int): (r: int)
    requires 0 <= p <= |s|
    ensures 0 <= r <= p
    ensures forall i :: r <= i < p ==> IsSpace(s[i])
    ensures r > 0 ==> !IsSpace(s[r - 1])
  {
    if p > 0 && IsSpace(s[p - 1]) then SkipBlanksBack(s, p - 1) else p
  }

  /** The second loop of `prevword`: skip non-space bytes backwards. */
  function SkipWordBack(s: seq<byte>, p: int): (r: int)
    requires 0 <= p <= |s|
    ensures 0 <= r <= p
    ensures forall i :: r <= i < p ==> !IsSpace(s[i])
    ensures r > 0 ==> IsSpace(s[r - 1])
  {
    if p > 0 && !IsSpace(s[p - 1]) then SkipWordBack(s, p - 1) else p
  }

  /** `prevword`: the last word start before `pos`, or 0 when there is
      none. */
  function PrevWord(s: seq<byte>, pos: int): (r: int)
    requires 0 <= pos <= |s|
    ensures 0 <= r <= pos
    ensures 0 < pos ==> r < pos
    ensures 0 < r ==> WordStart(s, r)
    ensures forall j :: r < j < pos ==> !WordStart(s, j)
  {
    SkipWordBack(s, SkipBlanksBack(s, pos))
  }

  // ---------------------------------------------------------------- hints

  /** How far `i` lies after `h` going forwards round `n` hints (`n` for
      `h` itself). */
  function FwdDist(h: int, i: int, n: int): int {
    if i > h then i - h else i - h + n
  }

  /** How far `i` lies before `h` going backwards round `n` hints. */
  function BackDist(h: int, i: int, n: int): int {
    if i < h then h - i else h - i + n
  }

  /** The first hint in `[lo, hi)` that begins with `key`, or -1. */
  function FirstHint(hints: seq<seq<byte>>, key: seq<byte>, lo: int, hi: int): (r: int)
    requires 0 <= lo <= hi <= |hints|
    ensures r == -1 || lo <= r < hi
    ensures r >= 0 ==> HasPrefix(hints[r], key)
    ensures (forall i :: lo <= i < hi && (r == -1 || i < r) ==> !HasPrefix(hints[i], key))
    decreases hi - lo
  {
    if lo == hi then -1
    else if HasPrefix(hints[lo], key) then lo
    else FirstHint(hints, key, lo + 1, hi)
  }

  /** The last hint in `[lo, hi)` that begins with `key`, or -1. */
  function LastHint(hints: seq<seq<byte>>, key: seq<byte>, lo: int, hi: int): (r: int)
    requires 0 <= lo <= hi <= |hints|
    ensures r == -1 || lo <= r < hi
    ensures r >= 0 ==> HasPrefix(hints[r], key)
    ensures (forall i :: lo <= i < hi && (r == -1 || i > r) ==> !HasPrefix(hints[i], key))
    decreases hi - lo
  {
    if lo == hi then -1
    else if HasPrefix(hints[hi - 1], key) then hi - 1
    else LastHint(hints, key, lo, hi - 1)
  }

  /** `nexthint`: with an empty key the next index round the set; otherwise
      the first hint after `h`, going round the set, that begins with the
      key (never `h` itself), or -1. NextHintFinds says which. */
  function NextHint(hints: seq<seq<byte>>, key: seq<byte>, h: int): (r: int)
    requires 0 <= h < |hints|
    ensures r == -1 || (0 <= r < |hints| && (|key| > 0 ==> r != h && HasPrefix(hints[r], key)))
    ensures |key| == 0 ==> r == (h + 1) % |hints|
  {
    if |key| == 0 then
      if |hints| == h + 1 then 0 else h + 1
    else
      var up := FirstHint(hints, key, h + 1, |hints|);
      if up >= 0 then up else FirstHint(hints, key, 0, h)
  }

  /** `prevhint`: the mirror image of `nexthint`. PrevHintFinds says which
      hint it picks. */
  function PrevHint(hints: seq<seq<byte>>, key: seq<byte>, h: int): (r: int)
    requires 0 <= h < |hints|
    ensures r == -1 || (0 <= r < |hints| && (|key| > 0 ==> r != h && HasPrefix(hints[r], key)))
    ensures |key| == 0 ==> r == (h - 1) % |hints|
  {
    if |key| == 0 then
      if 0 == h then |hints| - 1 else h - 1
    else
      var down := LastHint(hints, key, 0, h);
      if down >= 0 then down else LastHint(hints, key, h + 1, |hints|)
  }

  /** With a non-empty key, `nexthint` fails exactly when no hint other than
      the current one begins with the key, and otherwise picks the nearest
      one going forwards round the set. */
  lemma NextHintFinds(hints: seq<seq<byte>>, key: seq<byte>, h: int)
    requires 0 <= h < |hints| && |key| > 0
    ensures var r := NextHint(hints, key, h);
      && (r == -1 <==> forall i :: 0 <= i < |hints| && i != h ==> !HasPrefix(hints[i], key))
      && (r != -1 ==>
            forall i :: 0 <= i < |hints| && FwdDist(h, i, |hints|) < FwdDist(h, r, |hints|) ==>
              !HasPrefix(hints[i], key))
  {
    var up := FirstHint(hints, key, h + 1, |hints|);
    if up < 0 {
      var down := FirstHint(hints, key, 0, h);
      assert NextHint(hints, key, h) == down;
    }
  }

  /** The mirror image of NextHintFinds: the nearest hint going backwards. */
  lemma PrevHintFinds(hints: seq<seq<byte>>, key: seq<byte>, h: int)
    requires 0 <= h < |hints| && |key| > 0
    ensures var r := PrevHint(hints, key, h);
      && (r == -1 <==> forall i :: 0 <= i < |hints| && i != h ==> !HasPrefix(hints[i], key))
      && (r != -1 ==>
            forall i :: 0 <= i < |hints| && BackDist(h, i, |hints|) < BackDist(h, r, |hints|) ==>
              !HasPrefix(hints[i], key))
  {
    var down := LastHint(hints, key, 0, h);
    if down < 0 {
      var up := LastHint(hints, key, h + 1, |hints|);
      assert PrevHint(hints, key, h) == up;
    }
  }

  // ---------------------------------------------------------- the editor

  /** `enum echo`. */
  datatype Echo = EchoOn | EchoOff | EchoPass

  /** `enum state` of the escape-sequence parser. */
  datatype ParserState = Char | Escape | Bracket | BigO

  /** The configuration `struct vt100` and the echo mode: the capacity
      `max` of the line buffer and the hint set, if any. Whether a history
      is attached is given by the `Option<Ring>` passed along. */
  datatype Config = Config(max: int, echo: Echo, hints: Option<seq<seq<byte>>>)

  /** `struct vt100state` seen through the buffer: the captured text
      (`line[0..len)`), the cursor, the escape parameter, the parser state
      and the hint index. */
  datatype Editor = Editor(text: seq<byte>, cur: int, param: nat, state: ParserState, h: int)

  /** The result of one step: the new editor and history, and what
      `vt100_char` returns. */
  datatype Outcome = Outcome(ed: Editor, hist: Option<History.Ring>, len: int)

  predicate ConfigValid(cfg: Config) {
    && cfg.max >= 1
    && (cfg.hints.Some? ==>
          && |cfg.hints.value| >= 1
          && forall i :: 0 <= i < |cfg.hints.value| ==> NulFree(cfg.hints.value[i]))
  }

  /** The editor invariant: the cursor lies within the text, the text
      leaves two bytes of the buffer free (or is empty), it holds no NUL,
      and the hint index designates a hint. */
  predicate EditorValid(cfg: Config, e: Editor) {
    && 0 <= e.cur <= |e.text|
    && (|e.text| == 0 || |e.text| + 2 <= cfg.max)
    && NulFree(e.text)
    && (if cfg.hints.Some? then 0 <= e.h < |cfg.hints.value| else e.h == 0)
  }

  predicate HistValid(hist: Option<History.Ring>) {
    hist.Some? ==> History.RingValid(hist.value)
  }

  /** `vt100_init`: nothing captured, parser waiting for a character. */
  function Init(): (e: Editor)
    ensures forall cfg :: ConfigValid(cfg) ==> EditorValid(cfg, e)
  {
    Editor([], 0, 0, Char, 0)
  }

  /** `vt100_newline`: discard the captured text and the hint index; the
      parser state and parameter are kept. */
  function NewLine(e: Editor): (e': Editor)
    ensures forall cfg :: ConfigValid(cfg) && EditorValid(cfg, e) ==> EditorValid(cfg, e')
  {
    e.(text := [], cur := 0, h := 0)
  }

  /** `addchar`: insert `c` at the cursor unless only two bytes of the
      buffer are left. */
  function AddChar(cfg: Config, e: Editor, c: byte): (e': Editor)
    requires EditorValid(cfg, e) && c != NUL
    ensures EditorValid(cfg, e')
  {
    if |e.text| + 2 >= cfg.max then e
    else e.(text := e.text[..e.cur] + [c] + e.text[e.cur..], cur := e.cur + 1)
  }

  /** `removechar`: drop the byte before the cursor. */
  function RemoveChar(cfg: Config, e: Editor): (e': Editor)
    requires EditorValid(cfg, e)
    ensures EditorValid(cfg, e')
  {
    if e.cur == 0 then e
    else e.(text := e.text[..e.cur - 1] + e.text[e.cur..], cur := e.cur - 1)
  }

  /** `delete`: drop the byte under the cursor. */
  function Delete(cfg: Config, e: Editor): (e': Editor)
    requires EditorValid(cfg, e)
    ensures EditorValid(cfg, e')
  {
    if e.cur == |e.text| then e
    else e.(text := e.text[..e.cur] + e.text[e.cur + 1..])
  }

  /** `home`. */
  function Home(cfg: Config, e: Editor): (e': Editor)
    requires EditorValid(cfg, e)
    ensures EditorValid(cfg, e') && e'.text == e.text && e'.cur == 0
  {
    e.(cur := 0)
  }

  /** `end`. */
  function End(cfg: Config, e: Editor): (e': Editor)
    requires EditorValid(cfg, e)
    ensures EditorValid(cfg, e') && e'.text == e.text && e'.cur == |e.text|
  {
    e.(cur := |e.text|)
  }

  /** `cursorforward`: move `param` columns right (a zero parameter means
      one), but not past the end of the text. */
  function CursorForward(cfg: Config, e: Editor): (e': Editor)
    requires EditorValid(cfg, e)
    ensures EditorValid(cfg, e')
  {
    var param := if 0 == e.param then 1 else e.param;
    var toend := |e.text| - e.cur;
    var columns := if toend < param then toend else param;
    e.(cur := e.cur + columns)
  }

  /** `cursorbackward`: move `param` columns left, but not before the start
      of the text. */
  function CursorBackward(cfg: Config, e: Editor): (e': Editor)
    requires EditorValid(cfg, e)
    ensures EditorValid(cfg, e')
  {
    var param := if 0 == e.param then 1 else e.param;
    var tobegin := e.cur;
    var columns := if tobegin < param then tobegin else param;
    e.(cur := e.cur - columns)
  }

  /** `movenextword`. */
  function MoveNextWord(cfg: Config, e: Editor): (e': Editor)
    requires EditorValid(cfg, e)
    ensures EditorValid(cfg, e') && e'.text == e.text && e.cur <= e'.cur
  {
    e.(cur := NextWord(e.text, e.cur, |e.text|))
  }

  /** `moveprevword`. */
  function MovePrevWord(cfg: Config, e: Editor): (e': Editor)
    requires EditorValid(cfg, e)
    ensures EditorValid(cfg, e') && e'.text == e.text && e'.cur <= e.cur
  {
    e.(cur := PrevWord(e.text, e.cur))
  }

  /** `eraseword` (full echo only): cut from the start of the word at or
      before the cursor up to the start of the next word. */
  function EraseWord(cfg: Config, e: Editor): (e': Editor)
    requires EditorValid(cfg, e)
    ensures EditorValid(cfg, e')
  {
    if cfg.echo != EchoOn then e
    else
      var first := PrevWord(e.text, e.cur);
      var end := NextWord(e.text, first, |e.text|);
      e.(text := e.text[..first] + e.text[end..], cur := first)
  }

  /** How many bytes of a string `addchar` accepts when they are appended
      one by one to a text of length `len`. */
  function Room(cfg: Config, len: int, n: int): (k: int)
    requires 0 <= n
    ensures 0 <= k <= n
    ensures k > 0 ==> len + k + 2 <= cfg.max
    ensures k < n ==> len + k + 2 >= cfg.max
  {
    var room := cfg.max - 2 - len;
    if room <= 0 then 0 else if n < room then n else room
  }

  /** `refill`: cut the text at the cursor, append `str` as far as the
      buffer allows, and leave the cursor where it was. */
  function Refill(cfg: Config, e: Editor, str: seq<byte>): (e': Editor)
    requires EditorValid(cfg, e) && NulFree(str)
    ensures EditorValid(cfg, e')
  {
    e.(text := e.text[..e.cur] + str[..Room(cfg, e.cur, |str|)])
  }

  /** `hint` (full echo with a hint set only): look for the next (or
      previous) hint that begins with the text before the cursor and put
      the rest of it after the cursor. */
  function Hint(cfg: Config, e: Editor, forward: bool): (e': Editor)
    requires ConfigValid(cfg) && EditorValid(cfg, e)
    ensures EditorValid(cfg, e')
  {
    if cfg.echo != EchoOn || cfg.hints.None? then e
    else
      var hs := cfg.hints.value;
      var key := e.text[..e.cur];
      var h := if forward then NextHint(hs, key, e.h) else PrevHint(hs, key, e.h);
      if h < 0 then e
      else Refill(cfg, e.(h := h), hs[h][e.cur..])
  }

  /** `preventry` (full echo with a history only): search the history
      backwards for an entry that begins with the text before the cursor
      and put the rest of it after the cursor. */
  function PrevEntry(cfg: Config, e: Editor, hist: Option<History.Ring>): (res: (Editor, Option<History.Ring>))
    requires EditorValid(cfg, e) && HistValid(hist)
    ensures EditorValid(cfg, res.0) && HistValid(res.1) && (res.1.Some? <==> hist.Some?)
  {
    if cfg.echo != EchoOn || hist.None? then (e, hist)
    else
      var (r, x) := History.FindBack(hist.value, e.text[..e.cur]);
      if x.None? then (e, Some(r))
      else (Refill(cfg, e, CStr(r.slots[x.value][e.cur..])), Some(r))
  }

  /** `nextentry` (full echo with a history only): search the history
      forwards; without a match the text after the cursor is cleared. */
  function NextEntry(cfg: Config, e: Editor, hist: Option<History.Ring>): (res: (Editor, Option<History.Ring>))
    requires EditorValid(cfg, e) && HistValid(hist)
    ensures EditorValid(cfg, res.0) && HistValid(res.1) && (res.1.Some? <==> hist.Some?)
  {
    if cfg.echo != EchoOn || hist.None? then (e, hist)
    else
      var (r, x) := History.FindFwd(hist.value, e.text[..e.cur]);
      var str := if x.None? then [] else CStr(r.slots[x.value][e.cur..]);
      (Refill(cfg, e, str), Some(r))
  }

  /** `cursorctrl`: `ESC [ 1 ~` Home, `ESC [ 3 ~` Delete, `ESC [ 4 ~` End. */
  function CursorCtrl(cfg: Config, e: Editor): (e': Editor)
    requires EditorValid(cfg, e)
    ensures EditorValid(cfg, e')
  {
    if e.param == 1 then Home(cfg, e)
    else if e.param == 3 then Delete(cfg, e)
    else if e.param == 4 then End(cfg, e)
    else e
  }

  /** `escapeSquareBracket`: the command `ESC [ <param> <c>`. */
  function EscapeSquareBracket(cfg: Config, e: Editor, hist: Option<History.Ring>, c: byte): (res: (Editor, Option<History.Ring>))
    requires ConfigValid(cfg) && EditorValid(cfg, e) && HistValid(hist)
    ensures EditorValid(cfg, res.0) && HistValid(res.1) && (res.1.Some? <==> hist.Some?)
  {
    if c == '~' as int then (CursorCtrl(cfg, e), hist)
    else if c == 'A' as int then PrevEntry(cfg, e, hist)
    else if c == 'B' as int then NextEntry(cfg, e, hist)
    else if c == 'C' as int then (CursorForward(cfg, e), hist)
    else if c == 'D' as int then (CursorBackward(cfg, e), hist)
    else if c == 'Z' as int then (Hint(cfg, e, false), hist)
    else (e, hist)
  }

  /** `escapeBigO` (full echo only): `ESC O C` and `ESC O D` jump a word. */
  function EscapeBigO(cfg: Config, e: Editor, c: byte): (e': Editor)
    requires EditorValid(cfg, e)
    ensures EditorValid(cfg, e')
  {
    if cfg.echo != EchoOn then e
    else if c == 'C' as int then MoveNextWord(cfg, e)
    else if c == 'D' as int then MovePrevWord(cfg, e)
    else e
  }

  /** `vt100_char`: one received byte. A line terminator completes the line
      in any parser state: the text goes to the history and its length is
      returned. Every other byte returns -1. */
  function VtChar(cfg: Config, e: Editor, hist: Option<History.Ring>, c: byte): (o: Outcome)
    requires ConfigValid(cfg) && EditorValid(cfg, e) && HistValid(hist)
    ensures EditorValid(cfg, o.ed) && HistValid(o.hist) && (o.hist.Some? <==> hist.Some?)
    ensures o.len == -1 || o.len == |e.text|
  {
    if c == LF || c == CR then
      var hist' := if hist.Some? then Some(History.Added(hist.value, e.text)) else None;
      Outcome(NewLine(e), hist', |e.text|)
    else
      match e.state
      case Char =>
        if c == ESC then Outcome(e.(state := Escape), hist, -1)
        else if c == DEL then Outcome(RemoveChar(cfg, e), hist, -1)
        else if c == TAB then Outcome(Hint(cfg, e, true), hist, -1)
        else if c == BS then Outcome(EraseWord(cfg, e), hist, -1)
        else if IsPrint(c) then Outcome(AddChar(cfg, e, c), hist, -1)
        else Outcome(e, hist, -1)
      case Escape =>
        if c == '[' as int then Outcome(e.(state := Bracket, param := 0), hist, -1)
        else if c == 'O' as int then Outcome(e.(state := BigO), hist, -1)
        else Outcome(e.(state := Char), hist, -1)
      case Bracket =>
        if c == ';' as int then Outcome(e.(param := 0), hist, -1)
        else if !IsDigit(c) then
          var (e', hist') := EscapeSquareBracket(cfg, e, hist, c);
          Outcome(e'.(state := Char), hist', -1)
        else Outcome(e.(param := 10 * e.param + DigitValue(c)), hist, -1)
      case BigO =>
        Outcome(EscapeBigO(cfg, e, c).(state := Char), hist, -1)
  }

  // ------------------------------------------- properties of the editing

  /** Backspace right after typing a byte takes the line back to what it
      was. */
  lemma RemoveCharUndoesAddChar(cfg: Config, e: Editor, c: byte)
    requires EditorValid(cfg, e) && c != NUL && |e.text| + 2 < cfg.max
    ensures RemoveChar(cfg, AddChar(cfg, e, c)) == e
  {
    var e1 := AddChar(cfg, e, c);
    assert e1.text[..e1.cur - 1] == e.text[..e.cur];
    assert e1.text[e1.cur..] == e.text[e.cur..];
  }

  /** Typing a byte, stepping back over it and deleting it also takes the
      line back to what it was. */
  lemma DeleteUndoesAddChar(cfg: Config, e: Editor, c: byte)
    requires EditorValid(cfg, e) && c != NUL && |e.text| + 2 < cfg.max && e.param == 0
    ensures Delete(cfg, CursorBackward(cfg, AddChar(cfg, e, c))) == e
  {
    var e1 := CursorBackward(cfg, AddChar(cfg, e, c));
    assert e1.cur == e.cur;
    assert e1.text[..e1.cur] == e.text[..e.cur];
    assert e1.text[e1.cur + 1..] == e.text[e.cur..];
  }

  /** The arrow keys move the cursor by the parameter (at least one
      column), stop at either end of the text, never change the text, and
      undo each other while they stay inside it. */
  lemma CursorMoves(cfg: Config, e: Editor)
    requires EditorValid(cfg, e)
    ensures var n := if e.param == 0 then 1 else e.param;
      && CursorForward(cfg, e).text == e.text
      && CursorBackward(cfg, e).text == e.text
      && CursorForward(cfg, e).cur == (if e.cur + n <= |e.text| then e.cur + n else |e.text|)
      && CursorBackward(cfg, e).cur == (if n <= e.cur then e.cur - n else 0)
      && (e.cur + n <= |e.text| ==> CursorBackward(cfg, CursorForward(cfg, e)) == e)
      && (n <= e.cur ==> CursorForward(cfg, CursorBackward(cfg, e)) == e)
  {
  }

  /** Shift + Backspace removes one word and the spaces after it: the cut
      starts at a word start (or the line start) at or before the cursor,
      ends at the next word start (or the line end) at or after it, holds
      no other word start, and everything outside the cut is kept. */
  lemma EraseWordCutsOneWord(cfg: Config, e: Editor)
    requires EditorValid(cfg, e) && cfg.echo == EchoOn
    ensures var e' := EraseWord(cfg, e);
      var first := e'.cur;
      var end := first + |e.text| - |e'.text|;
      && 0 <= first <= e.cur <= end <= |e.text|
      && e'.text == e.text[..first] + e.text[end..]
      && (0 < first ==> WordStart(e.text, first))
      && (end < |e.text| ==> WordStart(e.text, end))
      && (forall j :: first < j < end ==> !WordStart(e.text, j))
  {
    var first := PrevWord(e.text, e.cur);
    var end := NextWord(e.text, first, |e.text|);
    if end < e.cur {
      assert false;
    }
  }

  /** `refill` keeps the text before the cursor and the cursor, and puts
      after it as much of `str` as fits: all of it unless the buffer is
      full. */
  lemma RefillAppends(cfg: Config, e: Editor, str: seq<byte>)
    requires EditorValid(cfg, e) && NulFree(str)
    ensures var e' := Refill(cfg, e, str);
      && e'.cur == e.cur && e'.h == e.h && e.cur <= |e'.text| <= e.cur + |str|
      && e'.text == e.text[..e.cur] + str[..|e'.text| - e.cur]
      && (|e'.text| < e.cur + |str| ==> |e'.text| + 2 >= cfg.max)
  {
  }

  /** Tab and Shift + Tab, when they find a hint, show the whole hint on
      the line if it fits, with the cursor left where it was. */
  lemma HintShowsHint(cfg: Config, e: Editor, forward: bool)
    requires ConfigValid(cfg) && EditorValid(cfg, e)
    requires cfg.echo == EchoOn && cfg.hints.Some?
    ensures var hs := cfg.hints.value;
      var key := e.text[..e.cur];
      var h := if forward then NextHint(hs, key, e.h) else PrevHint(hs, key, e.h);
      var e' := Hint(cfg, e, forward);
      && (h < 0 ==> e' == e)
      && (h >= 0 ==> e'.h == h && e'.cur == e.cur && HasPrefix(hs[h], key)
                     && (|hs[h]| + 2 <= cfg.max ==> e'.text == hs[h]))
  {
    var hs := cfg.hints.value;
    var key := e.text[..e.cur];
    var h := if forward then NextHint(hs, key, e.h) else PrevHint(hs, key, e.h);
    if h >= 0 {
      assert hs[h] == hs[h][..e.cur] + hs[h][e.cur..];
    }
  }

  /** Arrow Up with a history: when an entry beginning with the text before
      the cursor is found, the line shows that whole entry if it fits;
      otherwise the line is left alone. */
  lemma PrevEntryRecalls(cfg: Config, e: Editor, hist: Option<History.Ring>)
    requires EditorValid(cfg, e) && HistValid(hist) && cfg.echo == EchoOn && hist.Some?
    ensures var (r, x) := History.FindBack(hist.value, e.text[..e.cur]);
      var (e', hist') := PrevEntry(cfg, e, hist);
      && hist' == Some(r)
      && (x.None? ==> e' == e)
      && (x.Some? ==> e'.cur == e.cur)
      && (x.Some? && |CStr(r.slots[x.value])| + 2 <= cfg.max ==> e'.text == CStr(r.slots[x.value]))
  {
    var (r, x) := History.FindBack(hist.value, e.text[..e.cur]);
    if x.Some? {
      CStrAfter(r.slots[x.value], e.cur);
    }
  }

  /** Arrow Down with a history: the line shows the entry found, or only
      the text before the cursor when there is none. */
  lemma NextEntryRecalls(cfg: Config, e: Editor, hist: Option<History.Ring>)
    requires EditorValid(cfg, e) && HistValid(hist) && cfg.echo == EchoOn && hist.Some?
    ensures var (r, x) := History.FindFwd(hist.value, e.text[..e.cur]);
      var (e', hist') := NextEntry(cfg, e, hist);
      && hist' == Some(r) && e'.cur == e.cur
      && (x.None? ==> e'.text == e.text[..e.cur])
      && (x.Some? && |CStr(r.slots[x.value])| + 2 <= cfg.max ==> e'.text == CStr(r.slots[x.value]))
  {
    var (r, x) := History.FindFwd(hist.value, e.text[..e.cur]);
    if x.Some? {
      CStrAfter(r.slots[x.value], e.cur);
    }
  }

  // ---------------------------------------------- properties of vt100_char

  /** A line is complete exactly when a newline or carriage return
      arrives, in any parser state: its length is returned, it is added to
      the history, and the capture starts over. */
  lemma LineCompletes(cfg: Config, e: Editor, hist: Option<History.Ring>, c: byte)
    requires ConfigValid(cfg) && EditorValid(cfg, e) && HistValid(hist)
    ensures var o := VtChar(cfg, e, hist, c);
      && (o.len >= 0 <==> c == LF || c == CR)
      && (o.len >= 0 ==>
            && o.len == |e.text|
            && o.ed.text == [] && o.ed.cur == 0 && o.ed.h == 0
            && o.ed.state == e.state && o.ed.param == e.param
            && (hist.Some? ==>
                  && o.hist.Some?
                  && History.Entries(o.hist.value) ==
                       if History.IsDuplicate(hist.value, e.text) then History.Entries(hist.value)
                       else if History.Count(hist.value) < |hist.value.slots|
                       then History.Entries(hist.value) + [History.Stored(e.text, hist.value.width)]
                       else History.Entries(hist.value)[1..] + [History.Stored(e.text, hist.value.width)]))
  {
    if c == LF || c == CR {
      if hist.Some? {
        History.AddedEntries(hist.value, e.text);
      }
    }
  }

  /** The history searches move the search position and nothing else. */
  lemma SearchKeepsEntries(cfg: Config, e: Editor, hist: Option<History.Ring>, c: byte)
    requires ConfigValid(cfg) && EditorValid(cfg, e) && HistValid(hist)
    ensures var h' := EscapeSquareBracket(cfg, e, hist, c).1;
      hist.Some? ==>
        && h'.Some?
        && h'.value == hist.value.(pos := h'.value.pos)
        && History.Entries(h'.value) == History.Entries(hist.value)
  {
    if hist.Some? && cfg.echo == EchoOn {
      var r := hist.value;
      var h' := EscapeSquareBracket(cfg, e, hist, c).1;
      if c == 'A' as int {
        History.FindBackFrame(r, e.text[..e.cur]);
        assert h'.value == History.FindBack(r, e.text[..e.cur]).0;
      } else if c == 'B' as int {
        History.FindFwdFrame(r, e.text[..e.cur]);
        assert h'.value == History.FindFwd(r, e.text[..e.cur]).0;
      }
      History.EntriesIgnorePos(r, h'.value.pos);
    }
  }

  /** Every byte but a line terminator leaves the history's entries as they
      were; the arrows only move its search position. */
  lemma EditingKeepsHistory(cfg: Config, e: Editor, hist: Option<History.Ring>, c: byte)
    requires ConfigValid(cfg) && EditorValid(cfg, e) && HistValid(hist) && c != LF && c != CR
    ensures var o := VtChar(cfg, e, hist, c);
      && o.len == -1
      && (hist.Some? ==>
            && o.hist.Some?
            && o.hist.value == hist.value.(pos := o.hist.value.pos)
            && History.Entries(o.hist.value) == History.Entries(hist.value))
  {
    SearchKeepsEntries(cfg, e, hist, c);
  }

  /** Without full echo, editing is limited to typing, Backspace, the
      arrows and Home, End and Delete: Shift + Backspace, Tab, Shift + Tab,
      Arrow Up and Down and the word jumps leave the text and cursor alone,
      and neither the hint index nor the history changes before the line
      completes. */
  lemma EchoGatesEditing(cfg: Config, e: Editor, hist: Option<History.Ring>, c: byte)
    requires ConfigValid(cfg) && EditorValid(cfg, e) && HistValid(hist) && cfg.echo != EchoOn
    ensures var o := VtChar(cfg, e, hist, c);
      && o.ed.h == (if c == LF || c == CR then 0 else e.h)
      && (c != LF && c != CR ==> o.hist == hist)
      && (e.state == Char && (c == BS || c == TAB) ==> o.ed == e)
      && (e.state == Bracket && c in {'A' as int, 'B' as int, 'Z' as int} ==> o.ed == e.(state := Char))
      && (e.state == BigO && c != LF && c != CR ==> o.ed == e.(state := Char))
  {
  }

  /** The escape parser: ESC waits for `[` or `O`; after `ESC [` digits
      accumulate into the decimal parameter, `;` clears it, and any other
      byte ends the sequence; after `ESC O` the next byte ends it. */
  lemma EscapeParsing(cfg: Config, e: Editor, hist: Option<History.Ring>, c: byte)
    requires ConfigValid(cfg) && EditorValid(cfg, e) && HistValid(hist) && c != LF && c != CR
    ensures var o := VtChar(cfg, e, hist, c);
      && (e.state == Char ==> (o.ed.state == Escape <==> c == ESC) && o.ed.state != Bracket && o.ed.state != BigO)
      && (e.state == Escape ==>
            && o.ed.text == e.text && o.ed.cur == e.cur
            && (o.ed.state == Bracket <==> c == '[' as int)
            && (o.ed.state == BigO <==> c == 'O' as int)
            && (c == '[' as int ==> o.ed.param == 0))
      && (e.state == Bracket && IsDigit(c) ==>
            o.ed == e.(param := 10 * e.param + (c - '0' as int)))
      && (e.state == Bracket && c == ';' as int ==> o.ed == e.(param := 0))
      && (e.state == Bracket && !IsDigit(c) && c != ';' as int ==> o.ed.state == Char)
      && (e.state == BigO ==> o.ed.state == Char && o.ed.text == e.text)
  {
  }

  /** In the character state a printable byte is inserted at the cursor
      while the buffer has room, and the cursor moves past it; once only
      two bytes are left, it is dropped. */
  lemma TypingInserts(cfg: Config, e: Editor, hist: Option<History.Ring>, c: byte)
    requires ConfigValid(cfg) && EditorValid(cfg, e) && HistValid(hist)
    requires e.state == Char && IsPrint(c)
    ensures var o := VtChar(cfg, e, hist, c);
      && o.len == -1 && o.hist == hist
      && (|e.text| + 2 < cfg.max ==>
            && o.ed.cur == e.cur + 1
            && o.ed.text[..o.ed.cur] == e.text[..e.cur] + [c]
            && o.ed.text[o.ed.cur..] == e.text[e.cur..])
      && (|e.text| + 2 >= cfg.max ==> o.ed == e)
  {
  }

  // ------------------------------------- the escape parameter as a short

  /** A value stored into a C `short`: its low 16 bits read as two's
      complement. */
  function Short(x: int): (v: int)
    ensures -32768 <= v < 32768 && (x - v) % 65536 == 0
    ensures -32768 <= x < 32768 ==> v == x
  {
    (x + 32768) % 65536 - 32768
  }

  /** The digit step of the `BRACKET` state as written: the decimal
      accumulation is stored back into the `short` field `param`. */
  function ParamAsWritten(param: int, c: byte): (p: int)
    requires IsDigit(c)
    ensures -32768 <= p < 32768 && (10 * param + DigitValue(c) - p) % 65536 == 0
    ensures -32768 <= 10 * param + DigitValue(c) < 32768 ==> p == 10 * param + DigitValue(c)
  {
    Short(10 * param + DigitValue(c))
  }

  /** `cursorforward` and `cursorbackward` as written, for any `param`: the
      signed count of columns the cursor moves. */
  function ColumnsAsWritten(param: int, len: int, cur: int, forward: bool): (d: int)
    ensures 0 <= cur <= len && param >= 0 ==> 0 <= cur + d <= len
    ensures 0 <= cur <= len && param < 0 ==> d == if forward then param else -param
  {
    var p := if 0 == param then 1 else param;
    if forward then
      var toend := len - cur;
      if toend < p then toend else p
    else
      var tobegin := cur;
      -(if tobegin < p then tobegin else p)
  }

  /** `ESC [ 4 0 0 0 0 C` wraps the parameter to -25536, and both arrows
      then put the cursor outside any line shorter than 25536 bytes: Right
      moves it before the start, Left moves it past the end. */
  lemma ParamOverflowLeavesLine(len: int, cur: int)
    requires 0 <= cur <= len < 25536
    ensures var p := ParamAsWritten(ParamAsWritten(ParamAsWritten(ParamAsWritten(
                       ParamAsWritten(0, '4' as int), '0' as int), '0' as int), '0' as int), '0' as int);
      && p == -25536
      && cur + ColumnsAsWritten(p, len, cur, true) < 0
      && cur + ColumnsAsWritten(p, len, cur, false) > len
  {
  }

  /** With the parameter kept as an unbounded count, the digits of
      `ESC [ <digits>` accumulate to their decimal value, and the arrows
      keep the cursor inside the line whatever the value (CursorMoves). */
  lemma ParamAccumulates(cfg: Config, e: Editor, hist: Option<History.Ring>, d1: byte, d2: byte)
    requires ConfigValid(cfg) && EditorValid(cfg, e) && HistValid(hist) && e.state == Escape
    requires IsDigit(d1) && IsDigit(d2)
    ensures var o1 := VtChar(cfg, e, hist, '[' as int);
      var o2 := VtChar(cfg, o1.ed, o1.hist, d1);
      var o3 := VtChar(cfg, o2.ed, o2.hist, d2);
      && o3.ed.state == Bracket
      && o3.ed.param == 10 * DigitValue(d1) + DigitValue(d2)
      && o3.ed.text == e.text && o3.ed.cur == e.cur
  {
  }
}

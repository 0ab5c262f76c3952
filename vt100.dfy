/** The line editor of vt100.c as the source runs it: a `LineEditor` owns
    the caller's line buffer and the fields of `struct vt100state`, and
    every static function of vt100.c is a method that edits the buffer in
    place. Each method is proved to do what the function of the same name
    in Vt100Spec says, and to leave the bytes after the text alone. */
module Vt100 {
  import opened CType
  import opened Vt100Spec
  import History

  // ------------------------------------------------------------- scans

  /** `nextword` over the buffer. */
  method NextWordAt(line: array<byte>, pos: int, end: int) returns (r: int)
    requires 0 <= pos <= end <= line.Length
    ensures r == NextWord(line[..end], pos, end)
  {
    ghost var s := line[..end];
    r := pos;
    while r < end && !IsSpace(line[r])
      invariant pos <= r <= end
      invariant SkipWord(s, r, end) == SkipWord(s, pos, end)
      decreases end - r
    {
      r := r + 1;
    }
    ghost var w := r;
    while r < end && IsSpace(line[r])
      invariant w <= r <= end
      invariant SkipBlanks(s, r, end) == SkipBlanks(s, w, end)
      decreases end - r
    {
      r := r + 1;
    }
  }

  /** `prevword` over the buffer; it reads only the bytes before `pos`, so
      any text length at or past `pos` gives the same answer. */
  method PrevWordAt(line: array<byte>, ghost len: int, pos: int) returns (r: int)
    requires 0 <= pos <= len <= line.Length
    ensures r == PrevWord(line[..len], pos)
  {
    ghost var s := line[..len];
    r := pos;
    while r > 0 && IsSpace(line[r - 1])
      invariant 0 <= r <= pos
      invariant SkipBlanksBack(s, r) == SkipBlanksBack(s, pos)
    {
      r := r - 1;
    }
    ghost var b := r;
    while r > 0 && !IsSpace(line[r - 1])
      invariant 0 <= r <= b
      invariant SkipWordBack(s, r) == SkipWordBack(s, b)
    {
      r := r - 1;
    }
  }

  /** `nexthint`: `key` is the text before the cursor, and each comparison
      is the `memcmp` of its bytes. */
  method NextHintAt(hints: seq<seq<byte>>, key: seq<byte>, h: int) returns (r: int)
    requires 0 <= h < |hints|
    ensures r == NextHint(hints, key, h)
  {
    if |key| == 0 {
      return if |hints| == h + 1 then 0 else h + 1;
    }
    var i := h + 1;
    while i < |hints|
      invariant h + 1 <= i <= |hints|
      invariant FirstHint(hints, key, i, |hints|) == FirstHint(hints, key, h + 1, |hints|)
    {
      if HasPrefix(hints[i], key) {
        return i;
      }
      i := i + 1;
    }
    i := 0;
    while i < h
      invariant 0 <= i <= h
      invariant FirstHint(hints, key, i, h) == FirstHint(hints, key, 0, h)
    {
      if HasPrefix(hints[i], key) {
        return i;
      }
      i := i + 1;
    }
    return -1;
  }

  /** `prevhint`: the mirror image of `nexthint`. */
  method PrevHintAt(hints: seq<seq<byte>>, key: seq<byte>, h: int) returns (r: int)
    requires 0 <= h < |hints|
    ensures r == PrevHint(hints, key, h)
  {
    if |key| == 0 {
      return if 0 == h then |hints| - 1 else h - 1;
    }
    var i := h - 1;
    while i >= 0
      invariant -1 <= i < h
      invariant LastHint(hints, key, 0, i + 1) == LastHint(hints, key, 0, h)
    {
      if HasPrefix(hints[i], key) {
        return i;
      }
      i := i - 1;
    }
    i := |hints| - 1;
    while i > h
      invariant h <= i < |hints|
      invariant LastHint(hints, key, h + 1, i + 1) == LastHint(hints, key, h + 1, |hints|)
    {
      if HasPrefix(hints[i], key) {
        return i;
      }
      i := i - 1;
    }
    return -1;
  }

  // ------------------------------------------------------ byte moves

  /** The loop of `addchar`: every byte from `cur` to `len` moves one place
      up, carrying the previous one, and `c` lands at `cur`. */
  method InsertAt(line: array<byte>, cur: int, len: int, c: byte)
    requires 0 <= cur <= len < line.Length
    modifies line
    ensures line[..len + 1] == old(line[..cur]) + [c] + old(line[cur..len])
    ensures forall k :: len + 1 <= k < line.Length ==> line[k] == old(line[k])
  {
    var x := c;
    var i := cur;
    while i <= len
      invariant cur <= i <= len + 1
      invariant forall k :: 0 <= k < cur ==> line[k] == old(line[k])
      invariant forall k :: cur < k < i ==> line[k] == old(line[k - 1])
      invariant i > cur ==> line[cur] == c
      invariant i <= len ==> x == if i == cur then c else old(line[i - 1])
      invariant forall k :: i <= k < line.Length ==> line[k] == old(line[k])
    {
      var tmp := line[i];
      line[i] := x;
      x := tmp;
      i := i + 1;
    }
    assert forall k :: 0 <= k < len + 1 ==> line[..len + 1][k] == (old(line[..cur]) + [c] + old(line[cur..len]))[k];
  }

  /** The copying loops of `removechar` and `delete`, and `memmove` when the
      destination lies before the source: `n` bytes from `src` go to `dst`,
      lowest first. */
  method MoveDown(line: array<byte>, dst: int, src: int, n: int)
    requires 0 <= dst <= src && 0 <= n && src + n <= line.Length
    modifies line
    ensures line[..dst + n] == old(line[..dst]) + old(line[src..src + n])
    ensures forall k :: dst + n <= k < line.Length ==> line[k] == old(line[k])
  {
    var i := 0;
    while i < n
      invariant 0 <= i <= n
      invariant forall k :: 0 <= k < dst ==> line[k] == old(line[k])
      invariant line[dst..dst + i] == old(line[src..src + i])
      invariant forall k :: dst + i <= k < line.Length ==> line[k] == old(line[k])
    {
      line[dst + i] := line[src + i];
      assert line[dst..dst + i + 1] == line[dst..dst + i] + [line[dst + i]];
      i := i + 1;
    }
    assert line[..dst + n] == line[..dst] + line[dst..dst + n];
  }

  /** Cutting a range out of a NUL-free text leaves it NUL-free. */
  lemma CutNulFree(s: seq<byte>, n: int, first: int, end: int)
    requires 0 <= first <= end <= n <= |s| && NulFree(s[..n])
    ensures NulFree(s[..first] + s[end..n])
  {
    var t := s[..first] + s[end..n];
    forall k | 0 <= k < |t|
      ensures t[k] != NUL
    {
      if k < first {
        assert t[k] == s[..n][k];
      } else {
        assert t[k] == s[..n][k - first + end];
      }
    }
  }

  // ------------------------------------------------- appending bytes

  /** `addchar` with the cursor at the end of the text appends the byte,
      unless only two bytes of the buffer are left. */
  lemma AddAtEnd(cfg: Config, e: Editor, c: byte)
    requires EditorValid(cfg, e) && e.cur == |e.text| && c != NUL
    ensures AddChar(cfg, e, c)
            == if |e.text| + 2 >= cfg.max then e else e.(text := e.text + [c], cur := e.cur + 1)
  {
    assert e.text[..e.cur] + [c] + e.text[e.cur..] == e.text + [c];
  }

  /** The editor while `refill` runs, after `k` bytes of `str` were offered
      to `addchar`: the text is cut at the cursor of `e` and grows by the
      bytes that fitted, with the cursor at its end. */
  function Filled(cfg: Config, e: Editor, str: seq<byte>, k: nat): (f: Editor)
    requires 0 <= e.cur <= |e.text| && k <= |str|
    ensures |f.text| == f.cur == e.cur + Room(cfg, e.cur, k)
  {
    var n := Room(cfg, e.cur, k);
    e.(text := e.text[..e.cur] + str[..n], cur := e.cur + n)
  }

  /** One more byte offered: `addchar` takes it while there is room, and
      the loop ends in the state `Refill` describes once the cursor is put
      back. */
  lemma FilledStep(cfg: Config, e: Editor, str: seq<byte>, k: nat)
    requires EditorValid(cfg, e) && k < |str| && str[k] != NUL && NulFree(str[..k])
    ensures EditorValid(cfg, Filled(cfg, e, str, k))
    ensures AddChar(cfg, Filled(cfg, e, str, k), str[k]) == Filled(cfg, e, str, k + 1)
  {
    var f := Filled(cfg, e, str, k);
    var n := Room(cfg, e.cur, k);
    assert NulFree(f.text) by {
      assert forall i :: e.cur <= i < |f.text| ==> f.text[i] == str[..k][i - e.cur];
    }
    AddAtEnd(cfg, f, str[k]);
    if |f.text| + 2 < cfg.max {
      assert str[..n + 1] == str[..n] + [str[k]];
    }
  }

  /** The end of the `refill` loop: with the whole C string offered and the
      cursor put back, the editor is the one `Refill` describes. */
  lemma FilledDone(cfg: Config, e: Editor, str: seq<byte>, k: nat)
    requires EditorValid(cfg, e) && k <= |str| && NulFree(str[..k])
    requires k < |str| ==> str[k] == NUL
    ensures Filled(cfg, e, str, k).(cur := e.cur) == Refill(cfg, e, CStr(str))
  {
    CStrUnique(str, str[..k]);
    assert str[..k][..Room(cfg, e.cur, k)] == str[..Room(cfg, e.cur, k)];
  }

  // ------------------------------------------------------------- editor

  /** `struct vt100state` with its configuration `struct vt100`: the
      caller's line buffer (`max` is its length), the echo mode, the hint
      set and the history, if any, and the fields the editor updates. */
  class LineEditor {
    const line: array<byte>
    const echo: Echo
    const hints: Option<seq<seq<byte>>>
    const hist: History.History?
    var len: int
    var cur: int
    var param: nat
    var state: ParserState
    var h: int

    /** The configuration as the editing functions see it. */
    function Cfg(): Config {
      Config(line.Length, echo, hints)
    }

    /** The objects of the history, if there is one. */
    function HistFrame(): set<object> {
      if hist == null then {} else {hist, hist.lines}
    }

    /** The state as a value: the text is `line[0..len)`. */
    ghost function Model(): Editor
      reads this, line
      requires 0 <= len <= line.Length
    {
      Editor(line[..len], cur, param, state, h)
    }

    ghost function HistModel(): Option<History.Ring>
      reads HistFrame()
    {
      if hist == null then None else Some(hist.Value())
    }

    /** The editor invariant. */
    ghost predicate Valid()
      reads this, line
    {
      && ConfigValid(Cfg())
      && 0 <= len <= line.Length
      && EditorValid(Cfg(), Model())
    }

    /** The history invariant, if there is a history. */
    ghost predicate HistReady()
      reads HistFrame()
    {
      hist != null ==> hist.Valid()
    }

    /** The bytes at and after the end of the text are those that were
        there before. */
    twostate predicate TailKept()
      reads this, line
    {
      0 <= len <= line.Length && forall i :: len <= i < line.Length ==> line[i] == old(line[i])
    }

    /** `vt100_init`: adopt the configuration; nothing is captured yet. */
    constructor (line: array<byte>, echo: Echo, hints: Option<seq<seq<byte>>>, hist: History.History?)
      requires ConfigValid(Config(line.Length, echo, hints))
      requires hist != null ==> hist.Valid()
      ensures Valid() && HistReady() && Model() == Init()
      ensures this.line == line && this.echo == echo && this.hints == hints && this.hist == hist
    {
      this.line := line;
      this.echo := echo;
      this.hints := hints;
      this.hist := hist;
      len, cur, h, state, param := 0, 0, 0, Char, 0;
    }

    /** `vt100_newline`. */
    method NewLine()
      requires Valid()
      modifies this
      ensures Valid() && Model() == Vt100Spec.NewLine(old(Model()))
    {
      len, cur, h := 0, 0, 0;
    }

    /** `addchar`. */
    method AddChar(c: byte)
      requires Valid() && c != NUL
      modifies this, line
      ensures Valid() && Model() == Vt100Spec.AddChar(Cfg(), old(Model()), c) && TailKept()
    {
      if len + 2 >= line.Length {
        return;
      }
      InsertAt(line, cur, len, c);
      cur := cur + 1;
      len := len + 1;
    }

    /** `removechar`. */
    method RemoveChar()
      requires Valid()
      modifies this, line
      ensures Valid() && Model() == Vt100Spec.RemoveChar(Cfg(), old(Model())) && TailKept()
    {
      if 0 == cur {
        return;
      }
      MoveDown(line, cur - 1, cur, len - cur);
      cur := cur - 1;
      len := len - 1;
    }

    /** `home`. */
    method Home()
      requires Valid()
      modifies this
      ensures Valid() && Model() == Vt100Spec.Home(Cfg(), old(Model()))
    {
      cur := 0;
    }

    /** `end`. */
    method End()
      requires Valid()
      modifies this
      ensures Valid() && Model() == Vt100Spec.End(Cfg(), old(Model()))
    {
      cur := len;
    }

    /** `delete`. */
    method Delete()
      requires Valid()
      modifies this, line
      ensures Valid() && Model() == Vt100Spec.Delete(Cfg(), old(Model())) && TailKept()
    {
      if cur == len {
        return;
      }
      len := len - 1;
      MoveDown(line, cur, cur + 1, len - cur);
    }

    /** `cursorforward`. */
    method CursorForward()
      requires Valid()
      modifies this
      ensures Valid() && Model() == Vt100Spec.CursorForward(Cfg(), old(Model()))
    {
      var p := if 0 == param then 1 else param;
      var toend := len - cur;
      var columns := if toend < p then toend else p;
      cur := cur + columns;
    }

    /** `cursorbackward`. */
    method CursorBackward()
      requires Valid()
      modifies this
      ensures Valid() && Model() == Vt100Spec.CursorBackward(Cfg(), old(Model()))
    {
      var p := if 0 == param then 1 else param;
      var tobegin := cur;
      var columns := if tobegin < p then tobegin else p;
      cur := cur - columns;
    }

    /** `movenextword`. */
    method MoveNextWord()
      requires Valid()
      modifies this
      ensures Valid() && Model() == Vt100Spec.MoveNextWord(Cfg(), old(Model()))
    {
      cur := NextWordAt(line, cur, len);
    }

    /** `moveprevword`. */
    method MovePrevWord()
      requires Valid()
      modifies this
      ensures Valid() && Model() == Vt100Spec.MovePrevWord(Cfg(), old(Model()))
    {
      cur := PrevWordAt(line, len, cur);
    }

    /** `eraseword`: the word around the cursor is cut out. */
    method EraseWord()
      requires Valid()
      modifies this, line
      ensures Valid() && Model() == Vt100Spec.EraseWord(Cfg(), old(Model())) && TailKept()
    {
      if echo != EchoOn {
        return;
      }
      ghost var e0 := Model();
      var first := PrevWordAt(line, len, cur);
      var end := NextWordAt(line, first, len);
      assert e0.text[..first] == line[..first] && e0.text[end..] == line[end..len];
      ghost var target := e0.(text := line[..first] + line[end..len], cur := first);
      assert Vt100Spec.EraseWord(Cfg(), e0) == target;
      Cut(first, end);
      assert Model() == target;
    }

    /** The body of `eraseword` once the word `[first, end)` is known: the
        bytes after it are moved down with `memmove`, the text is cut at
        `first`, and the moved bytes are put back with `addchar` one by one
        before the cursor returns to `first`. */
    method Cut(first: int, end: int)
      requires Valid() && 0 <= first <= end <= len
      modifies this, line
      ensures Valid() && TailKept()
      ensures Model() == old(Model()).(text := old(line[..first]) + old(line[end..len]), cur := first)
    {
      var oldlen := len;
      ghost var target := line[..first] + line[end..oldlen];
      CutNulFree(line[..], oldlen, first, end);
      len, cur := first, first;
      MoveDown(line, first, end, oldlen - end);
      Regrow(oldlen - end);
      cur := first;
    }

    /** The loop at the end of `eraseword`: the `n` bytes already in the
        buffer after the text are offered to `addchar` one by one, with the
        cursor at the end, and each is taken. */
    method Regrow(n: int)
      requires Valid() && cur == len && 0 <= n && len + n <= line.Length
      requires len + n == 0 || len + n + 2 <= line.Length
      requires NulFree(line[..len + n])
      modifies this, line
      ensures Valid() && TailKept()
      ensures Model() == old(Model()).(text := old(line[..len + n]), cur := old(len) + n)
    {
      ghost var e0 := Model();
      ghost var target := line[..len + n];
      var stop := len + n;
      while len < stop
        invariant len <= stop && line[..stop] == target
        invariant Valid() && Model() == e0.(text := target[..len], cur := len)
        invariant forall k :: stop <= k < line.Length ==> line[k] == old(line[k])
      {
        AddAtEnd(Cfg(), Model(), line[len]);
        assert target[..len + 1] == target[..len] + [line[len]];
        AddChar(line[len]);
      }
    }

    /** `refill`: cut the text at the cursor, append the C string `str`
        byte by byte with `addchar`, and put the cursor back. `str` is the
        rest of a hint or a history entry; it ends at its first NUL or at
        the end of its buffer. */
    method Refill(str: seq<byte>)
      requires Valid()
      modifies this, line
      ensures Valid() && Model() == Vt100Spec.Refill(Cfg(), old(Model()), CStr(str)) && TailKept()
    {
      var pos := cur;
      ghost var e0 := Model();
      var k := Fill(str);
      FilledDone(Cfg(), e0, str, k);
      cur := pos;
    }

    /** The loop of `refill`: the text is cut at the cursor and the bytes of
        `str` up to its first NUL are offered to `addchar`; `k` of them were
        offered. */
    method Fill(str: seq<byte>) returns (k: nat)
      requires Valid()
      modifies this, line
      ensures k <= |str| && NulFree(str[..k]) && (k < |str| ==> str[k] == NUL)
      ensures Valid() && Model() == Filled(Cfg(), old(Model()), str, k) && TailKept()
    {
      ghost var e0 := Model();
      len := cur;
      k := 0;
      while k < |str| && str[k] != NUL
        invariant 0 <= k <= |str| && NulFree(str[..k])
        invariant Valid() && Model() == Filled(Cfg(), e0, str, k)
        invariant forall i :: len <= i < line.Length ==> line[i] == old(line[i])
      {
        FilledStep(Cfg(), e0, str, k);
        AddChar(str[k]);
        k := k + 1;
      }
    }

    /** `hint`: Tab (`forward`) or Shift + Tab. */
    method Hint(forward: bool)
      requires Valid()
      modifies this, line
      ensures Valid() && Model() == Vt100Spec.Hint(Cfg(), old(Model()), forward) && TailKept()
    {
      if echo != EchoOn || hints.None? {
        return;
      }
      ghost var e0 := Model();
      assert line[..cur] == e0.text[..e0.cur];
      var k;
      if forward {
        k := NextHintAt(hints.value, line[..cur], h);
      } else {
        k := PrevHintAt(hints.value, line[..cur], h);
      }
      if k < 0 {
        return;
      }
      h := k;
      var str := hints.value[k][cur..];
      CStrUnique(str, str);
      ghost var target := Vt100Spec.Refill(Cfg(), e0.(h := k), str);
      assert Vt100Spec.Hint(Cfg(), e0, forward) == target;
      Refill(str);
      assert Model() == target;
    }

    /** `preventry`: Arrow Up. */
    method PrevEntry()
      requires Valid() && HistReady()
      modifies this, line, HistFrame()
      ensures Valid() && HistReady() && TailKept()
      ensures (Model(), HistModel()) == Vt100Spec.PrevEntry(Cfg(), old(Model()), old(HistModel()))
    {
      if echo != EchoOn || hist == null {
        return;
      }
      ghost var e0 := Model();
      ghost var r0 := hist.Value();
      assert line[..cur] == e0.text[..e0.cur];
      var x := hist.SearchBackward(line[..cur]);
      ghost var r := hist.Value();
      assert (r, x) == History.FindBack(r0, e0.text[..e0.cur]);
      assert Model() == e0;
      if x.Some? {
        assert hist.lines[x.value] == r.slots[x.value];
        Refill(hist.lines[x.value][cur..]);
      }
      assert HistModel() == Some(r);
    }

    /** `nextentry`: Arrow Down; without a match the text after the
        cursor is cleared. */
    method NextEntry()
      requires Valid() && HistReady()
      modifies this, line, HistFrame()
      ensures Valid() && HistReady() && TailKept()
      ensures (Model(), HistModel()) == Vt100Spec.NextEntry(Cfg(), old(Model()), old(HistModel()))
    {
      if echo != EchoOn || hist == null {
        return;
      }
      ghost var e0 := Model();
      ghost var r0 := hist.Value();
      assert line[..cur] == e0.text[..e0.cur];
      var x := hist.SearchForward(line[..cur]);
      ghost var r := hist.Value();
      assert (r, x) == History.FindFwd(r0, e0.text[..e0.cur]);
      assert Model() == e0;
      var str := if x.None? then [] else hist.lines[x.value][cur..];
      assert x.Some? ==> str == r.slots[x.value][e0.cur..];
      assert x.None? ==> CStr(str) == [];
      Refill(str);
      assert HistModel() == Some(r);
    }

    /** `cursorctrl`: the command `ESC [ <param> ~`. */
    method CursorCtrl()
      requires Valid()
      modifies this, line
      ensures Valid() && Model() == Vt100Spec.CursorCtrl(Cfg(), old(Model())) && TailKept()
    {
      if param == 1 {
        Home();
      } else if param == 3 {
        Delete();
      } else if param == 4 {
        End();
      }
    }

    /** `escapeSquareBracket`: the command `ESC [ <param> <c>`. */
    method EscapeSquareBracket(c: byte)
      requires Valid() && HistReady()
      modifies this, line, HistFrame()
      ensures Valid() && HistReady() && TailKept()
      ensures (Model(), HistModel()) == Vt100Spec.EscapeSquareBracket(Cfg(), old(Model()), old(HistModel()), c)
    {
      if c == '~' as byte {
        CursorCtrl();
      } else if c == 'A' as byte {
        PrevEntry();
      } else if c == 'B' as byte {
        NextEntry();
      } else if c == 'C' as byte {
        CursorForward();
      } else if c == 'D' as byte {
        CursorBackward();
      } else if c == 'Z' as byte {
        Hint(false);
      }
    }

    /** `escapeBigO`: the command `ESC O <c>`, in full echo only. */
    method EscapeBigO(c: byte)
      requires Valid()
      modifies this
      ensures Valid() && Model() == Vt100Spec.EscapeBigO(Cfg(), old(Model()), c)
    {
      if echo != EchoOn {
        return;
      }
      if c == 'C' as byte {
        MoveNextWord();
      } else if c == 'D' as byte {
        MovePrevWord();
      }
    }

    /** The line-terminator branch of `vt100_char`. */
    method Complete() returns (r: int)
      requires Valid() && HistReady()
      modifies this, line, HistFrame()
      ensures Valid() && HistReady() && Model() == Vt100Spec.NewLine(old(Model()))
      ensures HistModel() == if hist == null then None else Some(History.Added(old(HistModel()).value, old(Model()).text))
      ensures r == old(len) && line[..] == old(line[..])[old(len) := NUL]
    {
      ghost var text := Model().text;
      line[len] := NUL;
      assert line[..len] == text;
      if hist != null {
        hist.AddLine(line[..len]);
      }
      r := len;
      NewLine();
    }

    /** `vt100_char`: one received byte. On a line terminator the text is
        closed with a NUL in the buffer, handed to the history and its
        length returned, and a new line begins; otherwise the result is -1
        and the buffer after the text is left alone. */
    method VtChar(c: byte) returns (r: int)
      requires Valid() && HistReady()
      modifies this, line, HistFrame()
      ensures Valid() && HistReady()
      ensures Model() == Vt100Spec.VtChar(Cfg(), old(Model()), old(HistModel()), c).ed
      ensures HistModel() == Vt100Spec.VtChar(Cfg(), old(Model()), old(HistModel()), c).hist
      ensures r == Vt100Spec.VtChar(Cfg(), old(Model()), old(HistModel()), c).len
      ensures c == LF || c == CR ==> line[..] == old(line[..])[old(len) := NUL]
      ensures c != LF && c != CR ==> TailKept()
    {
      if c == LF || c == CR {
        r := Complete();
        return;
      }
      r := -1;
      match state
      case Char =>
        if c == ESC {
          state := Escape;
        } else if c == DEL {
          RemoveChar();
        } else if c == TAB {
          Hint(true);
        } else if c == BS {
          EraseWord();
        } else if IsPrint(c) {
          AddChar(c);
        }
      case Escape =>
        if c == '[' as byte {
          state, param := Bracket, 0;
        } else if c == 'O' as byte {
          state := BigO;
        } else {
          state := Char;
        }
      case Bracket =>
        if c == ';' as byte {
          param := 0;
        } else if !IsDigit(c) {
          EscapeSquareBracket(c);
          state := Char;
        } else {
          param := 10 * param + DigitValue(c);
        }
      case BigO =>
        EscapeBigO(c);
        state := Char;
    }
  }
}

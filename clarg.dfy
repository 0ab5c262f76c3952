/** The argument tokenizer of clarg.c: a finished line, held as a C string
    in a byte buffer, is split in place into argument words. Unquoted
    words end at white space; a word in double quotes may hold white space
    and C-style backslash escapes, which are decoded where they stand.
    Positions in the buffer are indices; the ghost index `z` of every
    operation is the NUL that ends the string. */
module Clarg {
  import opened CType

  const QUOTE: byte := 34
  const BACKSLASH: byte := 92
  const SP: byte := 32

  /** `s[z]` is a NUL that ends the C string. */
  predicate Terminated(s: seq<byte>, z: int) {
    0 <= z < |s| && s[z] == NUL
  }

  // -------------------------------------------------- skipping

  /** `skipspace`: the first position at or after `p` holding NUL or a
      byte that is not white space. */
  function SkipSpace(s: seq<byte>, z: int, p: int): (q: int)
    requires Terminated(s, z) && 0 <= p <= z
    ensures p <= q <= z && (s[q] == NUL || !IsSpace(s[q]))
    ensures forall k :: p <= k < q ==> s[k] != NUL && IsSpace(s[k])
    decreases z - p
  {
    if s[p] == NUL || !IsSpace(s[p]) then p else SkipSpace(s, z, p + 1)
  }

  /** `skipnonspace`: the first position at or after `p` holding NUL or a
      white-space byte. */
  function SkipNonSpace(s: seq<byte>, z: int, p: int): (q: int)
    requires Terminated(s, z) && 0 <= p <= z
    ensures p <= q <= z && (s[q] == NUL || IsSpace(s[q]))
    ensures forall k :: p <= k < q ==> s[k] != NUL && !IsSpace(s[k])
    decreases z - p
  {
    if s[p] == NUL || IsSpace(s[p]) then p else SkipNonSpace(s, z, p + 1)
  }

  /** The loop of `skipspace`. */
  method SkipSpaceAt(line: array<byte>, ghost z: int, p: int) returns (q: int)
    requires Terminated(line[..], z) && 0 <= p <= z
    ensures q == SkipSpace(line[..], z, p)
  {
    q := p;
    while line[q] != NUL && IsSpace(line[q])
      invariant p <= q <= z && SkipSpace(line[..], z, q) == SkipSpace(line[..], z, p)
      decreases z - q
    {
      q := q + 1;
    }
  }

  /** The loop of `skipnonspace`. */
  method SkipNonSpaceAt(line: array<byte>, ghost z: int, p: int) returns (q: int)
    requires Terminated(line[..], z) && 0 <= p <= z
    ensures q == SkipNonSpace(line[..], z, p)
  {
    q := p;
    while line[q] != NUL && !IsSpace(line[q])
      invariant p <= q <= z && SkipNonSpace(line[..], z, q) == SkipNonSpace(line[..], z, p)
      decreases z - q
    {
      q := q + 1;
    }
  }

  // --------------------------------------------------- escapes

  /** The letters that may follow a backslash inside quotes. */
  const Letters: set<byte> := {34, 92, 47, 98, 102, 110, 114, 116, 97, 101}

  /** The bytes those letters stand for. */
  const Codes: set<byte> := {34, 92, 47, 8, 12, 10, 13, 9, 7, 27}

  /** The escape letters of `getesc`: `\" \\ \/ \b \f \n \r \t \a \e`. A
      byte that is not one of them stands for nothing (NUL). */
  function EscCode(ch: byte): (r: byte)
    ensures r != NUL <==> ch in Letters
    ensures r != NUL ==> r in Codes
  {
    if ch == 34 then 34          // \"
    else if ch == 92 then 92     // \\
    else if ch == 47 then 47     // \/
    else if ch == 98 then 8      // \b
    else if ch == 102 then 12    // \f
    else if ch == 110 then 10    // \n
    else if ch == 114 then 13    // \r
    else if ch == 116 then 9     // \t
    else if ch == 97 then 7      // \a
    else if ch == 101 then 27    // \e
    else NUL
  }

  /** The letter that stands for a code: the way back from `EscCode`. */
  function Letter(code: byte): (ch: byte)
    requires code in Codes
  {
    if code == 8 then 98
    else if code == 12 then 102
    else if code == 10 then 110
    else if code == 13 then 114
    else if code == 9 then 116
    else if code == 7 then 97
    else if code == 27 then 101
    else code
  }

  /** Each escape letter stands for its own code: `EscCode` and `Letter`
      are inverse bijections between the letters and the codes. */
  lemma EscapesBijective(ch: byte, code: byte)
    ensures ch in Letters ==> Letter(EscCode(ch)) == ch
    ensures code in Codes ==> Letter(code) in Letters && EscCode(Letter(code)) == code
  {
  }

  /** The table of `getesc`, letter and code, in the order of the source. */
  const Table: seq<(byte, byte)> :=
    [(34, 34), (92, 92), (47, 47), (98, 8), (102, 12), (110, 10), (114, 13), (116, 9), (97, 7), (101, 27)]

  /** `getesc`: a linear search of the table. */
  method GetEsc(ch: byte) returns (r: byte)
    ensures r == EscCode(ch)
  {
    var i := 0;
    while i < |Table|
      invariant 0 <= i <= |Table|
      invariant forall j :: 0 <= j < i ==> Table[j].0 != ch
    {
      if Table[i].0 == ch {
        return Table[i].1;
      }
      i := i + 1;
    }
    assert ch != Table[0].0 && ch != Table[1].0 && ch != Table[2].0 && ch != Table[3].0 && ch != Table[4].0;
    assert ch != Table[5].0 && ch != Table[6].0 && ch != Table[7].0 && ch != Table[8].0 && ch != Table[9].0;
    return NUL;
  }

  // ----------------------------------------------- quoted words

  /** The copying loop of `parsearg`, read from `h` on (just after the
      opening quote): the bytes it writes and the position where it
      stops. It stops at a quote or at any byte below the space; a known
      escape becomes its code, an unknown one keeps the backslash and the
      letter. A backslash right before the NUL is kept and the loop stops
      at the NUL (see `UnquoteAsWritten` for what the source does there).
      The output never outgrows what was read, so the loop can write over
      the bytes it has read; and it never reads past the terminator. */
  function Unquote(s: seq<byte>, z: int, h: int): (r: (seq<byte>, int))
    requires Terminated(s, z) && 0 <= h <= z
    ensures h <= r.1 <= z && (s[r.1] < SP || s[r.1] == QUOTE)
    ensures |r.0| <= r.1 - h && NulFree(r.0)
    decreases z - h
  {
    if s[h] < SP || s[h] == QUOTE then ([], h)
    else
      var (piece, next) := Decode(s, z, h);
      var (out, stop) := Unquote(s, z, next);
      (piece + out, stop)
  }

  /** One round of the loop of `parsearg` at `h`: the bytes it writes and
      where it reads next. */
  function Decode(s: seq<byte>, z: int, h: int): (r: (seq<byte>, int))
    requires Terminated(s, z) && 0 <= h <= z && SP <= s[h]
    ensures h < r.1 <= z && 1 <= |r.0| <= r.1 - h && NulFree(r.0)
  {
    if s[h] != BACKSLASH then ([s[h]], h + 1)
    else if EscCode(s[h + 1]) != NUL then ([EscCode(s[h + 1])], h + 2)
    else if s[h + 1] == NUL then ([BACKSLASH], h + 1)
    else ([BACKSLASH, s[h + 1]], h + 2)
  }

  /** Where `parsearg` leaves its read position: just past a closing quote,
      or on the byte that stopped it. */
  function AfterQuoted(s: seq<byte>, z: int, h: int): (after: int)
    requires Terminated(s, z) && 0 <= h <= z
    ensures h <= after <= z
  {
    var stop := Unquote(s, z, h).1;
    if s[stop] == QUOTE then stop + 1 else stop
  }

  /** `parsearg` as written: the loop reads the byte after a backslash and
      then moves on past it, whatever it was. `None` when the loop would
      read outside the buffer. */
  function UnquoteAsWritten(s: seq<byte>, h: nat): (r: Option<(seq<byte>, int)>)
    ensures r.Some? ==> h <= r.value.1 < |s|
    decreases |s| - h
  {
    if h >= |s| then None
    else if s[h] < SP || s[h] == QUOTE then Some(([], h))
    else if s[h] != BACKSLASH then
      match UnquoteAsWritten(s, h + 1)
      case None => None
      case Some((out, stop)) => Some(([s[h]] + out, stop))
    else if h + 1 >= |s| then None
    else
      var tail := if EscCode(s[h + 1]) != NUL then [EscCode(s[h + 1])] else [BACKSLASH, s[h + 1]];
      match UnquoteAsWritten(s, h + 2)
      case None => None
      case Some((out, stop)) => Some((tail + out, stop))
  }

  /** The line `"\` (a quoted word ending in a backslash): the source's
      loop steps over the terminating NUL and reads beyond the buffer,
      while the corrected loop keeps the backslash and stops at the NUL. */
  lemma BackslashBeforeNul()
    ensures UnquoteAsWritten([QUOTE, BACKSLASH, NUL], 1).None?
    ensures Unquote([QUOTE, BACKSLASH, NUL], 2, 1) == ([BACKSLASH], 2)
  {
    var s: seq<byte> := [QUOTE, BACKSLASH, NUL];
    assert Decode(s, 2, 1) == ([BACKSLASH], 2);
    assert Unquote(s, 2, 2) == ([], 2);
    assert [BACKSLASH] + [] == [BACKSLASH];
  }

  /** The two agree on every line without a backslash right before its
      terminator. */
  lemma UnquoteAsWrittenAgrees(s: seq<byte>, z: int, h: int)
    requires Terminated(s, z) && 0 <= h <= z
    requires forall k :: h <= k < z ==> !(s[k] == BACKSLASH && s[k + 1] == NUL)
    ensures UnquoteAsWritten(s, h) == Some(Unquote(s, z, h))
    decreases z - h
  {
    if SP <= s[h] && s[h] != QUOTE {
      UnquoteAsWrittenAgrees(s, z, Decode(s, z, h).1);
    }
  }

  /** `parsearg` on the buffer, corrected at the terminator. The buffer
      holds the line `s` from `str` on; the decoded word is written from
      `str` on and closed with a NUL, the bytes before `str` are kept, and
      after the NUL the buffer still holds the line. */
  method ParseArg(line: array<byte>, ghost z: int, str: int, ghost s: seq<byte>) returns (head: int)
    requires Terminated(s, z) && 0 <= str <= z && AgreeFrom(s, line[..], str)
    modifies line
    ensures head == AfterQuoted(s, z, str)
    ensures Holds(line[..], str, Unquote(s, z, str).0)
    ensures line[..str] == old(line[..str])
    ensures AgreeFrom(s, line[..], str + |Unquote(s, z, str).0| + 1)
  {
    var tail;
    head, tail := CopyLoop(line, z, str, s);
    if line[head] == QUOTE {
      head := head + 1;
    }
    line[tail] := NUL;
  }

  /** The loop of `parsearg`: it stops where `Unquote` does, with the
      decoded bytes written from `str` to `tail`. */
  method CopyLoop(line: array<byte>, ghost z: int, str: int, ghost s: seq<byte>) returns (head: int, tail: int)
    requires Terminated(s, z) && 0 <= str <= z && AgreeFrom(s, line[..], str)
    modifies line
    ensures head == Unquote(s, z, str).1 && tail == str + |Unquote(s, z, str).0| <= head
    ensures line[str..tail] == Unquote(s, z, str).0
    ensures line[..str] == old(line[..str])
    ensures AgreeFrom(s, line[..], tail)
  {
    ghost var w: seq<byte> := [];
    head := str;
    tail := str;
    while SP <= line[head] && line[head] != QUOTE
      invariant str <= tail <= head <= z && line[str..tail] == w
      invariant Unquote(s, z, str).0 == w + Unquote(s, z, head).0
      invariant Unquote(s, z, str).1 == Unquote(s, z, head).1
      invariant line[..str] == old(line[..str])
      invariant AgreeFrom(s, line[..], tail)
      decreases z - head
    {
      UnquoteSplit(s, z, head);
      ghost var piece := Decode(s, z, head).0;
      ghost var rest := Unquote(s, z, Decode(s, z, head).1).0;
      ghost var kept := line[..str];
      head, tail := DecodeAt(line, z, str, head, tail, s);
      assert line[..str] == kept;
      Assoc(w, piece, rest);
      w := w + piece;
    }
  }

  /** The body of the loop of `parsearg`: the bytes read at `head` are
      decoded and written at `tail`, which lies at or before `head`. */
  method DecodeAt(line: array<byte>, ghost z: int, ghost str: int, head: int, tail: int, ghost s: seq<byte>)
    returns (head': int, tail': int)
    requires Terminated(s, z) && 0 <= str <= tail <= head <= z && AgreeFrom(s, line[..], tail)
    requires SP <= line[head] && line[head] != QUOTE
    modifies line
    ensures head' == Decode(s, z, head).1 && tail' == tail + |Decode(s, z, head).0| <= head'
    ensures line[str..tail'] == old(line[str..tail]) + Decode(s, z, head).0
    ensures forall k :: 0 <= k < tail ==> line[k] == old(line[k])
    ensures AgreeFrom(s, line[..], tail')
  {
    if line[head] != BACKSLASH {
      line[tail] := line[head];
      head', tail' := head + 1, tail + 1;
    } else {
      var esc := GetEsc(line[head + 1]);
      if esc != NUL {
        line[tail] := esc;
        head', tail' := head + 2, tail + 1;
      } else if line[head + 1] == NUL {
        line[tail] := BACKSLASH;
        head', tail' := head + 1, tail + 1;
      } else {
        var letter := line[head + 1];
        line[tail] := BACKSLASH;
        line[tail + 1] := letter;
        head', tail' := head + 2, tail + 2;
      }
    }
    assert line[str..tail'] == line[str..tail] + line[tail..tail'];
  }

  lemma Assoc(a: seq<byte>, b: seq<byte>, c: seq<byte>)
    ensures a + (b + c) == (a + b) + c
  {
  }

  lemma AssocWords(a: seq<seq<byte>>, b: seq<seq<byte>>, c: seq<seq<byte>>)
    ensures a + (b + c) == (a + b) + c
  {
  }

  /** One round of `parsearg`'s loop and the rest of it. */
  lemma UnquoteSplit(s: seq<byte>, z: int, h: int)
    requires Terminated(s, z) && 0 <= h <= z && SP <= s[h] && s[h] != QUOTE
    ensures Unquote(s, z, h).0 == Decode(s, z, h).0 + Unquote(s, z, Decode(s, z, h).1).0
    ensures Unquote(s, z, h).1 == Unquote(s, z, Decode(s, z, h).1).1
  {
  }

  // --------------------------------------------------- the line

  /** The bytes of `s` and `t` from `p` on are the same. */
  predicate AgreeFrom(s: seq<byte>, t: seq<byte>, p: int) {
    |s| == |t| && forall k :: 0 <= k < |s| && p <= k ==> s[k] == t[k]
  }

  /** The scans read nothing before their start. */
  lemma {:induction false} SkipSpaceAgree(s: seq<byte>, t: seq<byte>, z: int, p: int)
    requires Terminated(s, z) && 0 <= p <= z && AgreeFrom(s, t, p)
    ensures Terminated(t, z) && SkipSpace(t, z, p) == SkipSpace(s, z, p)
    decreases z - p
  {
    if s[p] != NUL && IsSpace(s[p]) {
      SkipSpaceAgree(s, t, z, p + 1);
    }
  }

  lemma {:induction false} SkipNonSpaceAgree(s: seq<byte>, t: seq<byte>, z: int, p: int)
    requires Terminated(s, z) && 0 <= p <= z && AgreeFrom(s, t, p)
    ensures Terminated(t, z) && SkipNonSpace(t, z, p) == SkipNonSpace(s, z, p)
    decreases z - p
  {
    if s[p] != NUL && !IsSpace(s[p]) {
      SkipNonSpaceAgree(s, t, z, p + 1);
    }
  }

  lemma {:induction false} UnquoteAgree(s: seq<byte>, t: seq<byte>, z: int, h: int)
    requires Terminated(s, z) && 0 <= h <= z && AgreeFrom(s, t, h)
    ensures Terminated(t, z) && Unquote(t, z, h) == Unquote(s, z, h)
    ensures AfterQuoted(t, z, h) == AfterQuoted(s, z, h)
    decreases z - h
  {
    if SP <= s[h] && s[h] != QUOTE {
      UnquoteAgree(s, t, z, Decode(s, z, h).1);
    }
  }

  /** What `clarg` finds at `p`: the end of the line, a word that ends the
      line, or a word followed by more of the line from `next` on. */
  datatype Found = Exhausted | Final(word: seq<byte>) | Word(word: seq<byte>, next: int)

  /** One round of `clarg`'s loop read on the original line: skip the
      white space, then take a quoted or an unquoted word. */
  function NextArg(s: seq<byte>, z: int, p: int): (f: Found)
    requires Terminated(s, z) && 0 <= p <= z
    ensures f.Word? ==> p < f.next <= z
    ensures !f.Exhausted? ==> NulFree(f.word)
  {
    var q := SkipSpace(s, z, p);
    if s[q] == NUL then Exhausted
    else if s[q] == QUOTE then Quoted(s, z, q)
    else Plain(s, z, q)
  }

  /** The word in quotes opened at `q`. It ends the line when the NUL
      written after it lands on the byte that stopped `parsearg` (a control
      byte, with no escape before it), or when that byte is the
      terminator. */
  function Quoted(s: seq<byte>, z: int, q: int): (f: Found)
    requires Terminated(s, z) && 0 <= q < z
    ensures !f.Exhausted? && NulFree(f.word) && (f.Word? ==> q < f.next <= z)
  {
    var out := Unquote(s, z, q + 1).0;
    var h := AfterQuoted(s, z, q + 1);
    if h == q + 1 + |out| || s[h] == NUL then Final(out) else Word(out, h)
  }

  /** The unquoted word at `q`: up to the next white space or the end. */
  function Plain(s: seq<byte>, z: int, q: int): (f: Found)
    requires Terminated(s, z) && 0 <= q <= z && s[q] != NUL && !IsSpace(s[q])
    ensures !f.Exhausted? && NulFree(f.word) && (f.Word? ==> q < f.next <= z)
    ensures |f.word| > 0 && forall b :: b in f.word ==> !IsSpace(b)
  {
    var e := SkipNonSpace(s, z, q);
    assert forall k :: 0 <= k < e - q ==> s[q..e][k] == s[q + k];
    if s[e] == NUL then Final(s[q..e]) else Word(s[q..e], e + 1)
  }

  /** The words `clarg` finds from `p` on, the `i`-th being the next, and
      what it returns: the word count once the line is exhausted, -1 once
      all `max` slots are used (at once when `max <= 0`). The bytes it
      reads were never written before, so the words are those of the
      original line. */
  function Split(s: seq<byte>, z: int, p: int, i: nat, max: int): (r: (seq<seq<byte>>, int))
    requires Terminated(s, z) && 0 <= p <= z
    ensures r.1 == -1 || i <= r.1 <= max
    ensures r.1 != -1 ==> |r.0| == r.1 - i
    ensures r.1 == -1 ==> |r.0| == if i < max then max - i else 0
    ensures forall a :: a in r.0 ==> NulFree(a)
    decreases if i < max then max - i else 0
  {
    if max <= i then ([], -1)
    else
      match NextArg(s, z, p)
      case Exhausted => ([], i)
      case Final(w) => ([w], i + 1)
      case Word(w, next) =>
        var (rest, n) := Split(s, z, next, i + 1, max);
        ([w] + rest, n)
  }

  /** `line[at..]` holds the C string `a`. */
  predicate Holds(line: seq<byte>, at: int, a: seq<byte>) {
    0 <= at && at + |a| < |line| && line[at..at + |a|] == a && line[at + |a|] == NUL
  }

  /** The words found so far: `av[j]` points at the C string `done[j]`,
      whose NUL lies before `p`. */
  predicate AllHeld(line: seq<byte>, av: seq<int>, done: seq<seq<byte>>, p: int) {
    |done| <= |av| &&
    forall j :: 0 <= j < |done| ==> NulFree(done[j]) && Holds(line, av[j], done[j]) && av[j] + |done[j]| < p
  }

  /** Writing at or after `p`, or into `av` past the words, leaves the
      words found so far alone. */
  lemma HeldKept(t: seq<byte>, u: seq<byte>, av: seq<int>, bv: seq<int>, done: seq<seq<byte>>, p: int)
    requires AllHeld(t, av, done, p) && 0 <= p <= |t| == |u| && t[..p] == u[..p]
    requires |av| == |bv| && forall j :: 0 <= j < |done| ==> av[j] == bv[j]
    ensures AllHeld(u, bv, done, p)
  {
    forall j | 0 <= j < |done|
      ensures Holds(u, bv[j], done[j])
    {
      var at, a := av[j], done[j];
      assert u[at..at + |a|] == t[..p][at..at + |a|];
      assert u[at + |a|] == t[..p][at + |a|];
    }
  }

  lemma HeldExtend(line: seq<byte>, av: seq<int>, done: seq<seq<byte>>, w: seq<byte>, p: int, p': int)
    requires AllHeld(line, av, done, p) && |done| < |av| && NulFree(w)
    requires Holds(line, av[|done|], w) && av[|done|] + |w| < p' && p <= p'
    ensures AllHeld(line, av, done + [w], p')
  {
  }

  /** `av[j]` points at the C string `args[j]`, for every word. */
  predicate ReadsBack(line: seq<byte>, av: seq<int>, args: seq<seq<byte>>) {
    |args| <= |av| && forall j :: 0 <= j < |args| ==> 0 <= av[j] < |line| && CStr(line[av[j]..]) == args[j]
  }

  /** Every word held by the buffer reads back as a C string. */
  lemma AllHold(line: seq<byte>, av: seq<int>, args: seq<seq<byte>>, p: int)
    requires AllHeld(line, av, args, p)
    ensures ReadsBack(line, av, args)
  {
    forall j | 0 <= j < |args|
      ensures CStr(line[av[j]..]) == args[j]
    {
      CStrUnique(line[av[j]..], args[j]);
    }
  }

  /** One round of `clarg`'s loop on the buffer: skip the white space,
      then cut out one word (`found`) in place, pointed to by `argv[i]`;
      `more` when the line goes on from `next`. Only the buffer from `p`
      on and `argv[i]` change. */
  method TakeArg(argv: array<int>, i: int, line: array<byte>, ghost z: int, p: int, ghost s: seq<byte>)
    returns (found: bool, more: bool, next: int)
    requires Terminated(s, z) && 0 <= p <= z && AgreeFrom(s, line[..], p) && 0 <= i < argv.Length
    modifies argv, line
    ensures found <==> !NextArg(s, z, p).Exhausted?
    ensures more <==> NextArg(s, z, p).Word?
    ensures found ==> p <= argv[i] && Holds(line[..], argv[i], NextArg(s, z, p).word)
    ensures more ==> next == NextArg(s, z, p).next && argv[i] + |NextArg(s, z, p).word| < next
    ensures more ==> AgreeFrom(s, line[..], next)
    ensures line[..p] == old(line[..p])
    ensures forall j :: 0 <= j < argv.Length && j != i ==> argv[j] == old(argv[j])
  {
    var q := SkipSpaceAt(line, z, p);
    SkipSpaceAgree(s, line[..], z, p);
    if line[q] == NUL {
      return false, false, q;
    }
    found := true;
    if line[q] == QUOTE {
      more, next := TakeQuoted(argv, i, line, z, q, s);
    } else {
      more, next := TakePlain(argv, i, line, z, q, s);
    }
  }

  /** The quoted branch of `clarg`'s loop: `argv[i]` points after the
      opening quote at `q` and `parsearg` decodes the word in place. */
  method TakeQuoted(argv: array<int>, i: int, line: array<byte>, ghost z: int, q: int, ghost s: seq<byte>)
    returns (more: bool, next: int)
    requires Terminated(s, z) && 0 <= q < z && AgreeFrom(s, line[..], q) && 0 <= i < argv.Length
    modifies argv, line
    ensures more <==> Quoted(s, z, q).Word?
    ensures q <= argv[i] && Holds(line[..], argv[i], Quoted(s, z, q).word)
    ensures more ==> next == Quoted(s, z, q).next && argv[i] + |Quoted(s, z, q).word| < next
    ensures more ==> AgreeFrom(s, line[..], next)
    ensures line[..q] == old(line[..q])
    ensures forall j :: 0 <= j < argv.Length && j != i ==> argv[j] == old(argv[j])
  {
    argv[i] := q + 1;
    ghost var out := Unquote(s, z, q + 1).0;
    ghost var h := AfterQuoted(s, z, q + 1);
    var head := ParseArg(line, z, q + 1, s);
    assert h == q + 1 + |out| || line[head] == s[head];
    if line[head] == NUL {
      assert Quoted(s, z, q) == Final(out);
      return false, head;
    }
    assert Quoted(s, z, q) == Word(out, h);
    more, next := true, head;
  }

  /** The unquoted branch of `clarg`'s loop: `argv[i]` points at `q` and
      the white space after the word, if any, becomes its NUL. */
  method TakePlain(argv: array<int>, i: int, line: array<byte>, ghost z: int, q: int, ghost s: seq<byte>)
    returns (more: bool, next: int)
    requires Terminated(s, z) && 0 <= q <= z && AgreeFrom(s, line[..], q) && 0 <= i < argv.Length
    requires s[q] != NUL && !IsSpace(s[q])
    modifies argv, line
    ensures more <==> Plain(s, z, q).Word?
    ensures q <= argv[i] && Holds(line[..], argv[i], Plain(s, z, q).word)
    ensures more ==> next == Plain(s, z, q).next && argv[i] + |Plain(s, z, q).word| < next
    ensures more ==> AgreeFrom(s, line[..], next)
    ensures line[..q] == old(line[..q])
    ensures forall j :: 0 <= j < argv.Length && j != i ==> argv[j] == old(argv[j])
  {
    argv[i] := q;
    var e := SkipNonSpaceAt(line, z, q);
    SkipNonSpaceAgree(s, line[..], z, q);
    assert line[q..e] == s[q..e];
    if line[e] == NUL {
      return false, e;
    }
    line[e] := NUL;
    assert line[q..e] == s[q..e];
    more, next := true, e + 1;
  }

  /** `clarg`: split `line` into at most `max` words, each a C string in
      the rewritten buffer pointed to by `argv`; the result is the count,
      or -1 when all `max` slots were used before the end of the line. */
  method Clarg(argv: array<int>, max: int, line: array<byte>, ghost z: int) returns (n: int)
    requires Terminated(line[..], z) && max <= argv.Length
    modifies argv, line
    ensures n == Split(old(line[..]), z, 0, 0, max).1
    ensures ReadsBack(line[..], argv[..], Split(old(line[..]), z, 0, 0, max).0)
  {
    ghost var s := line[..];
    ghost var done: seq<seq<byte>> := [];
    var p := 0;
    var i := 0;
    assert done + Split(s, z, p, i, max).0 == Split(s, z, 0, 0, max).0;
    while i < max
      invariant 0 <= i == |done| && i <= argv.Length && 0 <= p <= z
      invariant Split(s, z, 0, 0, max).0 == done + Split(s, z, p, i, max).0
      invariant Split(s, z, 0, 0, max).1 == Split(s, z, p, i, max).1
      invariant AgreeFrom(s, line[..], p)
      invariant AllHeld(line[..], argv[..], done, p)
      decreases max - i
    {
      var found, more, next := Step(argv, i, max, line, z, p, s, done);
      if !found {
        return i;
      }
      ghost var w := NextArg(s, z, p).word;
      if !more {
        return i + 1;
      }
      done := done + [w];
      p, i := next, i + 1;
    }
    StopFull(s, z, p, i, max, done);
    AllHold(line[..], argv[..], done, p);
    n := -1;
  }

  /** One round of `clarg`'s loop: the `i`-th word, and what is then known
      of the words and of the buffer. */
  method Step(argv: array<int>, i: int, max: int, line: array<byte>, ghost z: int, p: int,
              ghost s: seq<byte>, ghost done: seq<seq<byte>>)
    returns (found: bool, more: bool, next: int)
    requires Terminated(s, z) && 0 <= p <= z && AgreeFrom(s, line[..], p)
    requires 0 <= i == |done| < argv.Length && i < max && AllHeld(line[..], argv[..], done, p)
    modifies argv, line
    ensures found <==> !NextArg(s, z, p).Exhausted?
    ensures more <==> NextArg(s, z, p).Word?
    ensures !found ==>
      && done + Split(s, z, p, i, max).0 == done && Split(s, z, p, i, max).1 == i
      && ReadsBack(line[..], argv[..], done)
    ensures found && !more ==>
      && done + Split(s, z, p, i, max).0 == done + [NextArg(s, z, p).word]
      && Split(s, z, p, i, max).1 == i + 1
      && ReadsBack(line[..], argv[..], done + [NextArg(s, z, p).word])
    ensures more ==>
      && next == NextArg(s, z, p).next && p < next <= z && AgreeFrom(s, line[..], next)
      && done + Split(s, z, p, i, max).0 == (done + [NextArg(s, z, p).word]) + Split(s, z, next, i + 1, max).0
      && Split(s, z, p, i, max).1 == Split(s, z, next, i + 1, max).1
      && AllHeld(line[..], argv[..], done + [NextArg(s, z, p).word], next)
  {
    ghost var before := line[..];
    ghost var av := argv[..];
    found, more, next := TakeArg(argv, i, line, z, p, s);
    HeldKept(before, line[..], av, argv[..], done, p);
    if !found {
      StopNone(s, z, p, i, max, done);
      AllHold(line[..], argv[..], done, p);
      return;
    }
    ghost var w := NextArg(s, z, p).word;
    if !more {
      StopLast(s, z, p, i, max, done);
      HeldExtend(line[..], argv[..], done, w, p, line.Length + 1);
      AllHold(line[..], argv[..], done + [w], line.Length + 1);
      return;
    }
    StepWord(s, z, p, i, max, done);
    HeldExtend(line[..], argv[..], done, w, p, next);
  }

  /** `clarg` finds nothing more: the words are those found so far. */
  lemma StopNone(s: seq<byte>, z: int, p: int, i: nat, max: int, done: seq<seq<byte>>)
    requires Terminated(s, z) && 0 <= p <= z && i < max && NextArg(s, z, p).Exhausted?
    ensures done + Split(s, z, p, i, max).0 == done && Split(s, z, p, i, max).1 == i
  {
    assert done + [] == done;
  }

  /** `clarg` finds a word that ends the line. */
  lemma StopLast(s: seq<byte>, z: int, p: int, i: nat, max: int, done: seq<seq<byte>>)
    requires Terminated(s, z) && 0 <= p <= z && i < max && NextArg(s, z, p).Final?
    ensures done + Split(s, z, p, i, max).0 == done + [NextArg(s, z, p).word]
    ensures Split(s, z, p, i, max).1 == i + 1
  {
  }

  /** `clarg` finds a word and goes on after it. */
  lemma StepWord(s: seq<byte>, z: int, p: int, i: nat, max: int, done: seq<seq<byte>>)
    requires Terminated(s, z) && 0 <= p <= z && i < max && NextArg(s, z, p).Word?
    ensures var f := NextArg(s, z, p);
      && done + Split(s, z, p, i, max).0 == (done + [f.word]) + Split(s, z, f.next, i + 1, max).0
      && Split(s, z, p, i, max).1 == Split(s, z, f.next, i + 1, max).1
  {
    var f := NextArg(s, z, p);
    AssocWords(done, [f.word], Split(s, z, f.next, i + 1, max).0);
  }

  /** Every slot is used: -1, and the words found so far. */
  lemma StopFull(s: seq<byte>, z: int, p: int, i: nat, max: int, done: seq<seq<byte>>)
    requires Terminated(s, z) && 0 <= p <= z && max <= i
    ensures done + Split(s, z, p, i, max).0 == done && Split(s, z, p, i, max).1 == -1
  {
    assert done + [] == done;
  }

  // ---------------------------------------------------- properties

  /** A byte a quoted word can carry: any byte from the space up, and the
      control bytes that have an escape letter. */
  predicate Quotable(b: byte) {
    SP <= b || b in Codes
  }

  predicate QuotableWord(a: seq<byte>) {
    a == [] || (Quotable(a[0]) && QuotableWord(a[1..]))
  }

  predicate AllQuotable(args: seq<seq<byte>>) {
    args == [] || (QuotableWord(args[0]) && AllQuotable(args[1..]))
  }

  /** How a byte is written inside quotes: a quote, a backslash or a
      control byte as its escape, anything else as itself. */
  function Escaped(b: byte): (e: seq<byte>)
    requires Quotable(b)
  {
    if b == QUOTE || b == BACKSLASH || b < SP then [BACKSLASH, Letter(b)] else [b]
  }

  /** The body of a quoted word for `a`. */
  function Quote(a: seq<byte>): (q: seq<byte>)
    requires QuotableWord(a)
  {
    if a == [] then [] else Escaped(a[0]) + Quote(a[1..])
  }

  /** A command line carrying the words `args`, each quoted and preceded
      by a space. */
  function Render(args: seq<seq<byte>>): (line: seq<byte>)
    requires AllQuotable(args)
  {
    if args == [] then []
    else [SP, QUOTE] + Quote(args[0]) + [QUOTE] + Render(args[1..])
  }

  /** `s` holds `t` from `h` on. */
  predicate At(s: seq<byte>, h: int, t: seq<byte>)
    decreases |t|
  {
    0 <= h && h + |t| <= |s| && (t == [] || (s[h] == t[0] && At(s, h + 1, t[1..])))
  }

  lemma {:induction false} AtByte(s: seq<byte>, h: int, t: seq<byte>, k: int)
    requires At(s, h, t) && 0 <= k < |t|
    ensures s[h + k] == t[k]
    decreases k
  {
    if k > 0 {
      AtByte(s, h + 1, t[1..], k - 1);
    }
  }

  lemma {:induction false} AtSplit(s: seq<byte>, h: int, t1: seq<byte>, t2: seq<byte>)
    requires At(s, h, t1 + t2)
    ensures At(s, h, t1) && At(s, h + |t1|, t2)
    decreases |t1|
  {
    if t1 == [] {
      assert t1 + t2 == t2;
    } else {
      assert (t1 + t2)[0] == t1[0];
      assert (t1 + t2)[1..] == t1[1..] + t2;
      AtSplit(s, h + 1, t1[1..], t2);
    }
  }

  /** Every suffix of `s` is held where it starts. */
  lemma {:induction false} AtSuffix(s: seq<byte>, h: int)
    requires 0 <= h <= |s|
    ensures At(s, h, s[h..])
    decreases |s| - h
  {
    if h < |s| {
      AtSuffix(s, h + 1);
      assert s[h..][1..] == s[h + 1..];
    }
  }

  /** `parsearg` decodes what `Quote` encodes, up to the closing quote. */
  lemma {:induction false} UnquoteQuote(s: seq<byte>, z: int, h: int, a: seq<byte>)
    requires QuotableWord(a) && Terminated(s, z) && h + |Quote(a)| < z
    requires At(s, h, Quote(a) + [QUOTE])
    ensures Unquote(s, z, h) == (a, h + |Quote(a)|)
    decreases |a|
  {
    if a == [] {
      AtByte(s, h, Quote(a) + [QUOTE], 0);
    } else {
      var e := Escaped(a[0]);
      QuoteCut(a);
      AtSplit(s, h, e, Quote(a[1..]) + [QUOTE]);
      DecodeEscaped(s, z, h, a[0]);
      UnquoteQuote(s, z, h + |e|, a[1..]);
      UnquoteSplit(s, z, h);
      assert a == [a[0]] + a[1..];
    }
  }

  /** A quoted word, cut after the escape of its first byte. */
  lemma QuoteCut(a: seq<byte>)
    requires QuotableWord(a) && a != []
    ensures Quotable(a[0]) && QuotableWord(a[1..])
    ensures Quote(a) + [QUOTE] == Escaped(a[0]) + (Quote(a[1..]) + [QUOTE])
    ensures |Quote(a)| == |Escaped(a[0])| + |Quote(a[1..])|
  {
  }

  /** `parsearg` turns the escape of a byte back into the byte. */
  lemma DecodeEscaped(s: seq<byte>, z: int, h: int, b: byte)
    requires Quotable(b) && Terminated(s, z) && 0 <= h && h + |Escaped(b)| <= z
    requires At(s, h, Escaped(b))
    ensures SP <= s[h] && s[h] != QUOTE && Decode(s, z, h) == ([b], h + |Escaped(b)|)
  {
    var e := Escaped(b);
    AtByte(s, h, e, 0);
    if |e| == 2 {
      EscapesBijective(0, b);
      AtByte(s, h, e, 1);
    }
  }

  /** A rendered line with at least one word, cut at its first word. */
  lemma RenderCut(args: seq<seq<byte>>)
    requires AllQuotable(args) && args != []
    ensures QuotableWord(args[0]) && AllQuotable(args[1..])
    ensures Render(args) + [NUL]
         == [SP, QUOTE] + ((Quote(args[0]) + [QUOTE]) + (Render(args[1..]) + [NUL]))
  {
    var q, r := Quote(args[0]), Render(args[1..]);
    assert Render(args) == [SP, QUOTE] + q + [QUOTE] + r;
  }

  /** The layout of a rendered line with at least one word. */
  lemma RenderFirst(s: seq<byte>, p: int, args: seq<seq<byte>>)
    requires AllQuotable(args) && args != [] && At(s, p, Render(args) + [NUL])
    ensures QuotableWord(args[0]) && AllQuotable(args[1..])
    ensures var q := Quote(args[0]);
      && |Render(args)| == 3 + |q| + |Render(args[1..])|
      && s[p] == SP && s[p + 1] == QUOTE && At(s, p + 2, q + [QUOTE])
      && At(s, p + 3 + |q|, Render(args[1..]) + [NUL])
  {
    RenderCut(args);
    var q, r := Quote(args[0]), Render(args[1..]);
    AtSplit(s, p, [SP, QUOTE], (q + [QUOTE]) + (r + [NUL]));
    AtByte(s, p, [SP, QUOTE], 0);
    AtByte(s, p, [SP, QUOTE], 1);
    AtSplit(s, p + 2, q + [QUOTE], r + [NUL]);
  }

  /** The word in quotes at `q` whose body decodes up to a closing quote
      just before `h`. */
  lemma QuotedClosed(s: seq<byte>, z: int, q: int, a: seq<byte>, h: int)
    requires Terminated(s, z) && 0 <= q && q + 2 <= h <= z
    requires Unquote(s, z, q + 1) == (a, h - 1) && s[h - 1] == QUOTE
    ensures Quoted(s, z, q) == if s[h] == NUL then Final(a) else Word(a, h)
  {
    assert AfterQuoted(s, z, q + 1) == h;
  }

  /** A space, then the word `a` in quotes: `clarg` finds `a`, and goes
      on after the closing quote. */
  lemma FirstWord(s: seq<byte>, z: int, p: int, a: seq<byte>)
    requires QuotableWord(a) && Terminated(s, z) && 0 <= p && p + 2 + |Quote(a)| < z
    requires s[p] == SP && s[p + 1] == QUOTE && At(s, p + 2, Quote(a) + [QUOTE])
    ensures var h := p + 3 + |Quote(a)|;
      NextArg(s, z, p) == if s[h] == NUL then Final(a) else Word(a, h)
  {
    var q := Quote(a);
    AtSplit(s, p + 2, q, [QUOTE]);
    AtByte(s, p + 2 + |q|, [QUOTE], 0);
    UnquoteQuote(s, z, p + 2, a);
    QuotedClosed(s, z, p + 1, a, p + 3 + |q|);
    assert SkipSpace(s, z, p) == p + 1;
  }

  /** `s` holds, from `p` up to its terminator at `z`, the words `args`,
      each after a space and in quotes. */
  predicate Laid(s: seq<byte>, p: int, args: seq<seq<byte>>, z: int)
    decreases |args|
  {
    if args == [] then p == z
    else
      && QuotableWord(args[0]) && 0 <= p && At(s, p + 2, Quote(args[0]) + [QUOTE])
      && s[p] == SP && s[p + 1] == QUOTE && p + 2 + |Quote(args[0])| < z
      && Laid(s, p + 3 + |Quote(args[0])|, args[1..], z)
  }

  /** A rendered line is laid out word by word. */
  lemma {:induction false} RenderLaid(s: seq<byte>, p: int, args: seq<seq<byte>>, z: int)
    requires AllQuotable(args) && p + |Render(args)| == z && At(s, p, Render(args) + [NUL])
    ensures Laid(s, p, args, z)
    decreases |args|
  {
    if args != [] {
      RenderFirst(s, p, args);
      RenderLaid(s, p + 3 + |Quote(args[0])|, args[1..], z);
    }
  }

  /** Word by word, the next word `clarg` finds from `p` on is the next of
      `args`, the last of them ending the line. */
  predicate Finds(s: seq<byte>, z: int, p: int, args: seq<seq<byte>>)
    requires Terminated(s, z)
    decreases |args|
  {
    0 <= p <= z &&
    var f := NextArg(s, z, p);
    if args == [] then f.Exhausted?
    else
      && !f.Exhausted? && f.word == args[0]
      && if args[1..] == [] then f.Final? else f.Word? && Finds(s, z, f.next, args[1..])
  }

  /** A line laid out with `args` gives them one by one. */
  lemma {:induction false} LaidFinds(s: seq<byte>, z: int, p: int, args: seq<seq<byte>>)
    requires Terminated(s, z) && Laid(s, p, args, z)
    ensures Finds(s, z, p, args)
    decreases |args|
  {
    if args == [] {
      FindsNone(s, z, p);
    } else {
      var h := p + 3 + |Quote(args[0])|;
      NextLaid(s, z, p, args);
      if args[1..] != [] {
        LaidFinds(s, z, h, args[1..]);
      }
      FindsStep(s, z, p, args, h);
    }
  }

  lemma FindsNone(s: seq<byte>, z: int, p: int)
    requires Terminated(s, z) && 0 <= p == z
    ensures Finds(s, z, p, [])
  {
    assert NextArg(s, z, p) == Exhausted;
  }

  lemma FindsStep(s: seq<byte>, z: int, p: int, args: seq<seq<byte>>, h: int)
    requires Terminated(s, z) && 0 <= p <= z && args != []
    requires NextArg(s, z, p) == if args[1..] == [] then Final(args[0]) else Word(args[0], h)
    requires args[1..] != [] ==> Finds(s, z, h, args[1..])
    ensures Finds(s, z, p, args)
  {
  }

  /** `clarg` returns the words it finds one by one, and their count, while
      there are slots enough. */
  lemma {:induction false} SplitFinds(s: seq<byte>, z: int, p: int, i: nat, max: int, args: seq<seq<byte>>)
    requires Terminated(s, z) && Finds(s, z, p, args)
    requires i < max && i + |args| <= max
    ensures Split(s, z, p, i, max) == (args, i + |args|)
    decreases |args|
  {
    if args != [] {
      var f := NextArg(s, z, p);
      if args[1..] == [] {
        assert args == [f.word];
      } else {
        SplitFinds(s, z, f.next, i + 1, max, args[1..]);
        assert args == [f.word] + args[1..];
      }
    }
  }

  /** The first word laid out on a line is the next one `clarg` finds. */
  lemma NextLaid(s: seq<byte>, z: int, p: int, args: seq<seq<byte>>)
    requires Terminated(s, z) && args != [] && Laid(s, p, args, z)
    ensures QuotableWord(args[0])
    ensures var h := p + 3 + |Quote(args[0])|;
      NextArg(s, z, p) == if args[1..] == [] then Final(args[0]) else Word(args[0], h)
  {
    FirstWord(s, z, p, args[0]);
    LaidNext(s, p, args, z);
  }

  /** After the first word laid out on a line comes the terminator exactly
      when it was the last one. */
  lemma LaidNext(s: seq<byte>, p: int, args: seq<seq<byte>>, z: int)
    requires Terminated(s, z) && args != [] && Laid(s, p, args, z)
    ensures QuotableWord(args[0])
    ensures var h := p + 3 + |Quote(args[0])|;
      h <= z && (s[h] == NUL <==> args[1..] == [])
  {
  }

  /** Round trip: any words made of quotable bytes, quoted and written on
      one line, come back from `clarg` as they were, with their count. */
  lemma ClargRoundTrip(args: seq<seq<byte>>, max: int)
    requires AllQuotable(args) && 0 < max && |args| <= max
    ensures var s := Render(args) + [NUL];
      Split(s, |s| - 1, 0, 0, max) == (args, |args|)
  {
    var s := Render(args) + [NUL];
    RenderLays(args, s);
    LaidSplit(s, |s| - 1, args, max);
  }

  /** A rendered line is laid out with its words. */
  lemma RenderLays(args: seq<seq<byte>>, s: seq<byte>)
    requires AllQuotable(args) && s == Render(args) + [NUL]
    ensures Terminated(s, |s| - 1) && Laid(s, 0, args, |s| - 1)
  {
    AtWhole(s);
    RenderLaid(s, 0, args, |s| - 1);
  }

  /** `clarg` gives back the words laid out on a line, and their count. */
  lemma LaidSplit(s: seq<byte>, z: int, args: seq<seq<byte>>, max: int)
    requires Terminated(s, z) && Laid(s, 0, args, z) && 0 < max && |args| <= max
    ensures Split(s, z, 0, 0, max) == (args, |args|)
  {
    LaidFinds(s, z, 0, args);
    SplitFinds(s, z, 0, 0, max, args);
  }

  lemma AtWhole(s: seq<byte>)
    ensures At(s, 0, s)
  {
    AtSuffix(s, 0);
    assert s[0..] == s;
  }

  /** On a line without quotes every word is an unquoted one: it is not
      empty and holds no white space. */
  lemma {:induction false} UnquotedWords(s: seq<byte>, z: int, p: int, i: nat, max: int)
    requires Terminated(s, z) && 0 <= p <= z
    requires forall k :: p <= k < z ==> s[k] != QUOTE
    ensures forall a :: a in Split(s, z, p, i, max).0 ==> |a| > 0 && forall b :: b in a ==> !IsSpace(b)
    decreases if i < max then max - i else 0
  {
    if i < max {
      var q := SkipSpace(s, z, p);
      if s[q] != NUL {
        var f := Plain(s, z, q);
        assert NextArg(s, z, p) == f;
        if f.Word? {
          UnquotedWords(s, z, f.next, i + 1, max);
        }
      }
    }
  }

  /** White space after the last word counts as more of the line: with
      one slot, `a ` gives -1, while `a` gives 1. */
  lemma TrailingSpaceOverflows()
    ensures Split([97, SP, NUL], 2, 0, 0, 1) == ([[97]], -1)
    ensures Split([97, NUL], 1, 0, 0, 1) == ([[97]], 1)
  {
    var s: seq<byte> := [97, SP, NUL];
    assert SkipSpace(s, 2, 0) == 0;
    assert SkipNonSpace(s, 2, 0) == 1;
    assert s[0..1] == [97];
    assert Plain(s, 2, 0) == Word([97], 2);
    assert NextArg(s, 2, 0) == Word([97], 2);
    assert Split(s, 2, 2, 1, 1) == ([], -1);
    assert [[97 as byte]] + [] == [[97]];
    var t: seq<byte> := [97, NUL];
    assert SkipSpace(t, 1, 0) == 0;
    assert SkipNonSpace(t, 1, 0) == 1;
    assert t[0..1] == [97];
    assert Plain(t, 1, 0) == Final([97]);
    assert NextArg(t, 1, 0) == Final([97]);
  }

  /** A quote that is never closed still makes a word. */
  lemma UnclosedQuoteCounts()
    ensures Split([QUOTE, 97, NUL], 2, 0, 0, 1) == ([[97]], 1)
  {
    var s: seq<byte> := [QUOTE, 97, NUL];
    assert SkipSpace(s, 2, 0) == 0;
    assert Unquote(s, 2, 2) == ([], 2);
    assert Decode(s, 2, 1) == ([97], 2);
    assert [97 as byte] + [] == [97];
    assert Unquote(s, 2, 1) == ([97], 2);
    assert Quoted(s, 2, 0) == Final([97]);
  }

  /** A control byte inside quotes ends the line when no escape came
      before it: the NUL closing the word lands on it, and `"a<TAB>b`
      yields the single word `a`. */
  lemma ControlByteEndsLine()
    ensures Split([QUOTE, 97, 9, 98, NUL], 4, 0, 0, 2) == ([[97]], 1)
  {
    var s: seq<byte> := [QUOTE, 97, 9, 98, NUL];
    assert SkipSpace(s, 4, 0) == 0;
    assert Unquote(s, 4, 2) == ([], 2);
    assert Decode(s, 4, 1) == ([97], 2);
    assert [97 as byte] + [] == [97];
    assert Unquote(s, 4, 1) == ([97], 2);
    assert Quoted(s, 4, 0) == Final([97]);
  }
}

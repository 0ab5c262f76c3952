/** The command history of history.c: a ring of `numlines` slots of
    `linelen` bytes each, with the indices `oldest`, `newest` (-1 when the
    history is empty) and `pos` (-1 when the user is not browsing).

    The ring is specified as a value (`Ring`) with one function per
    operation; the class `History` updates the slots and indices in place and
    each of its methods is proved to do what the function says. */
module History {
  import opened CType

  /** The state of a history: its slots (the buffer of `struct historycfg`),
      the slot width `linelen`, and the three indices of `struct history`. */
  datatype Ring = Ring(slots: seq<seq<byte>>, width: nat, oldest: int, newest: int, pos: int)

  /** `if( ++i == n ) i = 0;` */
  function Next(i: int, n: int): int {
    if i + 1 == n then 0 else i + 1
  }

  /** `if( --i < 0 ) i = n - 1;` */
  function Prev(i: int, n: int): int {
    if i - 1 < 0 then n - 1 else i - 1
  }

  /** How many slots after `oldest` the slot `i` lies, going round the ring. */
  function Offset(r: Ring, i: int): int {
    if i >= r.oldest then i - r.oldest else i - r.oldest + |r.slots|
  }

  /** The slot that holds the `k`-th oldest entry. */
  function Slot(r: Ring, k: int): int {
    if r.oldest + k < |r.slots| then r.oldest + k else r.oldest + k - |r.slots|
  }

  /** Number of stored entries. */
  function Count(r: Ring): int {
    if r.newest == -1 then 0 else Offset(r, r.newest) + 1
  }

  predicate WellShaped(r: Ring) {
    && |r.slots| >= 1 && r.width >= 1
    && (forall i :: 0 <= i < |r.slots| ==> |r.slots[i]| == r.width)
    && 0 <= r.oldest < |r.slots|
    && -1 <= r.newest < |r.slots|
    && -1 <= r.pos < |r.slots|
  }

  /** The invariant of a history: indices inside the ring, an empty history
      has `oldest == 0` and is not being browsed, and a browsing position
      always designates a stored entry. */
  predicate RingValid(r: Ring) {
    && WellShaped(r)
    && (r.newest == -1 ==> r.oldest == 0 && r.pos == -1)
    && (r.pos != -1 ==> Offset(r, r.pos) < Count(r))
  }

  /** The stored entries, oldest first. */
  function Entries(r: Ring): (es: seq<seq<byte>>)
    requires WellShaped(r)
    ensures |es| == Count(r) <= |r.slots|
    ensures forall k :: 0 <= k < |es| ==> es[k] == r.slots[Slot(r, k)]
  {
    seq(Count(r), k requires 0 <= k < Count(r) => r.slots[Slot(r, k)])
  }

  /** The entries do not depend on the search position. */
  lemma EntriesIgnorePos(r: Ring, p: int)
    requires WellShaped(r) && -1 <= p < |r.slots|
    ensures Entries(r.(pos := p)) == Entries(r)
  {
    var r1 := r.(pos := p);
    assert forall k :: 0 <= k < Count(r) ==> Slot(r1, k) == Slot(r, k);
  }

  lemma SlotOffset(r: Ring, k: int)
    requires WellShaped(r) && 0 <= k < |r.slots|
    ensures 0 <= Slot(r, k) < |r.slots| && Offset(r, Slot(r, k)) == k
  {
  }

  lemma OffsetSlot(r: Ring, i: int)
    requires WellShaped(r) && 0 <= i < |r.slots|
    ensures 0 <= Offset(r, i) < |r.slots| && Slot(r, Offset(r, i)) == i
  {
  }

  // ---------------------------------------------------------------- erase

  /** `history_erase`: every slot starts with NUL, the history is empty and
      not browsed. */
  function Erased(r: Ring): (e: Ring)
    requires WellShaped(r)
    ensures RingValid(e) && Entries(e) == [] && |e.slots| == |r.slots| && e.width == r.width
    ensures forall i :: 0 <= i < |e.slots| ==> e.slots[i] == r.slots[i][0 := NUL]
  {
    Ring(seq(|r.slots|, i requires 0 <= i < |r.slots| => r.slots[i][0 := NUL]), r.width, 0, -1, -1)
  }

  // ----------------------------------------------------------------- add

  /** What `strncpy( slot, line, linelen )` leaves in a slot: the first
      `linelen` bytes of the line, padded with NUL. */
  function Stored(line: seq<byte>, width: nat): (s: seq<byte>)
    ensures |s| == width
    ensures |line| < width && NulFree(line) ==> CStr(s) == line
    ensures |line| >= width ==> s == line[..width]
  {
    if |line| < width then
      CStrOfPadded(line, width - |line|);
      line + Zeros(width - |line|)
    else line[..width]
  }

  lemma CStrOfPadded(line: seq<byte>, n: nat)
    requires n >= 1
    ensures NulFree(line) ==> CStr(line + Zeros(n)) == line
    decreases |line|
  {
    if NulFree(line) && line != [] {
      assert (line + Zeros(n))[1..] == line[1..] + Zeros(n);
      CStrOfPadded(line[1..], n);
    }
  }

  /** The test at history.c:51, with an unbrowsed history (`pos == -1`)
      treated as holding no duplicate: the new line equals, as a C string,
      the entry the user last browsed. */
  predicate IsDuplicate(r: Ring, line: seq<byte>)
    requires RingValid(r)
    ensures IsDuplicate(r, line) ==>
              exists k :: 0 <= k < Count(r) && line == CStr(Entries(r)[k])
  {
    if r.pos < 0 then false
    else
      OffsetSlot(r, r.pos);
      assert Entries(r)[Offset(r, r.pos)] == r.slots[r.pos];
      line == CStr(r.slots[r.pos])
  }

  /** `history_line`: unless the line repeats the browsed entry, `newest`
      moves one slot on (from -1 to 0 on an empty history), `oldest` moves on
      when `newest` lands on it, the line is copied into slot `newest` and
      browsing stops. */
  function Added(r: Ring, line: seq<byte>): (a: Ring)
    requires RingValid(r)
    ensures RingValid(a) && |a.slots| == |r.slots| && a.width == r.width
    ensures a == r || a.pos == -1
  {
    if IsDuplicate(r, line) then r
    else
      var n := if r.newest == -1 then 0 else Next(r.newest, |r.slots|);
      var o := if r.newest == -1 then 0 else if n == r.oldest then Next(r.oldest, |r.slots|) else r.oldest;
      Ring(r.slots[n := Stored(line, r.width)], r.width, o, n, -1)
  }

  /** First-in first-out: a line that is not a duplicate is appended to the
      entries, and when all `numlines` slots were in use the oldest entry is
      dropped. A duplicate changes nothing. */
  lemma AddedEntries(r: Ring, line: seq<byte>)
    requires RingValid(r)
    ensures IsDuplicate(r, line) ==> Added(r, line) == r
    ensures !IsDuplicate(r, line) ==>
              && Added(r, line).pos == -1
              && Entries(Added(r, line)) ==
                 (if Count(r) < |r.slots| then Entries(r) else Entries(r)[1..]) + [Stored(line, r.width)]
  {
    if !IsDuplicate(r, line) {
      if r.newest == -1 {
        assert Entries(Added(r, line)) == [Stored(line, r.width)];
      } else if Count(r) < |r.slots| {
        AddedGrows(r, line);
      } else {
        AddedWraps(r, line);
      }
    }
  }

  /** A line added to a ring with a free slot goes after the newest entry. */
  lemma AddedGrows(r: Ring, line: seq<byte>)
    requires RingValid(r) && !IsDuplicate(r, line) && r.newest != -1 && Count(r) < |r.slots|
    ensures Entries(Added(r, line)) == Entries(r) + [Stored(line, r.width)]
  {
    var a := Added(r, line);
    var want := Entries(r) + [Stored(line, r.width)];
    var es := Entries(a);
    assert a.oldest == r.oldest;
    assert Offset(a, a.newest) == Count(r);
    assert |es| == |want|;
    forall k | 0 <= k < |es| ensures es[k] == want[k] {
      if k < Count(r) {
        SlotOffset(r, k);
      }
    }
  }

  /** A line added to a full ring takes the slot of the oldest entry. */
  lemma AddedWraps(r: Ring, line: seq<byte>)
    requires RingValid(r) && !IsDuplicate(r, line) && r.newest != -1 && Count(r) == |r.slots|
    ensures Entries(Added(r, line)) == Entries(r)[1..] + [Stored(line, r.width)]
  {
    var a := Added(r, line);
    var want := Entries(r)[1..] + [Stored(line, r.width)];
    var es := Entries(a);
    assert a.newest == r.oldest;
    assert Offset(a, a.newest) == |r.slots| - 1;
    assert |es| == |want|;
    forall k | 0 <= k < |es| ensures es[k] == want[k] {
      if k < |r.slots| - 1 {
        SlotOffset(r, k + 1);
        assert Slot(a, k) == Slot(r, k + 1);
      }
    }
  }

  /** How the bounds move: the number of entries grows by one until the ring
      is full and then stays at `numlines`. */
  lemma AddedCount(r: Ring, line: seq<byte>)
    requires RingValid(r) && !IsDuplicate(r, line)
    ensures Count(Added(r, line)) == if Count(r) < |r.slots| then Count(r) + 1 else |r.slots|
  {
    AddedEntries(r, line);
  }

  /** The defect at history.c:51 as written: the duplicate test indexes
      `(*lines)[pos]` whatever the value of `pos`. Right after an erase, and
      right after any line was stored, `pos` is -1, so the next
      `history_line` would read slot -1, which is outside the buffer. */
  lemma DuplicateTestReadsOutsideRing(r: Ring, line: seq<byte>)
    requires RingValid(r) && !IsDuplicate(r, line)
    ensures !(0 <= Added(r, line).pos < |r.slots|)
    ensures !(0 <= Erased(r).pos < |r.slots|)
  {
  }

  // ------------------------------------------------------------ backward

  /** `backward`: nothing on an empty history; otherwise `pos` goes from -1
      to `newest`, or one slot towards `oldest` but never past it, and the
      entry at the new `pos` is returned. */
  function StepBack(r: Ring): (res: (Ring, Option<nat>))
    requires RingValid(r)
    ensures RingValid(res.0)
    ensures r.newest == -1 <==> res.1.None?
    ensures res.1.None? ==> res.0 == r
    ensures res.1.Some? ==> res.0 == r.(pos := res.1.value) && res.1.value < |r.slots|
  {
    if r.newest == -1 then (r, None)
    else
      var p := if r.pos < 0 then r.newest else if r.pos != r.oldest then Prev(r.pos, |r.slots|) else r.pos;
      (r.(pos := p), Some(p))
  }

  function BackMeasure(r: Ring): int {
    if r.pos == -1 then |r.slots| else Offset(r, r.pos)
  }

  /** `history_backward`: step back until an entry begins with `key`, or
      the entry at `oldest` was examined without a match. */
  function FindBack(r: Ring, key: seq<byte>): (res: (Ring, Option<nat>))
    requires RingValid(r)
    ensures RingValid(res.0)
    ensures res.1.Some? ==> res.1.value < |res.0.slots| && HasPrefix(res.0.slots[res.1.value], key)
    decreases BackMeasure(r)
  {
    var limit := r.pos == r.oldest;
    var (r1, e) := StepBack(r);
    if e.None? then (r1, None)
    else if HasPrefix(r1.slots[e.value], key) then (r1, e)
    else if limit then (r1, None)
    else
      assert BackMeasure(r1) < BackMeasure(r);
      FindBack(r1, key)
  }

  /** A `backward` step onto an entry that does not match, away from
      `oldest`, leaves the rest of the search to the next step, which is
      closer to `oldest`. */
  lemma FindBackStep(r: Ring, key: seq<byte>)
    requires RingValid(r) && r.pos != r.oldest
    requires StepBack(r).1.Some? && !HasPrefix(r.slots[StepBack(r).1.value], key)
    ensures FindBack(r, key) == FindBack(StepBack(r).0, key)
    ensures BackMeasure(StepBack(r).0) < BackMeasure(r)
  {
  }

  /** The offset of the first entry `history_backward` examines. */
  function BackStart(r: Ring): int {
    if r.pos == -1 then Count(r) - 1 else if r.pos == r.oldest then 0 else Offset(r, r.pos) - 1
  }

  /** Whether the `k`-th oldest entry begins with `key`. */
  predicate MatchAt(es: seq<seq<byte>>, key: seq<byte>, k: int)
    requires 0 <= k < |es|
  {
    HasPrefix(es[k], key)
  }

  /** One `backward` step examines the entry at `BackStart`; the next step
      starts one entry older, or again at `oldest`. */
  lemma StepBackFacts(r: Ring)
    requires RingValid(r) && r.newest != -1
    ensures var (r1, e) := StepBack(r);
      && e.Some? && 0 <= BackStart(r) < Count(r) && Offset(r, e.value) == BackStart(r)
      && Entries(r1) == Entries(r) && Count(r1) == Count(r)
      && Entries(r)[BackStart(r)] == r.slots[e.value]
      && (r.pos != r.oldest ==> BackStart(r1) == if BackStart(r) == 0 then 0 else BackStart(r) - 1)
  {
    var (r1, e) := StepBack(r);
    OffsetSlot(r, e.value);
  }

  /** `history_backward` changes nothing but `pos`, which it leaves on the
      entry it returns; on an empty history it changes nothing. */
  lemma {:induction false} FindBackFrame(r: Ring, key: seq<byte>)
    requires RingValid(r)
    ensures var (r1, e) := FindBack(r, key);
      && r1 == r.(pos := r1.pos)
      && (r.newest == -1 ==> r1 == r && e.None?)
      && (e.Some? ==> e.value == r1.pos)
    decreases BackMeasure(r)
  {
    if r.newest != -1 {
      var limit := r.pos == r.oldest;
      var (r1, e) := StepBack(r);
      if !HasPrefix(r1.slots[e.value], key) && !limit {
        FindBackFrame(r1, key);
      }
    }
  }

  /** `history_backward` finds the newest entry, at or before its starting
      point, that begins with the key, and leaves `pos` on it; without one
      it returns nothing and leaves `pos` at `oldest`. It never looks at an
      entry newer than its starting point. */
  lemma {:induction false} FindBackSpec(r: Ring, key: seq<byte>)
    requires RingValid(r) && r.newest != -1
    ensures var (r1, e) := FindBack(r, key);
      && (e.Some? ==>
            && 0 <= Offset(r, r1.pos) <= BackStart(r) < Count(r)
            && MatchAt(Entries(r), key, Offset(r, r1.pos))
            && forall k :: Offset(r, r1.pos) < k <= BackStart(r) ==> !MatchAt(Entries(r), key, k))
      && (e.None? ==>
            && r1.pos == r.oldest
            && forall k :: 0 <= k <= BackStart(r) < Count(r) ==> !MatchAt(Entries(r), key, k))
    decreases BackMeasure(r), 1
  {
    var (r1, e) := StepBack(r);
    StepBackFacts(r);
    if !HasPrefix(r1.slots[e.value], key) && r.pos != r.oldest {
      FindBackOn(r, key);
    } else {
      FindBackFrame(r, key);
    }
  }

  /** `FindBackSpec` when the first entry examined does not match and the
      search goes on. */
  lemma {:induction false} FindBackOn(r: Ring, key: seq<byte>)
    requires RingValid(r) && r.newest != -1 && r.pos != r.oldest
    requires StepBack(r).1.Some? && !HasPrefix(r.slots[StepBack(r).1.value], key)
    ensures var (r1, e) := FindBack(r, key);
      && (e.Some? ==>
            && 0 <= Offset(r, r1.pos) <= BackStart(r) < Count(r)
            && MatchAt(Entries(r), key, Offset(r, r1.pos))
            && forall k :: Offset(r, r1.pos) < k <= BackStart(r) ==> !MatchAt(Entries(r), key, k))
      && (e.None? ==>
            && r1.pos == r.oldest
            && forall k :: 0 <= k <= BackStart(r) < Count(r) ==> !MatchAt(Entries(r), key, k))
    decreases BackMeasure(r), 0
  {
    var (r1, e) := StepBack(r);
    StepBackFacts(r);
    FindBackStep(r, key);
    FindBackSpec(r1, key);
    FindBackFrame(r1, key);
    var (r2, e2) := FindBack(r1, key);
    assert Offset(r1, r2.pos) == Offset(r, r2.pos);
    if e2.Some? {
      BackCover(Entries(r), key, Offset(r, r2.pos), BackStart(r1), BackStart(r));
    } else {
      BackCover(Entries(r), key, -1, BackStart(r1), BackStart(r));
    }
  }

  /** No match after `lo` up to `b1`, and none at `b`, the entry examined
      first: none after `lo` up to `b`. */
  lemma BackCover(es: seq<seq<byte>>, key: seq<byte>, lo: int, b1: int, b: int)
    requires 0 <= b < |es| && (b1 == b - 1 || b1 == b == 0) && !MatchAt(es, key, b)
    requires forall k :: lo < k <= b1 && 0 <= k < |es| ==> !MatchAt(es, key, k)
    ensures forall k :: lo < k <= b && 0 <= k < |es| ==> !MatchAt(es, key, k)
  {
  }

  // ------------------------------------------------------------- forward

  /** `forward`: nothing on an empty history or when `pos` is already at
      `newest`; otherwise `pos` goes from -1 to `newest`, or one slot
      towards `newest`, and the entry at the new `pos` is returned. */
  function StepFwd(r: Ring): (res: (Ring, Option<nat>))
    requires RingValid(r)
    ensures RingValid(res.0)
    ensures (r.newest == -1 || r.pos == r.newest) <==> res.1.None?
    ensures res.1.None? ==> res.0 == r
    ensures res.1.Some? ==> res.0 == r.(pos := res.1.value) && res.1.value < |r.slots|
  {
    if r.newest == -1 then (r, None)
    else if r.pos == r.newest then (r, None)
    else
      var p := if r.pos < 0 then r.newest else Next(r.pos, |r.slots|);
      assert Offset(r, p) < Count(r);
      (r.(pos := p), Some(p))
  }

  function FwdMeasure(r: Ring): int {
    if r.pos == -1 then Count(r) else Count(r) - 1 - Offset(r, r.pos)
  }

  /** `history_forward`: step forward until an entry begins with `key` or
      `pos` reaches `newest`. */
  function FindFwd(r: Ring, key: seq<byte>): (res: (Ring, Option<nat>))
    requires RingValid(r)
    ensures RingValid(res.0)
    ensures res.1.Some? ==> res.1.value < |res.0.slots| && HasPrefix(res.0.slots[res.1.value], key)
    decreases FwdMeasure(r)
  {
    var (r1, e) := StepFwd(r);
    if e.None? then (r1, None)
    else if HasPrefix(r1.slots[e.value], key) then (r1, e)
    else
      assert FwdMeasure(r1) < FwdMeasure(r);
      FindFwd(r1, key)
  }

  /** A `forward` step onto an entry that does not match leaves the rest
      of the search to the next step, which is closer to `newest`. */
  lemma FindFwdStep(r: Ring, key: seq<byte>)
    requires RingValid(r)
    requires StepFwd(r).1.Some? && !HasPrefix(r.slots[StepFwd(r).1.value], key)
    ensures FindFwd(r, key) == FindFwd(StepFwd(r).0, key)
    ensures FwdMeasure(StepFwd(r).0) < FwdMeasure(r)
  {
  }

  /** The offset of the first entry `history_forward` examines. */
  function FwdStart(r: Ring): int {
    if r.pos == -1 then Count(r) - 1 else Offset(r, r.pos) + 1
  }

  /** One `forward` step examines the entry at `FwdStart`; the next step
      starts one entry newer. */
  lemma StepFwdFacts(r: Ring)
    requires RingValid(r) && r.newest != -1
    ensures 0 <= FwdStart(r) <= Count(r)
    ensures r.pos == r.newest <==> FwdStart(r) == Count(r)
    ensures var (r1, e) := StepFwd(r);
      && Entries(r1) == Entries(r) && Count(r1) == Count(r)
      && (e.Some? ==>
            && Offset(r, e.value) == FwdStart(r) < Count(r)
            && Entries(r)[FwdStart(r)] == r.slots[e.value]
            && FwdStart(r1) == FwdStart(r) + 1)
  {
    var (r1, e) := StepFwd(r);
    OffsetSlot(r, r.newest);
    if e.Some? {
      OffsetSlot(r, e.value);
    }
  }

  /** `history_forward` changes nothing but `pos`, which it leaves on the
      entry it returns; on an empty history it changes nothing. */
  lemma {:induction false} FindFwdFrame(r: Ring, key: seq<byte>)
    requires RingValid(r)
    ensures var (r1, e) := FindFwd(r, key);
      && r1 == r.(pos := r1.pos)
      && (r.newest == -1 ==> r1 == r && e.None?)
      && (e.Some? ==> e.value == r1.pos)
    decreases FwdMeasure(r)
  {
    var (r1, e) := StepFwd(r);
    if e.Some? && !HasPrefix(r1.slots[e.value], key) {
      assert FwdMeasure(r1) < FwdMeasure(r);
      FindFwdFrame(r1, key);
    }
  }

  /** `history_forward` finds the oldest entry, from its starting point on,
      that begins with the key and leaves `pos` on it; without one it
      returns nothing and `pos` ends at `newest`. It never moves `pos` past
      `newest`. */
  lemma {:induction false} FindFwdSpec(r: Ring, key: seq<byte>)
    requires RingValid(r) && r.newest != -1
    ensures var (r1, e) := FindFwd(r, key);
      && (e.Some? ==>
            && 0 <= FwdStart(r) <= Offset(r, r1.pos) < Count(r)
            && MatchAt(Entries(r), key, Offset(r, r1.pos))
            && forall k :: FwdStart(r) <= k < Offset(r, r1.pos) ==> !MatchAt(Entries(r), key, k))
      && (e.None? ==>
            && r1.pos == r.newest
            && forall k :: 0 <= FwdStart(r) <= k < Count(r) ==> !MatchAt(Entries(r), key, k))
    decreases FwdMeasure(r), 1
  {
    var (r1, e) := StepFwd(r);
    StepFwdFacts(r);
    if e.Some? && !HasPrefix(r1.slots[e.value], key) {
      FindFwdOn(r, key);
    } else {
      FindFwdFrame(r, key);
    }
  }

  /** `FindFwdSpec` when the first entry examined does not match and the
      search goes on. */
  lemma {:induction false} FindFwdOn(r: Ring, key: seq<byte>)
    requires RingValid(r) && r.newest != -1
    requires StepFwd(r).1.Some? && !HasPrefix(r.slots[StepFwd(r).1.value], key)
    ensures var (r1, e) := FindFwd(r, key);
      && (e.Some? ==>
            && 0 <= FwdStart(r) <= Offset(r, r1.pos) < Count(r)
            && MatchAt(Entries(r), key, Offset(r, r1.pos))
            && forall k :: FwdStart(r) <= k < Offset(r, r1.pos) ==> !MatchAt(Entries(r), key, k))
      && (e.None? ==>
            && r1.pos == r.newest
            && forall k :: 0 <= FwdStart(r) <= k < Count(r) ==> !MatchAt(Entries(r), key, k))
    decreases FwdMeasure(r), 0
  {
    var (r1, e) := StepFwd(r);
    StepFwdFacts(r);
    FindFwdStep(r, key);
    FindFwdSpec(r1, key);
    FindFwdFrame(r1, key);
    var (r2, e2) := FindFwd(r1, key);
    assert Offset(r1, r2.pos) == Offset(r, r2.pos);
    if e2.Some? {
      FwdCover(Entries(r), key, FwdStart(r), Offset(r, r2.pos));
    } else {
      FwdCover(Entries(r), key, FwdStart(r), Count(r));
    }
  }

  /** No match at `f`, the entry examined first, and none from `f + 1` up
      to `hi`: none from `f` up to `hi`. */
  lemma FwdCover(es: seq<seq<byte>>, key: seq<byte>, f: int, hi: int)
    requires 0 <= f < |es| && !MatchAt(es, key, f)
    requires forall k :: f + 1 <= k < hi && 0 <= k < |es| ==> !MatchAt(es, key, k)
    ensures forall k :: f <= k < hi && 0 <= k < |es| ==> !MatchAt(es, key, k)
  {
  }

  // --------------------------------------------------------------- class

  /** `struct history` together with its configuration: the slot buffer the
      caller supplies (`numlines` slots of `linelen` bytes) and the indices
      `oldest`, `newest` and `pos`. */
  class History {
    const lines: array<seq<byte>>
    const linelen: nat
    var oldest: int
    var newest: int
    var pos: int

    ghost function Value(): Ring
      reads this, lines
    {
      Ring(lines[..], linelen, oldest, newest, pos)
    }

    ghost predicate Valid()
      reads this, lines
    {
      RingValid(Value())
    }

    /** `history_init`: adopt the caller's buffer and erase the history.
        (The source repeats erase's loop over the slots afterwards; doing it
        twice leaves the same buffer.) */
    constructor (mem: array<seq<byte>>, linelen: nat)
      requires mem.Length >= 1 && linelen >= 1
      requires forall i :: 0 <= i < mem.Length ==> |mem[i]| == linelen
      modifies mem
      ensures Valid() && lines == mem && this.linelen == linelen
      ensures Value() == Erased(Ring(old(mem[..]), linelen, 0, -1, -1))
    {
      lines := mem;
      this.linelen := linelen;
      oldest, newest, pos := 0, -1, -1;
      new;
      Erase();
    }

    /** `history_erase`. */
    method Erase()
      requires WellShaped(Value())
      modifies this, lines
      ensures Valid() && Value() == Erased(old(Value()))
    {
      var i := 0;
      while i < lines.Length
        invariant 0 <= i <= lines.Length
        invariant forall k :: 0 <= k < i ==> lines[k] == old(lines[k])[0 := NUL]
        invariant forall k :: i <= k < lines.Length ==> lines[k] == old(lines[k])
      {
        lines[i] := lines[i][0 := NUL];
        i := i + 1;
      }
      oldest, newest, pos := 0, -1, -1;
    }

    /** `history_line`. */
    method AddLine(line: seq<byte>)
      requires Valid()
      modifies this, lines
      ensures Valid() && Value() == Added(old(Value()), line)
    {
      if pos >= 0 && line == CStr(lines[pos]) {
        return;
      }
      var empty := newest == -1;
      if empty {
        oldest := 0;
        newest := 0;
      } else {
        newest := newest + 1;
        if newest == lines.Length {
          newest := 0;
        }
        if newest == oldest {
          oldest := oldest + 1;
          if oldest == lines.Length {
            oldest := 0;
          }
        }
      }
      lines[newest] := Stored(line, linelen);
      pos := -1;
    }

    /** `backward`: the slot of the entry now at `pos`, or None. */
    method Backward() returns (e: Option<nat>)
      requires Valid()
      modifies this
      ensures Valid() && (Value(), e) == StepBack(old(Value()))
    {
      if newest == -1 {
        return None;
      }
      if pos < 0 {
        pos := newest;
      } else if pos != oldest {
        pos := pos - 1;
        if pos < 0 {
          pos := lines.Length - 1;
        }
      }
      return Some(pos);
    }

    /** `history_backward`: the slot of the matching entry, or None. */
    method SearchBackward(key: seq<byte>) returns (e: Option<nat>)
      requires Valid()
      modifies this
      ensures Valid() && (Value(), e) == FindBack(old(Value()), key)
    {
      while true
        invariant Valid()
        invariant FindBack(Value(), key) == FindBack(old(Value()), key)
        decreases BackMeasure(Value())
      {
        var limit := pos == oldest;
        ghost var before := Value();
        e := Backward();
        if e.None? {
          return;
        }
        if HasPrefix(lines[e.value], key) {
          return;
        }
        if limit {
          return None;
        }
        FindBackStep(before, key);
      }
    }

    /** `forward`: the slot of the entry now at `pos`, or None. */
    method Forward() returns (e: Option<nat>)
      requires Valid()
      modifies this
      ensures Valid() && (Value(), e) == StepFwd(old(Value()))
    {
      if newest == -1 {
        return None;
      }
      if pos == newest {
        return None;
      }
      if pos < 0 {
        pos := newest;
      } else {
        pos := pos + 1;
        if pos == lines.Length {
          pos := 0;
        }
      }
      return Some(pos);
    }

    /** `history_forward`: the slot of the matching entry, or None. */
    method SearchForward(key: seq<byte>) returns (e: Option<nat>)
      requires Valid()
      modifies this
      ensures Valid() && (Value(), e) == FindFwd(old(Value()), key)
    {
      while true
        invariant Valid()
        invariant FindFwd(Value(), key) == FindFwd(old(Value()), key)
        decreases FwdMeasure(Value())
      {
        ghost var before := Value();
        e := Forward();
        if e.None? {
          return;
        }
        if HasPrefix(lines[e.value], key) {
          return;
        }
        FindFwdStep(before, key);
      }
    }
  }
}

/** Bytes, the C-locale character classes of <ctype.h> that the editor and
    the tokenizer rely on, and C strings read out of fixed-size buffers. */
module CType {

  /** A value that may be NULL, or a search that may find nothing. */
  datatype Option<T> = None | Some(value: T)

  /** One byte of a line buffer, read as `unsigned char`. */
  type byte = x: int | 0 <= x < 256

  const NUL: byte := 0

  /** `isspace` in the C locale: space, \t, \n, \v, \f and \r. */
  predicate IsSpace(b: byte) {
    b == 32 || 9 <= b <= 13
  }

  /** `isprint` in the C locale: the ASCII graphic characters and space. */
  predicate IsPrint(b: byte) {
    32 <= b <= 126
  }

  /** `isdigit`: '0' to '9'. */
  predicate IsDigit(b: byte) {
    48 <= b <= 57
  }

  /** The value of a decimal digit. */
  function DigitValue(b: byte): (d: nat)
    requires IsDigit(b)
    ensures d < 10 && b == 48 + d
  {
    b - 48
  }

  /** A byte sequence holding no NUL. */
  predicate NulFree(s: seq<byte>) {
    forall i :: 0 <= i < |s| ==> s[i] != NUL
  }

  /** The C string stored at the start of `s`: every byte before the first
      NUL, or all of `s` when it holds no NUL. */
  function CStr(s: seq<byte>): (r: seq<byte>)
    ensures |r| <= |s| && r == s[..|r|]
    ensures NulFree(r)
    ensures |r| < |s| ==> s[|r|] == NUL
  {
    if s == [] || s[0] == NUL then [] else [s[0]] + CStr(s[1..])
  }

  /** `memcmp(key, entry, |key|) == 0` for an entry held in a buffer of
      |entry| bytes: the first |key| bytes of the entry are the key. */
  predicate HasPrefix(entry: seq<byte>, key: seq<byte>) {
    |key| <= |entry| && entry[..|key|] == key
  }

  /** `n` NUL bytes. */
  function Zeros(n: nat): (r: seq<byte>)
    ensures |r| == n && forall i :: 0 <= i < n ==> r[i] == NUL
  {
    seq(n, _ => NUL)
  }

  /** The bytes of an ASCII string literal. */
  function Ascii(s: string): (r: seq<byte>)
    requires forall i :: 0 <= i < |s| ==> s[i] as int < 256
    ensures |r| == |s| && forall i :: 0 <= i < |s| ==> r[i] == s[i] as int
  {
    if s == "" then [] else [s[0] as int] + Ascii(s[1..])
  }

  /** The C string of `s` is the one NUL-free prefix of `s` that is followed
      by a NUL or by the end of `s`. */
  lemma CStrUnique(s: seq<byte>, t: seq<byte>)
    requires |t| <= |s| && t == s[..|t|] && NulFree(t)
    requires |t| < |s| ==> s[|t|] == NUL
    ensures CStr(s) == t
  {
    var r := CStr(s);
    assert forall i :: 0 <= i < |t| ==> t[i] == s[i];
    assert forall i :: 0 <= i < |r| ==> r[i] == s[i];
  }

  /** Reading a C string across a NUL-free prefix of the buffer: the
      prefix, then the C string that follows it. */
  lemma {:induction false} CStrAfter(s: seq<byte>, n: nat)
    requires n <= |s| && NulFree(s[..n])
    ensures CStr(s) == s[..n] + CStr(s[n..])
    decreases n
  {
    if n == 0 {
      assert s[..0] == [] && s[0..] == s;
    } else {
      PrefixTail(s, n);
      CStrAfter(s[1..], n - 1);
      Regroup([s[0]], s[1..][..n - 1], CStr(s[n..]), s[..n]);
    }
  }

  /** Dropping the first byte of a NUL-free prefix. */
  lemma PrefixTail(s: seq<byte>, n: nat)
    requires 0 < n <= |s| && NulFree(s[..n])
    ensures s[0] != NUL && NulFree(s[1..][..n - 1])
    ensures s[..n] == [s[0]] + s[1..][..n - 1] && s[1..][n - 1..] == s[n..]
  {
    assert s[..n][0] == s[0];
    assert s[1..][..n - 1] == s[..n][1..];
  }

  lemma Regroup(a: seq<byte>, b: seq<byte>, c: seq<byte>, ab: seq<byte>)
    requires ab == a + b
    ensures a + (b + c) == ab + c
  {
  }
}

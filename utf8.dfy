/**
 * The byte view of text. Rust strings are UTF-8 byte buffers: the finders
 * return byte offsets into the input, and `place_kashidas` inserts into a
 * byte buffer that refuses to split a character.
 */
module Utf8 {
  newtype byte = b: int | 0 <= b < 256

  /** A byte that continues a multi-byte character (`0b10xx_xxxx`). */
  predicate IsContinuation(b: byte) {
    0x80 <= b < 0xC0
  }

  /** The number of bytes UTF-8 spends on `c`. */
  function Width(c: char): nat {
    var v := c as int;
    if v < 0x80 then 1 else if v < 0x800 then 2 else if v < 0x1_0000 then 3 else 4
  }

  /** The first byte of `c`'s encoding: the value itself, or a length marker and its top bits. */
  function Lead(c: char): byte {
    var v := c as int;
    if v < 0x80 then v as byte
    else if v < 0x800 then (0xC0 + v / 64) as byte
    else if v < 0x1_0000 then (0xE0 + v / 4096) as byte
    else (0xF0 + v / 262144) as byte
  }

  /** The last `k` six-bit groups of `v`, each as a continuation byte, most significant first. */
  function Continuations(v: nat, k: nat): (bs: seq<byte>)
    ensures |bs| == k
    ensures forall i :: 0 <= i < k ==> IsContinuation(bs[i])
  {
    if k == 0 then [] else Continuations(v / 64, k - 1) + [(0x80 + v % 64) as byte]
  }

  /** The UTF-8 encoding of one Unicode scalar value. */
  function Encode(c: char): (bs: seq<byte>)
    ensures 1 <= |bs| <= 4
    ensures !IsContinuation(bs[0])
    ensures forall i :: 1 <= i < |bs| ==> IsContinuation(bs[i])
    ensures (c as int < 0x80) <==> |bs| == 1
    ensures 0x80 <= c as int < 0x800 <==> |bs| == 2
  {
    [Lead(c)] + Continuations(c as int, Width(c) - 1)
  }

  /** The UTF-8 encoding of a string. */
  function EncodeStr(s: seq<char>): (bs: seq<byte>)
    ensures |bs| >= |s|
    ensures s != [] ==> !IsContinuation(bs[0])
  {
    if s == [] then [] else Encode(s[0]) + EncodeStr(s[1..])
  }

  /** Encoding distributes over concatenation. */
  lemma {:induction false} EncodeStrAppend(a: seq<char>, b: seq<char>)
    ensures EncodeStr(a + b) == EncodeStr(a) + EncodeStr(b)
  {
    if a == [] {
      assert a + b == b;
    } else {
      var c, tail := a[0], a[1..];
      assert (a + b)[0] == c && (a + b)[1..] == tail + b;
      EncodeStrAppend(tail, b);
      var e := Encode(c);
      calc {
        EncodeStr(a + b);
        e + EncodeStr(tail + b);
        e + (EncodeStr(tail) + EncodeStr(b));
        (e + EncodeStr(tail)) + EncodeStr(b);
        EncodeStr(a) + EncodeStr(b);
      }
    }
  }

  /**
   * Rust's `str::is_char_boundary`: `i` is at most the length, and is the
   * start, the end, or a position whose byte starts a character.
   */
  predicate IsCharBoundary(s: seq<byte>, i: nat) {
    i <= |s| && (i == 0 || i == |s| || !IsContinuation(s[i]))
  }
}

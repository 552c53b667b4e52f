/**
 * UTF-8 encoding of a Rust `String`, the way `String::into_bytes` and
 * `str::as_bytes` expose it. The WebAuthn actor keys its challenge cache and
 * its credential store by these bytes, so two names share a key exactly when
 * they are the same string: `Utf8Encode` is proved injective through the
 * strict decoder `Utf8Decode`, its inverse in both directions.
 */
module Utf8 {
  import opened Wrappers

  /** The code point of a Rust `char` (a Unicode scalar value). */
  predicate IsScalar(cp: int) {
    0 <= cp < 0xD800 || 0xE000 <= cp < 0x11_0000
  }

  /** The one to four bytes that encode `c`. */
  function EncodeChar(c: char): (bs: seq<byte>)
    ensures 1 <= |bs| <= 4
    ensures |bs| == SequenceLength(bs[0])
  {
    var cp := c as int;
    if cp < 0x80 then [cp as byte]
    else
      // cp == q1 * 64 + r0, q1 == q2 * 64 + r1, q2 == q3 * 64 + r2: six bits per byte
      var q1, r0 := cp / 0x40, cp % 0x40;
      if cp < 0x800 then [(0xC0 + q1) as byte, (0x80 + r0) as byte]
      else
        var q2, r1 := q1 / 0x40, q1 % 0x40;
        if cp < 0x1_0000 then [(0xE0 + q2) as byte, (0x80 + r1) as byte, (0x80 + r0) as byte]
        else
          var q3, r2 := q2 / 0x40, q2 % 0x40;
          [(0xF0 + q3) as byte, (0x80 + r2) as byte, (0x80 + r1) as byte, (0x80 + r0) as byte]
  }

  /** The bytes of `s`, character by character. */
  function Utf8Encode(s: string): (bs: seq<byte>)
    ensures |s| <= |bs| <= 4 * |s|
  {
    if s == [] then [] else EncodeChar(s[0]) + Utf8Encode(s[1..])
  }

  /** How many bytes a sequence starting with lead byte `b0` occupies; 0 for a byte that cannot lead. */
  function SequenceLength(b0: byte): nat {
    if b0 < 0x80 then 1
    else if b0 < 0xC0 then 0
    else if b0 < 0xE0 then 2
    else if b0 < 0xF0 then 3
    else if b0 < 0xF8 then 4
    else 0
  }

  predicate IsContinuation(b: byte) {
    0x80 <= b < 0xC0
  }

  /** The smallest code point that needs `n` bytes; anything below is an overlong form. */
  function MinScalar(n: nat): int {
    if n == 1 then 0 else if n == 2 then 0x80 else if n == 3 then 0x800 else 0x1_0000
  }

  /** The code point spelled by `bs`, whose lead byte announces exactly `|bs|` bytes. */
  function ScalarOf(bs: seq<byte>): int
    requires 1 <= |bs| <= 4 && |bs| == SequenceLength(bs[0])
  {
    if |bs| == 1 then bs[0] as int
    else if |bs| == 2 then (bs[0] as int - 0xC0) * 0x40 + Sextet(bs[1])
    else if |bs| == 3 then ((bs[0] as int - 0xE0) * 0x40 + Sextet(bs[1])) * 0x40 + Sextet(bs[2])
    else (((bs[0] as int - 0xF0) * 0x40 + Sextet(bs[1])) * 0x40 + Sextet(bs[2])) * 0x40 + Sextet(bs[3])
  }

  /** The six payload bits of a continuation byte. */
  function Sextet(b: byte): int {
    b as int - 0x80
  }

  /**
   * The first character of `bs` and the number of bytes it takes, or None when
   * `bs` does not start with a well-formed sequence (a stray continuation byte,
   * a truncated sequence, an overlong form, a surrogate or a value past U+10FFFF).
   */
  function DecodeFirst(bs: seq<byte>): (r: Option<(char, nat)>)
    requires bs != []
    ensures r.Some? ==> 1 <= r.value.1 <= |bs|
  {
    var n := SequenceLength(bs[0]);
    if n == 0 || |bs| < n then None
    else if exists i | 1 <= i < n :: !IsContinuation(bs[i]) then None
    else
      var cp := ScalarOf(bs[..n]);
      if MinScalar(n) <= cp && IsScalar(cp) then Some((cp as char, n)) else None
  }

  /** Strict UTF-8 decoding, as `String::from_utf8`: None for any ill-formed input. */
  function Utf8Decode(bs: seq<byte>): (r: Option<string>)
    decreases |bs|
  {
    if bs == [] then Some([])
    else match DecodeFirst(bs)
      case None => None
      case Some((c, n)) =>
        match Utf8Decode(bs[n..])
        case None => None
        case Some(rest) => Some([c] + rest)
  }

  /** Six bits split off the bottom of a number are found again by division by 64. */
  lemma SplitSextet(q: int, r: int)
    requires 0 <= r < 0x40
    ensures (q * 0x40 + r) / 0x40 == q && (q * 0x40 + r) % 0x40 == r
  {
  }

  lemma EncodeCharDecodes(c: char, rest: seq<byte>)
    ensures DecodeFirst(EncodeChar(c) + rest) == Some((c, |EncodeChar(c)|))
  {
    var bs := EncodeChar(c) + rest;
    var n := |EncodeChar(c)|;
    assert bs[..n] == EncodeChar(c);
    var cp := c as int;
    var q1, r0 := cp / 0x40, cp % 0x40;
    var q2, r1 := q1 / 0x40, q1 % 0x40;
    if n == 3 {
      assert ScalarOf(bs[..n]) == (q2 * 0x40 + r1) * 0x40 + r0;
    } else if n == 4 {
      var q3, r2 := q2 / 0x40, q2 % 0x40;
      assert ScalarOf(bs[..n]) == ((q3 * 0x40 + r2) * 0x40 + r1) * 0x40 + r0;
    }
    assert ScalarOf(bs[..n]) == cp;
  }

  /** The bytes of one well-formed sequence, as `DecodeFirst` accepts them. */
  predicate WellFormedChar(head: seq<byte>) {
    && 1 <= |head| <= 4 && |head| == SequenceLength(head[0])
    && (forall i | 1 <= i < |head| :: IsContinuation(head[i]))
    && MinScalar(|head|) <= ScalarOf(head) && IsScalar(ScalarOf(head))
  }

  lemma WellFormedCharEncodes(head: seq<byte>)
    requires WellFormedChar(head)
    ensures EncodeChar(ScalarOf(head) as char) == head
  {
    var cp := ScalarOf(head);
    if |head| == 2 {
      SplitSextet(head[0] as int - 0xC0, Sextet(head[1]));
    } else if |head| == 3 {
      WellFormedCharEncodes3(head);
    } else if |head| == 4 {
      WellFormedCharEncodes4(head);
    }
  }

  lemma WellFormedCharEncodes3(head: seq<byte>)
    requires WellFormedChar(head) && |head| == 3
    ensures EncodeChar(ScalarOf(head) as char) == head
  {
    var q1 := (head[0] as int - 0xE0) * 0x40 + Sextet(head[1]);
    assert IsContinuation(head[1]) && IsContinuation(head[2]);
    SplitSextet(q1, Sextet(head[2]));
    SplitSextet(head[0] as int - 0xE0, Sextet(head[1]));
  }

  lemma WellFormedCharEncodes4(head: seq<byte>)
    requires WellFormedChar(head) && |head| == 4
    ensures EncodeChar(ScalarOf(head) as char) == head
  {
    var q2 := (head[0] as int - 0xF0) * 0x40 + Sextet(head[1]);
    var q1 := q2 * 0x40 + Sextet(head[2]);
    assert IsContinuation(head[1]) && IsContinuation(head[2]) && IsContinuation(head[3]);
    SplitSextet(q1, Sextet(head[3]));
    SplitSextet(q2, Sextet(head[2]));
    SplitSextet(head[0] as int - 0xF0, Sextet(head[1]));
  }

  lemma DecodedCharEncodes(bs: seq<byte>)
    requires bs != [] && DecodeFirst(bs).Some?
    ensures bs[..DecodeFirst(bs).value.1] == EncodeChar(DecodeFirst(bs).value.0)
  {
    var n := SequenceLength(bs[0]);
    var head := bs[..n];
    assert forall i | 1 <= i < n :: IsContinuation(head[i]);
    assert WellFormedChar(head);
    WellFormedCharEncodes(head);
  }

  /** Decoding undoes encoding: every string survives the round trip. */
  lemma {:induction false} DecodeEncode(s: string)
    ensures Utf8Decode(Utf8Encode(s)) == Some(s)
  {
    if s != [] {
      var head := EncodeChar(s[0]);
      var tail := Utf8Encode(s[1..]);
      EncodeCharDecodes(s[0], tail);
      assert (head + tail)[|head|..] == tail;
      DecodeEncode(s[1..]);
      assert [s[0]] + s[1..] == s;
    }
  }

  /** Encoding a string with a first character is encoding that character, then the rest. */
  lemma EncodeCons(c: char, s: string)
    ensures Utf8Encode([c] + s) == EncodeChar(c) + Utf8Encode(s)
  {
    assert ([c] + s)[1..] == s;
  }

  /** A byte string that decodes starts with a well-formed character, and the rest decodes too. */
  lemma DecodeCons(bs: seq<byte>)
    requires bs != [] && Utf8Decode(bs).Some?
    ensures DecodeFirst(bs).Some?
    ensures var n := DecodeFirst(bs).value.1;
      Utf8Decode(bs[n..]).Some?
      && Utf8Decode(bs).value == [DecodeFirst(bs).value.0] + Utf8Decode(bs[n..]).value
  {
  }

  /** Encoding undoes decoding: a byte string that decodes is exactly the encoding of what it decodes to. */
  lemma {:induction false} EncodeDecode(bs: seq<byte>)
    requires Utf8Decode(bs).Some?
    ensures Utf8Encode(Utf8Decode(bs).value) == bs
    decreases |bs|
  {
    if bs != [] {
      DecodeCons(bs);
      var (c, n) := DecodeFirst(bs).value;
      var rest := Utf8Decode(bs[n..]).value;
      var head := bs[..n];
      var tail := bs[n..];
      assert bs == head + tail;
      DecodedCharEncodes(bs);
      assert EncodeChar(c) == head;
      EncodeDecode(tail);
      assert Utf8Encode(rest) == tail;
      EncodeCons(c, rest);
      assert Utf8Encode([c] + rest) == head + tail;
    }
  }

  /** Distinct names give distinct keys. */
  lemma EncodeInjective(s: string, t: string)
    ensures Utf8Encode(s) == Utf8Encode(t) <==> s == t
  {
    DecodeEncode(s);
    DecodeEncode(t);
  }
}

/**
 * UTF-8 lengths and encoding, per section 3 of RFC 3629. The bot's rich-text
 * facets address post text by byte offset, computed in Python as
 * `len(text[:k].encode("utf-8"))`.
 */
module Utf8 {

  /** A byte, as the unsigned value Python's `bytes` holds. */
  type Byte = b: int | 0 <= b < 256

  /** Byte count of one scalar value in UTF-8. */
  function CharLen(c: char): (n: nat)
    ensures 1 <= n <= 4
  {
    if c as int < 0x80 then 1
    else if c as int < 0x800 then 2
    else if c as int < 0x1_0000 then 3
    else 4
  }

  /** Byte count of a text: `len(s.encode("utf-8"))`. */
  function Len(s: string): nat
    decreases |s|
  {
    if s == [] then 0 else Len(s[..|s| - 1]) + CharLen(s[|s| - 1])
  }

  /** The RFC 3629 byte sequence of one scalar value. */
  function EncodeChar(c: char): (bytes: seq<Byte>)
    ensures |bytes| == CharLen(c)
    ensures IsLead(bytes[0])
    ensures forall k :: 1 <= k < |bytes| ==> IsContinuation(bytes[k])
  {
    var n := c as int;
    if n < 0x80 then [n]
    else if n < 0x800 then [0xC0 + n / 64, 0x80 + n % 64]
    else if n < 0x1_0000 then [0xE0 + n / 4096, 0x80 + (n / 64) % 64, 0x80 + n % 64]
    else [0xF0 + n / 262144, 0x80 + (n / 4096) % 64, 0x80 + (n / 64) % 64, 0x80 + n % 64]
  }

  /** `10xxxxxx`: a byte that continues a multi-byte sequence. */
  predicate IsContinuation(b: Byte) {
    0x80 <= b < 0xC0
  }

  /** A byte that may start a sequence: ASCII or `11xxxxxx` up to 0xF4. */
  predicate IsLead(b: Byte) {
    b < 0x80 || 0xC2 <= b <= 0xF4
  }

  /** `s.encode("utf-8")` */
  function Encode(s: string): seq<Byte>
    decreases |s|
  {
    if s == [] then [] else Encode(s[..|s| - 1]) + EncodeChar(s[|s| - 1])
  }

  lemma {:induction false} EncodeLength(s: string)
    ensures |Encode(s)| == Len(s)
    decreases |s|
  {
    if s != [] {
      EncodeLength(s[..|s| - 1]);
    }
  }

  lemma {:induction false} EncodeAppend(a: string, b: string)
    ensures Encode(a + b) == Encode(a) + Encode(b)
    decreases |b|
  {
    if b == [] {
      assert a + b == a;
    } else {
      var b' := b[..|b| - 1];
      assert (a + b)[..|a + b| - 1] == a + b';
      EncodeAppend(a, b');
    }
  }

  lemma LenAppend(a: string, b: string)
    ensures Len(a + b) == Len(a) + Len(b)
  {
    EncodeAppend(a, b);
    EncodeLength(a);
    EncodeLength(b);
    EncodeLength(a + b);
  }

  /** Every character takes one to four bytes. */
  lemma {:induction false} LenBounds(s: string)
    ensures |s| <= Len(s) <= 4 * |s|
    decreases |s|
  {
    if s != [] {
      LenBounds(s[..|s| - 1]);
    }
  }

  /** Byte offsets of character prefixes grow strictly with the character index. */
  lemma PrefixLenStrict(s: string, i: nat, j: nat)
    requires i < j <= |s|
    ensures Len(s[..i]) < Len(s[..j])
  {
    assert s[..j] == s[..i] + s[i..j];
    LenAppend(s[..i], s[i..j]);
    LenBounds(s[i..j]);
  }

  lemma PrefixLenMono(s: string, i: nat, j: nat)
    requires i <= j <= |s|
    ensures Len(s[..i]) <= Len(s[..j])
  {
    if i < j {
      PrefixLenStrict(s, i, j);
    }
  }

  /**
   * The byte offset of a character prefix is a character boundary of the
   * encoding: the byte there starts a sequence, it never continues one.
   */
  lemma PrefixOffsetIsBoundary(s: string, i: nat)
    requires i < |s|
    ensures Len(s[..i]) < |Encode(s)|
    ensures IsLead(Encode(s)[Len(s[..i])])
  {
    assert s == s[..i] + ([s[i]] + s[i + 1..]);
    EncodeAppend(s[..i], [s[i]] + s[i + 1..]);
    EncodeAppend([s[i]], s[i + 1..]);
    assert Encode([s[i]]) == EncodeChar(s[i]) by {
      assert [s[i]][..0] == [];
    }
    EncodeLength(s[..i]);
  }

  /**
   * The bytes between the offsets of two character prefixes are the encoding
   * of the characters between them.
   */
  lemma EncodeSlice(s: string, i: nat, j: nat)
    requires i <= j <= |s|
    ensures Len(s[..i]) <= Len(s[..j]) <= |Encode(s)|
    ensures Encode(s)[Len(s[..i])..Len(s[..j])] == Encode(s[i..j])
  {
    assert s == s[..i] + s[i..j] + s[j..];
    assert s[..j] == s[..i] + s[i..j];
    EncodeAppend(s[..i] + s[i..j], s[j..]);
    EncodeAppend(s[..i], s[i..j]);
    EncodeLength(s[..i]);
    EncodeLength(s[..j]);
  }
}

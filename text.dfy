/** Go strings as Dafny sees them: rune sequences (`string`), their UTF-8 bytes, and the
    prefix/suffix and ASCII vocabulary the text helpers are specified with. */
module Text {

  /** A Go `byte`. */
  newtype byte = x: int | 0 <= x < 0x100

  predicate IsPrefix<T(==)>(p: seq<T>, s: seq<T>) {
    |p| <= |s| && p == s[..|p|]
  }

  predicate IsSuffix<T(==)>(t: seq<T>, s: seq<T>) {
    |t| <= |s| && t == s[|s| - |t|..]
  }

  predicate IsAscii(s: string) {
    forall i :: 0 <= i < |s| ==> s[i] as int < 0x80
  }

  /** A UTF-8 continuation byte, 10xxxxxx: never the first byte of a rune. */
  predicate IsContinuation(b: byte) {
    0x80 <= b < 0xC0
  }

  /** The UTF-8 encoding of one rune. */
  function EncodeRune(c: char): (b: seq<byte>)
    ensures 1 <= |b| <= 4
    ensures (|b| == 1) == (c as int < 0x80) == (b[0] < 0x80)
    ensures |b| == 1 ==> b[0] as int == c as int
    ensures !IsContinuation(b[0])
    ensures forall i :: 1 <= i < |b| ==> IsContinuation(b[i])
  {
    var n := c as int;
    if n < 0x80 then
      [n as byte]
    else if n < 0x800 then
      [(0xC0 + n / 0x40) as byte, (0x80 + n % 0x40) as byte]
    else if n < 0x10000 then
      [(0xE0 + n / 0x1000) as byte, (0x80 + n / 0x40 % 0x40) as byte, (0x80 + n % 0x40) as byte]
    else
      [(0xF0 + n / 0x40000) as byte, (0x80 + n / 0x1000 % 0x40) as byte,
       (0x80 + n / 0x40 % 0x40) as byte, (0x80 + n % 0x40) as byte]
  }

  /** The bytes of a Go string whose runes are `s`. */
  function Utf8(s: string): (b: seq<byte>)
    ensures |b| >= |s|
  {
    if |s| == 0 then [] else EncodeRune(s[0]) + Utf8(s[1..])
  }

  /** Go's `len` on a string: its length in bytes. */
  function ByteLen(s: string): nat {
    |Utf8(s)|
  }

  lemma {:induction false} Utf8Append(a: string, b: string)
    ensures Utf8(a + b) == Utf8(a) + Utf8(b)
  {
    if |a| > 0 {
      assert (a + b)[0] == a[0];
      assert (a + b)[1..] == a[1..] + b;
      Utf8Append(a[1..], b);
    } else {
      assert a + b == b;
    }
  }

  /** On ASCII text there is one byte per rune. */
  lemma {:induction false} Utf8AsciiLength(s: string)
    ensures IsAscii(s) ==> |Utf8(s)| == |s|
  {
    if |s| > 0 && IsAscii(s) {
      assert IsAscii(s[1..]) by {
        forall i | 0 <= i < |s| - 1 ensures s[1..][i] as int < 0x80 {
          assert s[1..][i] == s[i + 1];
        }
      }
      Utf8AsciiLength(s[1..]);
    }
  }

  /** On ASCII text, cutting the bytes at offset `k` is cutting the runes there. */
  lemma Utf8AsciiSplit(s: string, k: nat)
    requires IsAscii(s) && k <= |s|
    ensures Utf8(s)[..k] == Utf8(s[..k])
    ensures Utf8(s)[k..] == Utf8(s[k..])
  {
    var p, q := s[..k], s[k..];
    assert IsAscii(p) by {
      forall i | 0 <= i < k ensures p[i] as int < 0x80 {
        assert p[i] == s[i];
      }
    }
    Utf8AsciiLength(p);
    assert s == p + q;
    Utf8Append(p, q);
    var bp, bq := Utf8(p), Utf8(q);
    assert Utf8(s) == bp + bq && |bp| == k;
    assert (bp + bq)[..k] == bp && (bp + bq)[k..] == bq;
  }

  /** A byte that follows only ASCII bytes in a UTF-8 encoding starts a rune. */
  lemma {:induction false} Utf8RuneStart(s: string, k: nat)
    requires k < |Utf8(s)|
    requires forall i :: 0 <= i < k ==> Utf8(s)[i] < 0x80
    ensures !IsContinuation(Utf8(s)[k])
  {
    var e := EncodeRune(s[0]);
    assert Utf8(s) == e + Utf8(s[1..]);
    if k > 0 {
      assert e[0] == Utf8(s)[0];
      assert |e| == 1;
      forall i | 0 <= i < k - 1 ensures Utf8(s[1..])[i] < 0x80 {
        assert Utf8(s[1..])[i] == Utf8(s)[i + 1];
      }
      Utf8RuneStart(s[1..], k - 1);
      assert Utf8(s)[k] == Utf8(s[1..])[k - 1];
    }
  }
}

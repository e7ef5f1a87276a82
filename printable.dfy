/** The byte classifiers `isBufferPrintable` and `makePrintable`. Both read a byte as the
    Latin-1 code point of the same value and classify it as Go's `unicode` package does for
    code points up to 0xFF. */
module Printable {
  import opened Text

  /** unicode.IsPrint: letters, marks, numbers, punctuation, symbols and the ASCII space.
      NBSP (0xA0) and the soft hyphen (0xAD) are not printable; C0, DEL and C1 are controls. */
  predicate IsPrint(b: byte) {
    (0x20 <= b <= 0x7E) || (0xA1 <= b && b != 0xAD)
  }

  /** unicode.IsSpace: '\t', '\n', '\v', '\f', '\r', ' ', NEL (0x85) and NBSP (0xA0). */
  predicate IsSpace(b: byte) {
    (0x09 <= b <= 0x0D) || b == 0x20 || b == 0x85 || b == 0xA0
  }

  /** The Latin-1 space separators (category Zs). */
  predicate IsSpaceSeparator(b: byte) {
    b == 0x20 || b == 0xA0
  }

  /** unicode.IsGraphic: printable or a space separator. */
  predicate IsGraphic(b: byte) {
    IsPrint(b) || IsSpaceSeparator(b)
  }

  /** The byte test of isBufferPrintable. */
  predicate IsPrintableByte(b: byte) {
    IsPrint(b) || IsSpace(b)
  }

  /** The byte test of makePrintable. */
  predicate IsLayoutByte(b: byte) {
    IsGraphic(b) || b == 0x09 || b == 0x0A
  }

  lemma PrintableByteRanges(b: byte)
    ensures IsPrintableByte(b) <==>
      (0x09 <= b <= 0x0D) || (0x20 <= b <= 0x7E) || b == 0x85 || (0xA0 <= b && b != 0xAD)
  {
  }

  lemma LayoutByteRanges(b: byte)
    ensures IsLayoutByte(b) <==>
      b == 0x09 || b == 0x0A || (0x20 <= b <= 0x7E) || (0xA0 <= b && b != 0xAD)
  {
  }

  /** The bytes the two classes treat apart: NBSP is a space and graphic but not printable,
      NEL is a space only, the soft hyphen is in neither class, and the vertical tab, form
      feed and carriage return are spaces that do not keep the layout. */
  lemma LatinOneClassFacts()
    ensures IsSpace(0xA0) && IsGraphic(0xA0) && !IsPrint(0xA0)
    ensures IsSpace(0x85) && !IsPrint(0x85) && !IsGraphic(0x85)
    ensures !IsPrint(0xAD) && !IsSpace(0xAD) && !IsGraphic(0xAD)
    ensures IsSpace(0x20) && IsPrint(0x20) && IsGraphic(0x20)
    ensures forall b: byte :: 0x0B <= b <= 0x0D ==> IsSpace(b) && !IsGraphic(b)
  {
  }

  /** What makePrintable keeps, isBufferPrintable accepts; it accepts four bytes more. */
  lemma LayoutWithinPrintable(b: byte)
    ensures IsLayoutByte(b) ==> IsPrintableByte(b)
    ensures IsPrintableByte(b) && !IsLayoutByte(b) <==> (0x0B <= b <= 0x0D || b == 0x85)
  {
  }

  // ---------------------------------------------------------------------------
  // isBufferPrintable

  predicate AllPrintable(buffer: seq<byte>) {
    forall i :: 0 <= i < |buffer| ==> IsPrintableByte(buffer[i])
  }

  method IsBufferPrintable(buffer: seq<byte>) returns (r: bool)
    ensures r == AllPrintable(buffer)
  {
    for i := 0 to |buffer|
      invariant forall k :: 0 <= k < i ==> IsPrintableByte(buffer[k])
    {
      if !IsPrint(buffer[i]) && !IsSpace(buffer[i]) {
        return false;
      }
    }
    return true;
  }

  /** The empty sample is printable, one with a NUL byte is not, and printable ASCII with
      tab, newline and carriage return is. */
  lemma AllPrintableExamples(buffer: seq<byte>)
    ensures AllPrintable([])
    ensures 0x00 in buffer ==> !AllPrintable(buffer)
    ensures (forall i :: 0 <= i < |buffer| ==>
               (0x20 <= buffer[i] <= 0x7E) || buffer[i] == 0x09 || buffer[i] == 0x0A || buffer[i] == 0x0D)
            ==> AllPrintable(buffer)
  {
  }

  /** The verdict on a sample is the conjunction of the verdicts on its parts. */
  lemma AllPrintableAppend(a: seq<byte>, b: seq<byte>)
    ensures AllPrintable(a + b) <==> AllPrintable(a) && AllPrintable(b)
  {
    if AllPrintable(a) && AllPrintable(b) {
      forall i | 0 <= i < |a + b| ensures IsPrintableByte((a + b)[i]) {
        if i >= |a| {
          assert (a + b)[i] == b[i - |a|];
        }
      }
    }
    if AllPrintable(a + b) {
      forall i | 0 <= i < |a| ensures IsPrintableByte(a[i]) {
        assert (a + b)[i] == a[i];
      }
      forall i | 0 <= i < |b| ensures IsPrintableByte(b[i]) {
        assert (a + b)[|a| + i] == b[i];
      }
    }
  }

  // ---------------------------------------------------------------------------
  // makePrintable

  /** What makePrintable returns: the layout bytes of `line`, in order. */
  function KeepLayout(line: seq<byte>): (r: seq<byte>)
    ensures |r| <= |line|
    ensures forall i :: 0 <= i < |r| ==> IsLayoutByte(r[i])
  {
    if |line| == 0 then []
    else
      var last := line[|line| - 1];
      KeepLayout(line[..|line| - 1]) + (if IsLayoutByte(last) then [last] else [])
  }

  method MakePrintable(line: seq<byte>) returns (r: seq<byte>)
    ensures r == KeepLayout(line)
  {
    var sb: seq<byte> := [];
    for i := 0 to |line|
      invariant sb == KeepLayout(line[..i])
    {
      assert line[..i + 1][..i] == line[..i];
      if IsGraphic(line[i]) || line[i] == 0x09 || line[i] == 0x0A {
        sb := sb + [line[i]];
      }
    }
    assert line[..|line|] == line;
    return sb;
  }

  /** The positions of the layout bytes of `line`, in increasing order. */
  function LayoutPositions(line: seq<byte>): (idx: seq<nat>)
    ensures forall k :: 0 <= k < |idx| ==> idx[k] < |line| && IsLayoutByte(line[idx[k]])
    ensures forall k, l :: 0 <= k < l < |idx| ==> idx[k] < idx[l]
    ensures forall i :: 0 <= i < |line| && IsLayoutByte(line[i]) ==> i in idx
  {
    if |line| == 0 then []
    else
      var n := |line| - 1;
      var init := LayoutPositions(line[..n]);
      assert forall k :: 0 <= k < |init| ==> line[..n][init[k]] == line[init[k]];
      init + (if IsLayoutByte(line[n]) then [n] else [])
  }

  /** makePrintable keeps exactly the layout bytes, in order: its k-th output byte is the
      input byte at the k-th layout position. */
  lemma {:induction false} KeepLayoutSelects(line: seq<byte>)
    ensures |KeepLayout(line)| == |LayoutPositions(line)|
    ensures forall k :: 0 <= k < |KeepLayout(line)| ==>
      KeepLayout(line)[k] == line[LayoutPositions(line)[k]]
  {
    if |line| > 0 {
      var n := |line| - 1;
      KeepLayoutSelects(line[..n]);
      var idx := LayoutPositions(line[..n]);
      forall k | 0 <= k < |idx| ensures line[..n][idx[k]] == line[idx[k]] {
      }
    }
  }

  /** Every layout byte occurs as often in the output as in the input. */
  lemma {:induction false} KeepLayoutCounts(line: seq<byte>, b: byte)
    requires IsLayoutByte(b)
    ensures multiset(KeepLayout(line))[b] == multiset(line)[b]
  {
    if |line| > 0 {
      var n := |line| - 1;
      var init, last := line[..n], line[n];
      KeepLayoutCounts(init, b);
      assert line == init + [last];
      assert multiset(line) == multiset(init) + multiset([last]);
      var kept := if IsLayoutByte(last) then [last] else [];
      assert multiset(KeepLayout(line)) == multiset(KeepLayout(init)) + multiset(kept);
    }
  }

  /** A line made only of layout bytes comes back unchanged. */
  lemma {:induction false} KeepLayoutIdentity(line: seq<byte>)
    requires forall i :: 0 <= i < |line| ==> IsLayoutByte(line[i])
    ensures KeepLayout(line) == line
  {
    if |line| > 0 {
      var n := |line| - 1;
      KeepLayoutIdentity(line[..n]);
      assert line == line[..n] + [line[n]];
    }
  }

  lemma KeepLayoutIdempotent(line: seq<byte>)
    ensures KeepLayout(KeepLayout(line)) == KeepLayout(line)
  {
    KeepLayoutIdentity(KeepLayout(line));
  }

  /** What makePrintable keeps passes isBufferPrintable. */
  lemma KeepLayoutIsPrintable(line: seq<byte>)
    ensures AllPrintable(KeepLayout(line))
  {
  }

  lemma KeepLayoutSnoc(line: seq<byte>, b: byte)
    ensures KeepLayout(line + [b]) == KeepLayout(line) + (if IsLayoutByte(b) then [b] else [])
  {
    assert (line + [b])[..|line|] == line;
  }

  /** The bell goes, tab and newline stay. */
  lemma KeepLayoutKeepsTabAndNewline(line: seq<byte>)
    ensures 0x07 !in KeepLayout(line)
    ensures multiset(KeepLayout(line))[0x09] == multiset(line)[0x09]
    ensures multiset(KeepLayout(line))[0x0A] == multiset(line)[0x0A]
  {
    KeepLayoutCounts(line, 0x09);
    KeepLayoutCounts(line, 0x0A);
  }

  /** The bell between a tab and a newline goes. */
  lemma KeepLayoutExample()
    ensures KeepLayout([0x09, 0x07, 0x0A]) == [0x09, 0x0A]
  {
    var s: seq<byte> := [0x09, 0x07, 0x0A];
    assert s[..2] == [0x09, 0x07] && s[..2][..1] == [0x09] && s[..2][..1][..0] == [];
  }
}

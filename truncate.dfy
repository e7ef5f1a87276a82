/** The three name truncators: at the end (`truncateText`), at the start
    (`truncateTextBeginning`) and in the middle (`truncateMiddleText`). */
module Truncate {
  import opened Text
  import opened Ansi

  /** A result, or the run-time panic Go raises for a slice index out of range. */
  datatype Outcome<T> = Ok(value: T) | Panic

  /** Go's `/` on `int`, which truncates toward zero (Dafny's is Euclidean). */
  function GoQuo(a: int, b: int): (q: int)
    requires b > 0
    ensures a >= 0 ==> 0 <= a - b * q < b
    ensures a < 0 ==> -b < a - b * q <= 0
  {
    if a >= 0 then a / b else -((-a) / b)
  }

  // ---------------------------------------------------------------------------
  // truncateText: cut at the end, append the marker

  /** The text itself, or the library's cut at `maxChars - len(talis)` followed by the marker. */
  function TruncateText(o: Oracle, text: string, maxChars: int, talis: string): (r: string)
    ensures r == text || (IsSuffix(talis, r) && r[..|r| - |talis|] == o.truncate(text, maxChars - ByteLen(talis)))
  {
    var truncatedText := o.truncate(text, maxChars - ByteLen(talis));
    if text != truncatedText then truncatedText + talis else text
  }

  /** Text that fits the budget left after the marker comes back as it is, without marker. */
  lemma TruncateTextUnchanged(o: Oracle, text: string, maxChars: int, talis: string)
    requires Lawful(o)
    requires 0 <= maxChars - ByteLen(talis)
    requires o.width(text) <= maxChars - ByteLen(talis)
    ensures TruncateText(o, text, maxChars, talis) == text
  {
  }

  /** Text wider than that budget is cut to a strict prefix that fits it, and the marker is
      appended. This also happens when the text would fit `maxChars` itself. */
  lemma TruncateTextCut(o: Oracle, text: string, maxChars: int, talis: string)
    requires Lawful(o)
    requires 0 <= maxChars - ByteLen(talis) < o.width(text)
    ensures var cut := o.truncate(text, maxChars - ByteLen(talis));
      && TruncateText(o, text, maxChars, talis) == cut + talis
      && IsPrefix(cut, text) && |cut| < |text|
      && o.width(cut) <= maxChars - ByteLen(talis)
  {
    var cut := o.truncate(text, maxChars - ByteLen(talis));
    assert cut != text;
  }

  /** With an ASCII marker and a budget that leaves room for it, the result fits `maxChars`. */
  lemma TruncateTextFits(o: Oracle, text: string, maxChars: int, talis: string)
    requires Lawful(o) && IsAscii(talis)
    requires 0 <= maxChars - ByteLen(talis)
    ensures o.width(TruncateText(o, text, maxChars, talis)) <= maxChars
  {
    var n := maxChars - ByteLen(talis);
    var cut := o.truncate(text, n);
    Utf8AsciiLength(talis);
    assert o.width(cut + talis) <= o.width(cut) + |talis|;
  }

  /** Concretely: a five-cell name in a five-cell budget loses two cells to the marker. */
  lemma TruncateTextCutsFittingText()
    ensures PlainOracle().width("abcde") == 5
    ensures TruncateText(PlainOracle(), "abcde", 5, "...") == "ab..."
  {
    assert ByteLen("...") == 3;
    assert "abcde"[..2] == "ab";
  }

  // ---------------------------------------------------------------------------
  // truncateTextBeginning: drop leading runes until the rest fits, overlay the marker

  /** The loop of truncateTextBeginning: drop the first rune while the rest is too wide.
      Slicing `[1:]` off an empty rune slice panics. */
  function DropToFit(o: Oracle, runes: string, maxChars: int): (r: Outcome<string>)
    ensures r.Ok? ==> IsSuffix(r.value, runes) && o.width(r.value) <= maxChars
    decreases |runes|
  {
    if o.width(runes) <= maxChars then Ok(runes)
    else if |runes| == 0 then Panic
    else DropToFit(o, runes[1..], maxChars)
  }

  /** `append([]rune(talis), runes[len(talis):]...)` when `len(runes) > len(talis)`; note that
      `len(talis)` counts bytes while `runes` is indexed by rune. */
  function Overlay(runes: string, talis: string): (r: string)
    ensures |r| <= |runes|
    ensures IsAscii(talis) ==> |r| == |runes|
    ensures |runes| > ByteLen(talis) ==> IsPrefix(talis, r) && IsSuffix(runes[ByteLen(talis)..], r)
    ensures |runes| <= ByteLen(talis) ==> r == runes
  {
    Utf8AsciiLength(talis);
    if |runes| > ByteLen(talis) then talis + runes[ByteLen(talis)..] else runes
  }

  /** What truncateTextBeginning returns. */
  function TruncateStart(o: Oracle, text: string, maxChars: int, talis: string): Outcome<string> {
    if o.width(text) <= maxChars then Ok(text)
    else match DropToFit(o, text, maxChars)
      case Panic => Panic
      case Ok(rest) => Ok(Overlay(rest, talis))
  }

  method TruncateTextBeginning(o: Oracle, text: string, maxChars: int, talis: string)
    returns (r: Outcome<string>)
    ensures r == TruncateStart(o, text, maxChars, talis)
  {
    if o.width(text) <= maxChars {
      return Ok(text);
    }
    var truncatedRunes := text;
    var truncatedWidth := o.width(truncatedRunes);
    while truncatedWidth > maxChars
      invariant truncatedWidth == o.width(truncatedRunes)
      invariant DropToFit(o, truncatedRunes, maxChars) == DropToFit(o, text, maxChars)
      decreases |truncatedRunes|
    {
      if |truncatedRunes| == 0 {
        return Panic;
      }
      truncatedRunes := truncatedRunes[1..];
      truncatedWidth := o.width(truncatedRunes);
    }
    if |truncatedRunes| > ByteLen(talis) {
      truncatedRunes := talis + truncatedRunes[ByteLen(talis)..];
    }
    return Ok(truncatedRunes);
  }

  /** With a width of 0 for the empty string and a budget of at least 0 the loop stops, at
      the LONGEST suffix that fits: every longer suffix is too wide. */
  lemma {:induction false} DropToFitLongest(o: Oracle, runes: string, maxChars: int)
    requires o.width([]) == 0 && 0 <= maxChars
    ensures DropToFit(o, runes, maxChars).Ok?
    ensures var rest := DropToFit(o, runes, maxChars).value;
      forall j :: 0 <= j < |runes| - |rest| ==> o.width(runes[j..]) > maxChars
    decreases |runes|
  {
    if o.width(runes) > maxChars {
      assert |runes| > 0;
      DropToFitLongest(o, runes[1..], maxChars);
      var rest := DropToFit(o, runes, maxChars).value;
      forall j | 0 <= j < |runes| - |rest| ensures o.width(runes[j..]) > maxChars {
        if j > 0 {
          assert runes[j..] == runes[1..][j - 1..];
        }
      }
    }
  }

  /** A negative budget can never be met (widths are not negative): the loop drains the
      rune slice and panics. */
  lemma {:induction false} DropToFitNegative(o: Oracle, runes: string, maxChars: int)
    requires maxChars < 0
    ensures DropToFit(o, runes, maxChars) == Panic
    decreases |runes|
  {
    if |runes| > 0 {
      DropToFitNegative(o, runes[1..], maxChars);
    }
  }

  /** truncateTextBeginning panics exactly when the budget is negative. */
  lemma TruncateStartPanics(o: Oracle, text: string, maxChars: int, talis: string)
    requires Lawful(o)
    ensures TruncateStart(o, text, maxChars, talis).Panic? <==> maxChars < 0
  {
    if maxChars < 0 {
      DropToFitNegative(o, text, maxChars);
    } else {
      DropToFitLongest(o, text, maxChars);
    }
  }

  /** Text that fits comes back unchanged. */
  lemma TruncateStartUnchanged(o: Oracle, text: string, maxChars: int, talis: string)
    requires o.width(text) <= maxChars
    ensures TruncateStart(o, text, maxChars, talis) == Ok(text)
  {
  }

  /** Text that does not fit is cut to its longest strict suffix that fits, whose first
      `len(talis)` runes the marker then replaces, if it is longer than that. */
  lemma TruncateStartCut(o: Oracle, text: string, maxChars: int, talis: string)
    requires Lawful(o)
    requires 0 <= maxChars < o.width(text)
    ensures DropToFit(o, text, maxChars).Ok?
    ensures var rest := DropToFit(o, text, maxChars).value;
      && TruncateStart(o, text, maxChars, talis) == Ok(Overlay(rest, talis))
      && IsSuffix(rest, text) && |rest| < |text|
      && o.width(rest) <= maxChars
      && forall j :: 0 <= j < |text| - |rest| ==> o.width(text[j..]) > maxChars
  {
    DropToFitLongest(o, text, maxChars);
  }

  /** The drop loop on the input below: one rune goes, and the three accents and "ab" fit. */
  lemma DropToFitAccents()
    ensures MarkCells("x\U{301}\U{301}\U{301}ab") == 3
    ensures DropToFit(MarkOracle(), "x\U{301}\U{301}\U{301}ab", 2) == Ok("\U{301}\U{301}\U{301}ab")
  {
    var o, text := MarkOracle(), "x\U{301}\U{301}\U{301}ab";
    var rest := text[1..];
    assert rest == "\U{301}\U{301}\U{301}ab";
    assert MarkCells(rest) == 2 by {
      MarkCellsAppend("\U{301}\U{301}\U{301}", "ab");
      assert rest == "\U{301}\U{301}\U{301}" + "ab";
    }
    assert MarkCells(text) == 3 by {
      MarkCellsAppend("x", rest);
      assert text == "x" + rest;
    }
    assert DropToFit(o, text, 2) == DropToFit(o, rest, 2) == Ok(rest);
  }

  /** The overlay can push the result over the budget: here the marker replaces three
      combining accents, which take no cell, so the result is 5 cells wide for a budget of 2. */
  lemma TruncateStartExceedsBudget()
    ensures Lawful(MarkOracle())
    ensures TruncateStart(MarkOracle(), "x\U{301}\U{301}\U{301}ab", 2, "...") == Ok("...ab")
    ensures MarkOracle().width("...ab") == 5
  {
    DropToFitAccents();
    OverlayAccents();
  }

  lemma OverlayAccents()
    ensures Overlay("\U{301}\U{301}\U{301}ab", "...") == "...ab"
    ensures MarkCells("...ab") == 5
  {
    assert IsAscii("...ab");
    MarkCellsAscii("...ab");
    var rest := "\U{301}\U{301}\U{301}ab";
    assert ByteLen("...") == 3;
    assert "..." + rest[3..] == "...ab";
  }

  /** truncateTextBeginning keeping its budget: the marker goes in front of the longest
      suffix that fits what the marker leaves of the budget, and when the marker does not fit
      at all only the longest suffix that fits is kept. A negative budget still panics. */
  function TruncateStartFitted(o: Oracle, text: string, maxChars: int, talis: string): Outcome<string> {
    if o.width(text) <= maxChars then Ok(text)
    else if maxChars < ByteLen(talis) then DropToFit(o, text, maxChars)
    else match DropToFit(o, text, maxChars - ByteLen(talis))
      case Panic => Panic
      case Ok(rest) => Ok(talis + rest)
  }

  /** With an ASCII marker and a budget of at least 0 the corrected truncator returns the
      text, a suffix of it, or the marker before a suffix of it, and never exceeds the budget. */
  lemma TruncateStartFittedFits(o: Oracle, text: string, maxChars: int, talis: string)
    requires Lawful(o) && IsAscii(talis) && 0 <= maxChars
    ensures TruncateStartFitted(o, text, maxChars, talis).Ok?
    ensures var r := TruncateStartFitted(o, text, maxChars, talis).value;
      && o.width(r) <= maxChars
      && (IsSuffix(r, text) || (IsPrefix(talis, r) && IsSuffix(r[|talis|..], text)))
  {
    Utf8AsciiLength(talis);
    if o.width(text) > maxChars {
      if maxChars < ByteLen(talis) {
        DropToFitLongest(o, text, maxChars);
      } else {
        DropToFitLongest(o, text, maxChars - ByteLen(talis));
        var rest := DropToFit(o, text, maxChars - ByteLen(talis)).value;
        assert o.width(talis + rest) <= |talis| + o.width(rest);
        assert (talis + rest)[|talis|..] == rest;
      }
    }
  }

  /** On the input above the corrected truncator keeps the accents and "ab", 2 cells. */
  lemma TruncateStartFittedExample()
    ensures TruncateStartFitted(MarkOracle(), "x\U{301}\U{301}\U{301}ab", 2, "...")
      == Ok("\U{301}\U{301}\U{301}ab")
  {
    DropToFitAccents();
    assert ByteLen("...") == 3;
  }

  // ---------------------------------------------------------------------------
  // truncateMiddleText: keep equal head and tail, marker in between

  /** truncateMiddleText as written, on the UTF-8 bytes of `text`: the half length is
      computed from a RUNE count (`utf8.RuneCountInString`, which is `|text|` for a string
      of runes), but `text[:h]` and `text[n-h:]` slice BYTES. */
  function TruncateMiddleTextAsWritten(text: string, maxChars: int, talis: string)
    : (r: Outcome<seq<byte>>)
    ensures r.Panic? <==> maxChars < |text| && maxChars < 2
  {
    var bytes := Utf8(text);
    var runeCount := |text|;
    if runeCount <= maxChars then Ok(bytes)
    else
      var h := GoQuo(maxChars - 3, 2);
      if h < 0 then Panic
      else Ok(bytes[..h] + Utf8(talis) + bytes[runeCount - h..])
  }

  /** truncateMiddleText with head and tail taken by rune, as its byte slicing evidently
      intends; otherwise the same, including the panic for a budget below 2. */
  function TruncateMiddleText(text: string, maxChars: int, talis: string): (r: Outcome<string>)
    ensures r.Panic? <==> maxChars < |text| && maxChars < 2
  {
    if |text| <= maxChars then Ok(text)
    else
      var h := GoQuo(maxChars - 3, 2);
      if h < 0 then Panic
      else Ok(text[..h] + talis + text[|text| - h..])
  }

  /** Text within the budget comes back unchanged. */
  lemma TruncateMiddleTextUnchanged(text: string, maxChars: int, talis: string)
    requires |text| <= maxChars
    ensures TruncateMiddleText(text, maxChars, talis) == Ok(text)
    ensures TruncateMiddleTextAsWritten(text, maxChars, talis) == Ok(Utf8(text))
  {
  }

  /** Longer text keeps a head and a tail of the same length `h`, the largest for which
      head, a three-rune marker and tail fit the budget; with a three-rune marker the
      result fits it, and at least four runes of the middle are gone. */
  lemma TruncateMiddleTextCut(text: string, maxChars: int, talis: string)
    requires 3 <= maxChars < |text|
    ensures var h := (maxChars - 3) / 2;
      && TruncateMiddleText(text, maxChars, talis) == Ok(text[..h] + talis + text[|text| - h..])
      && 2 * h + 3 <= maxChars < 2 * (h + 1) + 3
      && h + 4 <= |text| - h
      && (|talis| == 3 ==> |TruncateMiddleText(text, maxChars, talis).value| <= maxChars)
  {
  }

  /** A budget of exactly 2 rounds the half length to 0 and leaves only the marker, which
      with three runes is over the budget. */
  lemma TruncateMiddleTextBudgetTwo(text: string, talis: string)
    requires 2 < |text|
    ensures TruncateMiddleText(text, 2, talis) == Ok(talis)
  {
    assert GoQuo(2 - 3, 2) == 0;
    assert text[..0] + talis + text[|text| - 0..] == talis;
  }

  lemma TruncateMiddleTextExample()
    ensures TruncateMiddleText("abcdefghij", 7, "...") == Ok("ab...ij")
  {
    var t := "abcdefghij";
    assert GoQuo(7 - 3, 2) == 2;
    assert t[..2] + "..." + t[|t| - 2..] == "ab...ij";
  }

  /** On ASCII text rune offsets are byte offsets, and the code as written computes the
      UTF-8 bytes of the rune-wise result. */
  lemma TruncateMiddleTextAsciiAgrees(text: string, maxChars: int, talis: string)
    requires IsAscii(text)
    ensures match TruncateMiddleText(text, maxChars, talis)
      case Panic => TruncateMiddleTextAsWritten(text, maxChars, talis) == Panic
      case Ok(v) => TruncateMiddleTextAsWritten(text, maxChars, talis) == Ok(Utf8(v))
  {
    if maxChars < |text| && maxChars >= 2 {
      var h := GoQuo(maxChars - 3, 2);
      var n := |text|;
      var head, tail := text[..h], text[n - h..];
      Utf8AsciiSplit(text, h);
      Utf8AsciiSplit(text, n - h);
      Utf8Append(head, talis);
      Utf8Append(head + talis, tail);
    }
  }

  /** Five two-byte runes in a budget of 4: the half length is 0, so the tail should be
      empty, but `text[5:]` starts inside the third rune. The result holds five bytes after
      the marker and is not the UTF-8 encoding of any rune sequence. */
  lemma TruncateMiddleTextAsWrittenSplitsRune()
    ensures Utf8("\U{E9}\U{E9}\U{E9}\U{E9}\U{E9}")
      == [0xC3, 0xA9, 0xC3, 0xA9, 0xC3, 0xA9, 0xC3, 0xA9, 0xC3, 0xA9]
    ensures TruncateMiddleTextAsWritten("\U{E9}\U{E9}\U{E9}\U{E9}\U{E9}", 4, "...")
      == Ok([0x2E, 0x2E, 0x2E, 0xA9, 0xC3, 0xA9, 0xC3, 0xA9])
    ensures forall s: string :: Utf8(s) != [0x2E, 0x2E, 0x2E, 0xA9, 0xC3, 0xA9, 0xC3, 0xA9]
    ensures TruncateMiddleText("\U{E9}\U{E9}\U{E9}\U{E9}\U{E9}", 4, "...") == Ok("...")
  {
    var e: string := "\U{E9}\U{E9}\U{E9}\U{E9}\U{E9}";
    var bad: seq<byte> := [0x2E, 0x2E, 0x2E, 0xA9, 0xC3, 0xA9, 0xC3, 0xA9];
    assert EncodeRune('\U{E9}') == [0xC3, 0xA9];
    assert Utf8("...") == [0x2E, 0x2E, 0x2E];
    assert Utf8(e) == [0xC3, 0xA9, 0xC3, 0xA9, 0xC3, 0xA9, 0xC3, 0xA9, 0xC3, 0xA9];
    assert GoQuo(4 - 3, 2) == 0;
    assert Utf8(e)[..0] == [] && Utf8(e)[5..] == [0xA9, 0xC3, 0xA9, 0xC3, 0xA9];
    assert e[..0] + "..." + e[|e| - 0..] == "...";
    assert Utf8(e)[..0] + Utf8("...") + Utf8(e)[|e| - 0..] == bad;
    forall s: string ensures Utf8(s) != bad {
      if Utf8(s) == bad {
        Utf8RuneStart(s, 3);
      }
    }
  }
}

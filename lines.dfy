/** `checkAndTruncateLineLengths`: clamp every line of a text block to a width, with tabs
    expanded to four spaces and the trailing newlines removed. */
module Lines {
  import opened Text
  import opened Ansi

  /** strings.Split(s, "\n"): the pieces between newlines, always at least one. */
  function Split(s: string): (lines: seq<string>)
    ensures |lines| >= 1
    ensures forall i :: 0 <= i < |lines| ==> '\n' !in lines[i]
  {
    if |s| == 0 then [""]
    else
      var rest := Split(s[1..]);
      if s[0] == '\n' then [""] + rest
      else [[s[0]] + rest[0]] + rest[1..]
  }

  /** strings.Join(lines, "\n"). */
  function Join(lines: seq<string>): string {
    if |lines| == 0 then ""
    else if |lines| == 1 then lines[0]
    else lines[0] + "\n" + Join(lines[1..])
  }

  /** Joining the pieces gives back the text. */
  lemma {:induction false} JoinSplit(s: string)
    ensures Join(Split(s)) == s
  {
    if |s| > 0 {
      var rest := Split(s[1..]);
      JoinSplit(s[1..]);
      if s[0] == '\n' {
        assert ([""] + rest)[1..] == rest;
      } else if |rest| > 1 {
        assert ([[s[0]] + rest[0]] + rest[1..])[1..] == rest[1..];
      }
    }
  }

  /** Splitting a piece without newline in front of more text. */
  lemma {:induction false} SplitPrepend(a: string, tail: string)
    requires '\n' !in a
    ensures Split(a + tail) == [a + Split(tail)[0]] + Split(tail)[1..]
  {
    if |a| > 0 {
      var st := Split(tail);
      assert (a + tail)[0] == a[0] && a[0] != '\n';
      assert (a + tail)[1..] == a[1..] + tail;
      SplitPrepend(a[1..], tail);
      var rest := Split(a[1..] + tail);
      assert rest == [a[1..] + st[0]] + st[1..];
      assert rest[0] == a[1..] + st[0] && rest[1..] == st[1..];
      assert [a[0]] + (a[1..] + st[0]) == a + st[0];
    } else {
      var st := Split(tail);
      assert a + tail == tail;
      assert a + st[0] == st[0];
      assert st == [st[0]] + st[1..];
    }
  }

  /** Splitting the joined lines gives back the lines, when none holds a newline. */
  lemma {:induction false} SplitJoin(lines: seq<string>)
    requires |lines| >= 1
    requires forall i :: 0 <= i < |lines| ==> '\n' !in lines[i]
    ensures Split(Join(lines)) == lines
  {
    if |lines| == 1 {
      SplitPrepend(lines[0], "");
      assert lines[0] + "" == lines[0];
    } else {
      var b := Join(lines[1..]);
      SplitJoin(lines[1..]);
      SplitPrepend(lines[0], "\n" + b);
      assert lines[0] + "\n" + b == lines[0] + ("\n" + b);
      assert ("\n" + b)[0] == '\n' && ("\n" + b)[1..] == b;
      assert Split("\n" + b) == [""] + lines[1..];
      assert lines[0] + "" == lines[0];
    }
  }

  lemma {:induction false} JoinSnoc(lines: seq<string>, x: string)
    requires |lines| >= 1
    ensures Join(lines + [x]) == Join(lines) + "\n" + x
  {
    if |lines| == 1 {
      assert (lines + [x])[1..] == [x];
    } else {
      assert (lines + [x])[1..] == lines[1..] + [x];
      JoinSnoc(lines[1..], x);
    }
  }

  lemma {:induction false} JoinAvoids(lines: seq<string>, c: char)
    requires c != '\n'
    requires forall i :: 0 <= i < |lines| ==> c !in lines[i]
    ensures c !in Join(lines)
  {
    if |lines| > 1 {
      JoinAvoids(lines[1..], c);
    }
  }

  /** strings.ReplaceAll(line, "\t", "    "). */
  function ExpandTabs(line: string): (r: string)
    ensures '\t' !in r
    ensures '\n' !in line ==> '\n' !in r
    ensures '\t' !in line ==> r == line
  {
    if |line| == 0 then ""
    else (if line[0] == '\t' then "    " else [line[0]]) + ExpandTabs(line[1..])
  }

  /** Each tab becomes four spaces: three more characters, four more spaces. */
  lemma {:induction false} ExpandTabsCounts(line: string)
    ensures |ExpandTabs(line)| == |line| + 3 * multiset(line)['\t']
    ensures multiset(ExpandTabs(line))[' '] == multiset(line)[' '] + 4 * multiset(line)['\t']
  {
    if |line| > 0 {
      assert line == [line[0]] + line[1..];
      ExpandTabsCounts(line[1..]);
    }
  }

  /** The expansion works character by character: it distributes over concatenation. */
  lemma {:induction false} ExpandTabsAppend(a: string, b: string)
    ensures ExpandTabs(a + b) == ExpandTabs(a) + ExpandTabs(b)
  {
    if |a| == 0 {
      assert a + b == b;
    } else {
      assert (a + b)[0] == a[0] && (a + b)[1..] == a[1..] + b;
      ExpandTabsAppend(a[1..], b);
    }
  }

  /** strings.TrimRight(s, "\n"): the longest prefix that does not end in a newline. */
  function TrimTrailingNewlines(s: string): (r: string)
    ensures IsPrefix(r, s)
    ensures |r| == 0 || r[|r| - 1] != '\n'
    ensures forall i :: |r| <= i < |s| ==> s[i] == '\n'
  {
    if |s| > 0 && s[|s| - 1] == '\n' then TrimTrailingNewlines(s[..|s| - 1]) else s
  }

  /** The lines with their trailing empty ones dropped. */
  function StripTrailingEmpty(lines: seq<string>): (r: seq<string>)
    ensures IsPrefix(r, lines)
    ensures |r| == 0 || r[|r| - 1] != ""
    ensures forall i :: |r| <= i < |lines| ==> lines[i] == ""
  {
    if |lines| > 0 && lines[|lines| - 1] == "" then StripTrailingEmpty(lines[..|lines| - 1])
    else lines
  }

  /** Each line with tabs expanded and cut by the width library. */
  function ClampEach(o: Oracle, lines: seq<string>, maxLength: int): (r: seq<string>)
    ensures |r| == |lines|
  {
    seq(|lines|, i requires 0 <= i < |lines| => o.truncate(ExpandTabs(lines[i]), maxLength))
  }

  /** What the builder holds after the loop: every line followed by a newline. */
  function Terminated(lines: seq<string>): string {
    if |lines| == 0 then "" else Join(lines) + "\n"
  }

  /** What checkAndTruncateLineLengths returns. */
  function ClampLines(o: Oracle, text: string, maxLength: int): string {
    TrimTrailingNewlines(Terminated(ClampEach(o, Split(text), maxLength)))
  }

  method CheckAndTruncateLineLengths(o: Oracle, text: string, maxLength: int)
    returns (finalResult: string)
    ensures finalResult == ClampLines(o, text, maxLength)
    ensures |finalResult| == 0 || finalResult[|finalResult| - 1] != '\n'
  {
    var lines := Split(text);
    var result := "";
    for i := 0 to |lines|
      invariant result == Terminated(ClampEach(o, lines[..i], maxLength))
    {
      var expandedLine := ExpandTabs(lines[i]);
      var truncatedLine := o.truncate(expandedLine, maxLength);
      assert ClampEach(o, lines[..i + 1], maxLength)
        == ClampEach(o, lines[..i], maxLength) + [truncatedLine];
      if i > 0 {
        JoinSnoc(ClampEach(o, lines[..i], maxLength), truncatedLine);
      }
      result := result + truncatedLine + "\n";
    }
    assert lines[..|lines|] == lines;
    finalResult := TrimTrailingNewlines(result);
  }

  /** Trimming the newlines off the terminated lines joins them without their trailing
      empty lines. */
  lemma {:induction false} TrimTerminated(lines: seq<string>)
    requires forall i :: 0 <= i < |lines| ==> '\n' !in lines[i]
    ensures TrimTrailingNewlines(Terminated(lines)) == Join(StripTrailingEmpty(lines))
    decreases |lines|
  {
    var n := |lines|;
    if n > 0 {
      var init, x := lines[..n - 1], lines[n - 1];
      assert lines == init + [x];
      var t := Terminated(lines);
      assert t[..|t| - 1] == Join(lines);
      if n > 1 {
        JoinSnoc(init, x);
      }
      if x == "" {
        TrimTerminated(init);
        if n > 1 {
          assert Join(lines) == Terminated(init);
        }
      } else {
        assert Join(lines)[|Join(lines)| - 1] == x[|x| - 1];
      }
    }
  }

  lemma PrefixAvoids(p: string, s: string, c: char)
    requires IsPrefix(p, s) && c !in s
    ensures c !in p
  {
    forall k | 0 <= k < |p| ensures p[k] != c {
      assert p[k] == s[k];
    }
  }

  /** For a lawful library and a budget of at least 0 each clamped line is a prefix of the
      tab-expanded line that fits the width, so it holds neither tab nor newline. */
  lemma ClampEachClean(o: Oracle, lines: seq<string>, maxLength: int)
    requires Lawful(o) && 0 <= maxLength
    requires forall i :: 0 <= i < |lines| ==> '\n' !in lines[i]
    ensures var cl := ClampEach(o, lines, maxLength);
      forall i :: 0 <= i < |cl| ==>
        && IsPrefix(cl[i], ExpandTabs(lines[i]))
        && o.width(cl[i]) <= maxLength
        && '\n' !in cl[i] && '\t' !in cl[i]
  {
    var cl := ClampEach(o, lines, maxLength);
    forall i | 0 <= i < |cl|
      ensures IsPrefix(cl[i], ExpandTabs(lines[i])) && '\n' !in cl[i] && '\t' !in cl[i]
    {
      var e := ExpandTabs(lines[i]);
      assert cl[i] == o.truncate(e, maxLength);
      PrefixAvoids(cl[i], e, '\n');
      PrefixAvoids(cl[i], e, '\t');
    }
  }

  /** Lines without tab that fit the width are their own clamp. */
  lemma ClampEachFixed(o: Oracle, lines: seq<string>, maxLength: int)
    requires Lawful(o) && 0 <= maxLength
    requires forall i :: 0 <= i < |lines| ==> '\t' !in lines[i] && o.width(lines[i]) <= maxLength
    ensures ClampEach(o, lines, maxLength) == lines
  {
    forall i | 0 <= i < |lines| ensures ClampEach(o, lines, maxLength)[i] == lines[i] {
      assert ExpandTabs(lines[i]) == lines[i];
    }
  }

  lemma ClampLinesEmpty(o: Oracle, maxLength: int)
    requires Lawful(o) && 0 <= maxLength
    ensures ClampLines(o, "", maxLength) == ""
  {
    assert Split("") == [""] && ExpandTabs("") == "" && o.truncate("", maxLength) == "";
    assert ClampEach(o, Split(""), maxLength) == [""];
    assert Terminated([""]) == "\n";
    assert "\n"[..0] == "";
  }

  /** Joined lines without tab or newline that fit the width and do not end in an empty
      line are their own clamp. */
  lemma ClampLinesOfClamped(o: Oracle, out: seq<string>, maxLength: int)
    requires Lawful(o) && 0 <= maxLength
    requires |out| > 0 && out[|out| - 1] != ""
    requires forall i :: 0 <= i < |out| ==>
      '\t' !in out[i] && '\n' !in out[i] && o.width(out[i]) <= maxLength
    ensures ClampLines(o, Join(out), maxLength) == Join(out)
  {
    SplitJoin(out);
    ClampEachFixed(o, out, maxLength);
    TrimTerminated(out);
  }

  /** For a lawful library and a budget of at least 0: the result is the clamped lines
      joined by newlines, trailing empty ones dropped; no tab remains; and splitting the
      result gives back exactly those lines. */
  lemma ClampLinesShape(o: Oracle, text: string, maxLength: int)
    requires Lawful(o) && 0 <= maxLength
    ensures var out := StripTrailingEmpty(ClampEach(o, Split(text), maxLength));
      && ClampLines(o, text, maxLength) == Join(out)
      && '\t' !in ClampLines(o, text, maxLength)
      && (|out| > 0 ==> Split(ClampLines(o, text, maxLength)) == out)
  {
    var lines := Split(text);
    var cl := ClampEach(o, lines, maxLength);
    ClampEachClean(o, lines, maxLength);
    TrimTerminated(cl);
    var out := StripTrailingEmpty(cl);
    assert forall i :: 0 <= i < |out| ==> '\t' !in out[i] && '\n' !in out[i] by {
      assert forall i :: 0 <= i < |out| ==> out[i] == cl[i];
    }
    JoinAvoids(out, '\t');
    if |out| > 0 {
      SplitJoin(out);
    }
  }

  /** Each output line, up to the dropped trailing empty ones, is the library's cut of the
      tab-expanded input line at the same position: a prefix of it that fits the width. */
  lemma ClampLinesLines(o: Oracle, text: string, maxLength: int)
    requires Lawful(o) && 0 <= maxLength
    ensures var out := StripTrailingEmpty(ClampEach(o, Split(text), maxLength));
      && |out| <= |Split(text)|
      && forall i :: 0 <= i < |out| ==>
           && out[i] == o.truncate(ExpandTabs(Split(text)[i]), maxLength)
           && IsPrefix(out[i], ExpandTabs(Split(text)[i]))
           && o.width(out[i]) <= maxLength
  {
    var lines := Split(text);
    var cl := ClampEach(o, lines, maxLength);
    ClampEachClean(o, lines, maxLength);
    var out := StripTrailingEmpty(cl);
    forall i | 0 <= i < |out|
      ensures && out[i] == o.truncate(ExpandTabs(lines[i]), maxLength)
              && IsPrefix(out[i], ExpandTabs(lines[i]))
              && o.width(out[i]) <= maxLength
    {
      assert out[i] == cl[i];
    }
  }

  /** The result never ends with a newline. */
  lemma ClampLinesNoTrailingNewline(o: Oracle, text: string, maxLength: int)
    ensures var r := ClampLines(o, text, maxLength); |r| == 0 || r[|r| - 1] != '\n'
  {
  }

  /** Clamping a clamped text changes nothing. */
  lemma ClampLinesIdempotent(o: Oracle, text: string, maxLength: int)
    requires Lawful(o) && 0 <= maxLength
    ensures ClampLines(o, ClampLines(o, text, maxLength), maxLength) == ClampLines(o, text, maxLength)
  {
    var lines := Split(text);
    var cl := ClampEach(o, lines, maxLength);
    var out := StripTrailingEmpty(cl);
    ClampEachClean(o, lines, maxLength);
    TrimTerminated(cl);
    assert ClampLines(o, text, maxLength) == Join(out);
    if |out| == 0 {
      ClampLinesEmpty(o, maxLength);
    } else {
      assert forall i :: 0 <= i < |out| ==> out[i] == cl[i];
      ClampLinesOfClamped(o, out, maxLength);
    }
  }

  lemma SplitExamples()
    ensures Split("") == [""]
    ensures Split("a\n") == ["a", ""]
    ensures Split("a\n\tb") == ["a", "\tb"]
  {
    assert Split("a\n") == ["a", ""] by {
      var ls := ["a", ""];
      assert ls[1..] == [""];
      assert Join(ls) == "a\n";
      SplitJoin(ls);
    }
    assert Split("a\n\tb") == ["a", "\tb"] by {
      var ls := ["a", "\tb"];
      assert ls[1..] == ["\tb"];
      assert Join(ls) == "a\n\tb";
      SplitJoin(ls);
    }
  }
}

/** The two entry points of the terminal-width library (`ansi.StringWidth` and
    `ansi.Truncate(s, n, "")`) that the truncators call. Their implementation (escape
    sequences, East-Asian widths) is not modelled: the model receives them as an `Oracle`
    value and relies only on the laws collected in `Lawful`. */
module Ansi {
  import opened Text

  datatype Oracle = Oracle(width: string -> nat, truncate: (string, int) -> string)

  /** What the truncators rely on, for text without escape sequences (on styled text the
      library's cut may keep escape sequences from after the cut, so it is not a prefix).
      Nothing is assumed about `truncate` at a negative length. The last law says that
      putting ASCII text before or after a string adds at most one cell per character. */
  ghost predicate Lawful(o: Oracle) {
    && o.width([]) == 0
    && (forall s, n :: 0 <= n ==> IsPrefix(o.truncate(s, n), s) && o.width(o.truncate(s, n)) <= n)
    && (forall s, n :: 0 <= n && o.width(s) <= n ==> o.truncate(s, n) == s)
    && (forall a, m :: IsAscii(m) ==> o.width(a + m) <= o.width(a) + |m|)
    && (forall a, m :: IsAscii(m) ==> o.width(m + a) <= |m| + o.width(a))
  }

  /** One cell per rune and no escape sequences: a library that satisfies the laws, so the
      lemmas that assume them are not vacuous. Its behaviour at a negative length is an
      arbitrary choice of this witness. */
  function PlainOracle(): (o: Oracle)
    ensures Lawful(o)
  {
    Oracle((s: string) => |s|, (s: string, n: int) => if 0 <= n < |s| then s[..n] else s)
  }

  /** Cells of text in which U+0301 (combining acute accent) takes none and every other rune
      one, as in a terminal. */
  function MarkCells(s: string): (n: nat)
    ensures n <= |s|
  {
    if |s| == 0 then 0 else MarkCell(s[0]) + MarkCells(s[1..])
  }

  function MarkCell(c: char): nat {
    if c == '\U{301}' then 0 else 1
  }

  lemma {:induction false} MarkCellsAppend(a: string, b: string)
    ensures MarkCells(a + b) == MarkCells(a) + MarkCells(b)
  {
    if |a| > 0 {
      assert (a + b)[0] == a[0];
      assert (a + b)[1..] == a[1..] + b;
      MarkCellsAppend(a[1..], b);
    } else {
      assert a + b == b;
    }
  }

  lemma {:induction false} MarkCellsAscii(m: string)
    requires IsAscii(m)
    ensures MarkCells(m) == |m|
  {
    if |m| > 0 {
      assert IsAscii(m[1..]) by {
        forall i | 0 <= i < |m| - 1 ensures m[1..][i] as int < 0x80 {
          assert m[1..][i] == m[i + 1];
        }
      }
      MarkCellsAscii(m[1..]);
    }
  }

  lemma MarkCellsLaws()
    ensures forall a, m :: IsAscii(m) ==> MarkCells(a + m) == MarkCells(a) + |m|
    ensures forall a, m :: IsAscii(m) ==> MarkCells(m + a) == |m| + MarkCells(a)
  {
    forall a, m | IsAscii(m) ensures MarkCells(a + m) == MarkCells(a) + |m| {
      MarkCellsAppend(a, m);
      MarkCellsAscii(m);
    }
    forall a, m | IsAscii(m) ensures MarkCells(m + a) == |m| + MarkCells(a) {
      MarkCellsAppend(m, a);
      MarkCellsAscii(m);
    }
  }

  /** Cut at a rune count, which is never wider than the same number of cells. */
  function MarkCut(s: string, n: int): (r: string)
    ensures 0 <= n ==> IsPrefix(r, s) && MarkCells(r) <= n
    ensures 0 <= n && MarkCells(s) <= n ==> r == s
  {
    if 0 <= n < MarkCells(s) then s[..n] else s
  }

  /** A lawful library in which a combining accent takes no cell. */
  function MarkOracle(): (o: Oracle)
    ensures Lawful(o)
    ensures forall s :: o.width(s) == MarkCells(s)
  {
    MarkCellsLaws();
    Oracle(MarkCells, MarkCut)
  }
}

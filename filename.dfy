/** File-name helpers: `fileNameWithoutExtension` and `isExensionExtractable`. */
module FileName {
  import opened Text

  /** strings.LastIndexByte: the last index of `c` in `s`, or -1. ('.' is ASCII, and in UTF-8
      an ASCII byte never occurs inside a multi-byte rune, so byte and rune positions of
      the search agree at every dot.) */
  function LastIndexOf(s: string, c: char): (r: int)
    ensures -1 <= r < |s|
    ensures r >= 0 ==> s[r] == c
    ensures forall i :: r < i < |s| ==> s[i] != c
  {
    if |s| == 0 then -1
    else if s[|s| - 1] == c then |s| - 1
    else LastIndexOf(s[..|s| - 1], c)
  }

  /** The first index at or after `i` of a dot, or `|s|`. */
  function FirstDotFrom(s: string, i: nat): (k: nat)
    requires i <= |s|
    ensures i <= k <= |s|
    ensures forall j :: i <= j < k ==> s[j] != '.'
    ensures k < |s| ==> s[k] == '.'
    decreases |s| - i
  {
    if i == |s| then |s| else if s[i] == '.' then i else FirstDotFrom(s, i + 1)
  }

  /** Where the name stops: at its first dot after index 0. */
  function StemLength(s: string): (k: nat)
    ensures k <= |s|
    ensures forall j :: 0 < j < k ==> s[j] != '.'
    ensures k < |s| ==> 0 < k && s[k] == '.'
  {
    if |s| == 0 then 0 else FirstDotFrom(s, 1)
  }

  /** What fileNameWithoutExtension returns. */
  function WithoutExtension(s: string): string {
    s[..StemLength(s)]
  }

  /** Strip everything from the last dot while that dot is past the first byte. */
  method FileNameWithoutExtension(name: string) returns (fileName: string)
    ensures fileName == WithoutExtension(name)
    ensures IsPrefix(fileName, name)
    ensures forall i :: 0 < i < |fileName| ==> fileName[i] != '.'
    ensures |fileName| < |name| ==> name[|fileName|] == '.'
  {
    fileName := name;
    while true
      invariant IsPrefix(fileName, name)
      invariant StemLength(name) <= |fileName|
      decreases |fileName|
    {
      var pos := LastIndexOf(fileName, '.');
      if pos <= 0 {
        break;
      }
      fileName := fileName[..pos];
    }
  }

  /** Stripping twice strips nothing more. */
  lemma WithoutExtensionIdempotent(s: string)
    ensures WithoutExtension(WithoutExtension(s)) == WithoutExtension(s)
  {
  }

  /** A name whose only dot, if any, is its first byte is its own stem. */
  lemma WithoutExtensionKeepsPlainNames(s: string)
    requires forall j :: 0 < j < |s| ==> s[j] != '.'
    ensures WithoutExtension(s) == s
  {
  }

  lemma WithoutExtensionExamples()
    ensures WithoutExtension(".bashrc") == ".bashrc"
    ensures WithoutExtension("README") == "README"
    ensures WithoutExtension("a.tar.gz") == "a"
    ensures WithoutExtension(".a.b") == ".a"
  {
    assert StemLength("a.tar.gz") == 1;
    assert StemLength(".a.b") == 2;
  }

  // ---------------------------------------------------------------------------

  /** The extensions the archive extractor handles. */
  const ArchiveExtensions: set<string> :=
    {".zip", ".bz", ".gz", ".iso", ".rar", ".7z", ".tar", ".tar.gz", ".tar.bz2"}

  /** unicode.ToLower on the runes it maps into ASCII: the ASCII capitals, U+0130 (capital I
      with dot above) to 'i' and U+212A (Kelvin sign) to 'k'. Every other rune is kept; the
      lower-case forms Go gives the rest are not ASCII either. */
  function LowerRune(c: char): (d: char)
    ensures d == c <==> !('A' <= c <= 'Z') && c != '\U{130}' && c != '\U{212A}'
    ensures d != c ==> 'a' <= d <= 'z'
    ensures 'A' <= c <= 'Z' ==> d as int == c as int + 32
    ensures (d as int < 0x80) <==> (c as int < 0x80 || c == '\U{130}' || c == '\U{212A}')
    ensures !('A' <= d <= 'Z') && d != '\U{130}' && d != '\U{212A}'
  {
    if 'A' <= c <= 'Z' then (c as int + 32) as char
    else if c == '\U{130}' then 'i'
    else if c == '\U{212A}' then 'k'
    else c
  }

  /** strings.ToLower, rune by rune: every rune of the result is already lower case, and the
      result is ASCII exactly when each rune is ASCII or one of the two that lower to ASCII. */
  function ToLower(s: string): (r: string)
    ensures |r| == |s|
    ensures forall i :: 0 <= i < |r| ==> LowerRune(r[i]) == r[i]
    ensures IsAscii(r) <==>
      forall i :: 0 <= i < |s| ==> s[i] as int < 0x80 || s[i] == '\U{130}' || s[i] == '\U{212A}'
  {
    var r := seq(|s|, i requires 0 <= i < |s| => LowerRune(s[i]));
    assert forall i :: 0 <= i < |s| ==> r[i] == LowerRune(s[i]) && (r[i] as int < 0x80 <==>
      s[i] as int < 0x80 || s[i] == '\U{130}' || s[i] == '\U{212A}');
    r
  }

  /** Lowering twice is lowering once. */
  lemma ToLowerIdempotent(s: string)
    ensures ToLower(ToLower(s)) == ToLower(s)
  {
  }

  /** Only the listed extensions, in any case, and only names with a leading dot. */
  function IsExtensionExtractable(ext: string): (r: bool)
    ensures r ==> 3 <= |ext| <= 8 && ext[0] == '.'
  {
    var low := ToLower(ext);
    assert low in ArchiveExtensions ==> low[0] == LowerRune(ext[0]);
    low in ArchiveExtensions
  }

  /** Equal up to case. */
  predicate EqualFold(a: string, b: string) {
    |a| == |b| && forall i :: 0 <= i < |a| ==> LowerRune(a[i]) == LowerRune(b[i])
  }

  /** Every listed extension is ASCII and already in lower case. */
  lemma ArchiveExtensionIsLower(e: string)
    requires e in ArchiveExtensions
    ensures IsAscii(e)
    ensures ToLower(e) == e
  {
    assert forall i :: 0 <= i < |e| ==> e[i] as int < 0x80 && !('A' <= e[i] <= 'Z');
  }

  /** An extension is extractable exactly when it matches one of the list up to case. */
  lemma IsExtensionExtractableMatchesFold(ext: string)
    ensures IsExtensionExtractable(ext) <==> exists e :: e in ArchiveExtensions && EqualFold(ext, e)
  {
    var low := ToLower(ext);
    if IsExtensionExtractable(ext) {
      assert EqualFold(ext, low) by {
        ArchiveExtensionIsLower(low);
      }
    }
    if e :| e in ArchiveExtensions && EqualFold(ext, e) {
      ArchiveExtensionIsLower(e);
      assert low == ToLower(e);
    }
  }

  /** Changing case never changes the verdict. */
  lemma IsExtensionExtractableIgnoresCase(a: string, b: string)
    requires EqualFold(a, b)
    ensures IsExtensionExtractable(a) == IsExtensionExtractable(b)
  {
    assert ToLower(a) == ToLower(b);
  }

  /** A non-ASCII rune other than U+0130 and U+212A rules an extension out. */
  lemma IsExtensionExtractableRejectsNonAscii(ext: string, i: nat)
    requires i < |ext| && ext[i] as int >= 0x80 && ext[i] != '\U{130}' && ext[i] != '\U{212A}'
    ensures !IsExtensionExtractable(ext)
  {
    var low := ToLower(ext);
    if low in ArchiveExtensions {
      ArchiveExtensionIsLower(low);
    }
  }

  lemma IsExtensionExtractableExamples()
    ensures IsExtensionExtractable(".ZIP")
    ensures IsExtensionExtractable(".Tar.Gz")
    ensures IsExtensionExtractable(".\U{130}SO")
    ensures !IsExtensionExtractable(".tar.xz")
    ensures !IsExtensionExtractable("zip")
  {
    assert ToLower(".ZIP") == ".zip";
    assert ToLower(".Tar.Gz") == ".tar.gz";
    assert ToLower(".\U{130}SO") == ".iso";
    assert ToLower(".tar.xz") == ".tar.xz";
  }
}

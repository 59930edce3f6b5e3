/** How opening a file picks the download mode: from the lower-cased text after
    the file name's last `.` (`fileName.split('.').pop().toLowerCase()`). */
module OpenDispatch {
  import opened NodeIds

  /** What is requested and what the viewer callback receives: the PDF blob as
      it is, the text blob decoded to a string, or the default response body. */
  datatype Mode = BlobAsIs | BlobAsText | Default

  const Dot: char := '.'

  /** `toLowerCase()` on one character, for the ASCII letters. */
  function LowerChar(c: char): char
  {
    if 'A' <= c <= 'Z' then (c as int + 32) as char else c
  }

  /** `toLowerCase()`: no upper-case ASCII letter is left, and only those
      letters change. */
  function Lower(s: string): (r: string)
    ensures |r| == |s|
    ensures forall i :: 0 <= i < |r| ==> !('A' <= r[i] <= 'Z') && (r[i] == s[i] || 'A' <= s[i] <= 'Z')
    ensures forall i :: 0 <= i < |s| && 'A' <= s[i] <= 'Z' ==> r[i] as int == s[i] as int + 32
  {
    seq(|s|, i requires 0 <= i < |s| => LowerChar(s[i]))
  }

  /** The last element of `split(sep)`, what `pop()` returns. */
  function LastPart(s: string, sep: char): (p: string)
    ensures sep !in p
    ensures sep !in s ==> p == s
  {
    var parts := Split(s, sep);
    if sep !in s then SplitNoSeparator(s, sep); parts[|parts| - 1]
    else parts[|parts| - 1]
  }

  /** The extension: dot-free and in lower case. */
  function Extension(fileName: string): (ext: string)
    ensures Dot !in ext
    ensures forall i :: 0 <= i < |ext| ==> !('A' <= ext[i] <= 'Z')
  {
    Lower(LastPart(fileName, Dot))
  }

  /** The name ends in `.ext`, or is `ext` itself, in any letter case. */
  predicate NamedAs(fileName: string, ext: string)
  {
    |ext| <= |fileName| && Lower(fileName[|fileName| - |ext|..]) == ext &&
    (|ext| == |fileName| || fileName[|fileName| - |ext| - 1] == Dot)
  }

  /** The download mode: a PDF blob for names ending in `.pdf`, a text blob
      for names ending in `.txt` (any case, or the bare names), the default
      request otherwise. */
  function ModeOf(fileName: string): (mode: Mode)
    ensures mode == BlobAsIs <==> NamedAs(fileName, "pdf")
    ensures mode == BlobAsText <==> NamedAs(fileName, "txt")
  {
    ExtensionIs(fileName, "pdf");
    ExtensionIs(fileName, "txt");
    var ext := Extension(fileName);
    if ext == "pdf" then BlobAsIs
    else if ext == "txt" then BlobAsText
    else Default
  }

  /** The last part is the longest dot-free suffix: it holds no separator, and
      either it is the whole text or a separator stands just before it. */
  lemma LastPartIsSuffix(s: string, sep: char)
    ensures var p := LastPart(s, sep);
      sep !in p && |p| <= |s| && s[|s| - |p|..] == p &&
      (|p| == |s| || s[|s| - |p| - 1] == sep)
  {
    var parts := Split(s, sep);
    JoinSplit(s, sep);
    if |parts| >= 2 {
      JoinLast(parts, sep);
      var front := Join(parts[..|parts| - 1], sep);
      assert s == front + [sep] + parts[|parts| - 1];
    }
  }

  /** Only the text after the last dot decides, whatever comes before it. */
  lemma ExtensionAfterLastDot(stem: string, ext: string)
    requires Dot !in ext
    ensures Extension(stem + [Dot] + ext) == Lower(ext)
  {
    SplitAround(stem, ext, Dot);
    SplitNoSeparator(ext, Dot);
  }

  /** The extension is a given dot-free text exactly when the name ends in
      a dot and that text, in any letter case, or is that text alone. */
  lemma ExtensionIs(fileName: string, ext: string)
    requires Dot !in ext
    ensures Extension(fileName) == ext <==> NamedAs(fileName, ext)
  {
    var p := LastPart(fileName, Dot);
    LastPartIsSuffix(fileName, Dot);
    var k := |fileName| - |ext|;
    if Extension(fileName) == ext {
      assert fileName[k..] == p;
    }
    if NamedAs(fileName, ext) {
      var tail := fileName[k..];
      assert Dot !in tail by {
        assert forall i :: 0 <= i < |tail| ==> LowerChar(tail[i]) == ext[i];
      }
      if k == 0 {
        assert tail == fileName;
        ExtensionWithoutDot(fileName);
      } else {
        assert fileName == fileName[..k - 1] + [Dot] + tail;
        ExtensionAfterLastDot(fileName[..k - 1], tail);
      }
    }
  }

  /** A name without a dot is its own extension. */
  lemma ExtensionWithoutDot(fileName: string)
    requires Dot !in fileName
    ensures Extension(fileName) == Lower(fileName)
  {
    SplitNoSeparator(fileName, Dot);
  }

  lemma LowerAppend(a: string, b: string)
    ensures Lower(a + b) == Lower(a) + Lower(b)
  {
    assert forall i :: 0 <= i < |a + b| ==> Lower(a + b)[i] == (Lower(a) + Lower(b))[i];
  }

  lemma LowerIdempotent(s: string)
    ensures Lower(Lower(s)) == Lower(s)
  {
    assert forall i :: 0 <= i < |s| ==> Lower(Lower(s))[i] == Lower(s)[i];
  }

  /** Lower-casing commutes with splitting at a dot. */
  lemma {:induction false} SplitLower(s: string)
    ensures |Split(Lower(s), Dot)| == |Split(s, Dot)|
    ensures forall i :: 0 <= i < |Split(s, Dot)| ==> Split(Lower(s), Dot)[i] == Lower(Split(s, Dot)[i])
    decreases |s|
  {
    if s != [] {
      var l := Lower(s);
      assert l[0] == LowerChar(s[0]) && l[1..] == Lower(s[1..]);
      SplitLower(s[1..]);
      var rest := Split(s[1..], Dot);
      if s[0] != Dot {
        LowerAppend([s[0]], rest[0]);
      }
    }
  }

  /** The dispatch ignores letter case: `REPORT.PDF` opens like `report.pdf`. */
  lemma ModeIgnoresCase(fileName: string)
    ensures Extension(Lower(fileName)) == Extension(fileName)
    ensures ModeOf(Lower(fileName)) == ModeOf(fileName)
  {
    SplitLower(fileName);
    var p := LastPart(fileName, Dot);
    LowerIdempotent(p);
  }

  /** A file called just `pdf`, having no dot, takes its whole name as its
      extension and so is downloaded as a PDF. */
  lemma DotlessPdfNameIsBlob()
    ensures ModeOf("pdf") == BlobAsIs
  {
    assert Lower("pdf") == "pdf";
    assert NamedAs("pdf", "pdf");
  }
}

/** The output file name: the upload's name with its extension replaced by
    ".mp3", using POSIX `os.path.splitext`. */
module FileNames {

  /** `p.rfind(c)`: the last index of `c` in `p`, or -1. */
  function LastIndex(p: string, c: char): (r: int)
    ensures -1 <= r < |p|
    ensures r >= 0 ==> p[r] == c
    ensures forall i :: r < i < |p| ==> p[i] != c
  {
    if |p| == 0 then -1
    else if p[|p| - 1] == c then |p| - 1
    else LastIndex(p[..|p| - 1], c)
  }

  /** Some character of `p[lo..hi]` is not a dot. */
  predicate HasNonDot(p: string, lo: int, hi: int)
    requires 0 <= lo && hi <= |p|
  {
    exists i :: lo <= i < hi && p[i] != '.'
  }

  /** `os.path.splitext(p)` on POSIX: the extension starts at the last dot of
      the last path component, unless only dots precede it there. */
  function SplitExt(p: string): (parts: (string, string))
    ensures parts.0 + parts.1 == p
    ensures parts.1 == "" || parts.1[0] == '.'
    ensures forall i :: 0 < i < |parts.1| ==> parts.1[i] != '.' && parts.1[i] != '/'
  {
    var sep := LastIndex(p, '/');
    var dot := LastIndex(p, '.');
    if dot > sep && HasNonDot(p, sep + 1, dot) then (p[..dot], p[dot..]) else (p, "")
  }

  /** `os.path.splitext(name)[0] + ".mp3"`. */
  function AudioName(fileName: string): string {
    SplitExt(fileName).0 + ".mp3"
  }

  /** A last path component with a character other than a dot. */
  predicate HasPlainBase(stem: string) {
    HasNonDot(stem, LastIndex(stem, '/') + 1, |stem|)
  }

  /** An extension without dots or slashes is split off again exactly. */
  lemma SplitExtOfStemAndExtension(stem: string, ext: string)
    requires HasPlainBase(stem)
    requires forall i :: 0 <= i < |ext| ==> ext[i] != '.' && ext[i] != '/'
    ensures SplitExt(stem + "." + ext) == (stem, "." + ext)
  {
    var p := stem + "." + ext;
    assert p == stem + ("." + ext);
    var dot := LastIndex(p, '.');
    var sep := LastIndex(p, '/');
    assert p[|stem|] == '.';
    assert forall i :: |stem| < i < |p| ==> p[i] == ext[i - |stem| - 1];
    assert dot == |stem|;
    var sep' := LastIndex(stem, '/');
    assert sep == sep' by {
      assert forall i :: 0 <= i < |stem| ==> p[i] == stem[i];
      if sep' >= 0 {
        assert p[sep'] == '/';
      }
    }
    var i :| sep' + 1 <= i < |stem| && stem[i] != '.';
    assert p[i] == stem[i];
    assert HasNonDot(p, sep + 1, dot);
    assert p[..dot] == stem;
    assert p[dot..] == "." + ext;
  }

  /** "book.pdf" becomes "book.mp3". */
  lemma AudioNameOfPdf(stem: string)
    requires HasPlainBase(stem)
    ensures AudioName(stem + ".pdf") == stem + ".mp3"
  {
    SplitExtOfStemAndExtension(stem, "pdf");
    assert stem + "." + "pdf" == stem + ".pdf";
  }

  /** A name with no dot is kept whole. */
  lemma SplitExtWithoutDot(p: string)
    requires forall i :: 0 <= i < |p| ==> p[i] != '.'
    ensures SplitExt(p) == (p, "")
  {
  }
}

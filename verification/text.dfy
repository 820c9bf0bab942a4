/** Whitespace handling as Python's argument-less `str.split()`, `' '.join` and
    `str.strip()` do it: the three string operations the conversion applies to
    the extracted text. */
module Text {

  /** Separator characters of `str.split()` / `str.strip()` in the ASCII range. */
  predicate IsWhitespace(c: char) {
    || c == ' ' || c == '\t' || c == '\n' || c == '\r'
    || c == '\U{B}' || c == '\U{C}'
    || c == '\U{1C}' || c == '\U{1D}' || c == '\U{1E}' || c == '\U{1F}'
  }

  predicate AllWhitespace(s: string) {
    forall i :: 0 <= i < |s| ==> IsWhitespace(s[i])
  }

  /** A word, as `str.split()` returns it: non-empty, no whitespace. */
  predicate IsWord(w: string) {
    |w| > 0 && forall i :: 0 <= i < |w| ==> !IsWhitespace(w[i])
  }

  predicate AllWords(ws: seq<string>) {
    forall i :: 0 <= i < |ws| ==> IsWord(ws[i])
  }

  /** The non-whitespace characters of `s`, in their original order. */
  function Letters(s: string): (r: string)
    ensures |r| <= |s|
  {
    if |s| == 0 then ""
    else (if IsWhitespace(s[0]) then "" else [s[0]]) + Letters(s[1..])
  }

  /** Concatenation of a sequence of sequences (strings, word lists), in order. */
  function Flatten<T>(ss: seq<seq<T>>): seq<T> {
    if |ss| == 0 then [] else ss[0] + Flatten(ss[1..])
  }

  /** Length of the maximal run of non-whitespace characters `s` starts with. */
  function WordLength(s: string): (n: nat)
    ensures n <= |s|
    ensures forall i :: 0 <= i < n ==> !IsWhitespace(s[i])
    ensures n == |s| || IsWhitespace(s[n])
  {
    if |s| == 0 || IsWhitespace(s[0]) then 0 else 1 + WordLength(s[1..])
  }

  /** `s.split()` with no separator argument. */
  function Split(s: string): (words: seq<string>)
    ensures AllWords(words)
    decreases |s|
  {
    if |s| == 0 then []
    else if IsWhitespace(s[0]) then Split(s[1..])
    else
      var n := WordLength(s);
      [s[..n]] + Split(s[n..])
  }

  /** `' '.join(words)`. */
  function Join(words: seq<string>): string {
    if |words| == 0 then ""
    else if |words| == 1 then words[0]
    else words[0] + " " + Join(words[1..])
  }

  /** `' '.join(s.split())`: the clean-up the conversion applies to the text. */
  function Normalize(s: string): string {
    Join(Split(s))
  }

  /** Collapsed form: every whitespace character is a single space with a
      non-whitespace character on each side (so none leads or trails). */
  predicate IsNormal(t: string) {
    forall i :: 0 <= i < |t| && IsWhitespace(t[i]) ==>
      t[i] == ' ' && 0 < i < |t| - 1 && !IsWhitespace(t[i - 1]) && !IsWhitespace(t[i + 1])
  }

  /** Length of the whitespace run `s` starts with. */
  function LeadingSpace(s: string): (n: nat)
    ensures n <= |s|
    ensures forall i :: 0 <= i < n ==> IsWhitespace(s[i])
    ensures n == |s| || !IsWhitespace(s[n])
  {
    if |s| > 0 && IsWhitespace(s[0]) then 1 + LeadingSpace(s[1..]) else 0
  }

  /** Length of the whitespace run `s` ends with. */
  function TrailingSpace(s: string): (n: nat)
    ensures n <= |s|
    ensures forall i :: |s| - n <= i < |s| ==> IsWhitespace(s[i])
    ensures n == |s| || !IsWhitespace(s[|s| - n - 1])
  {
    if |s| > 0 && IsWhitespace(s[|s| - 1]) then 1 + TrailingSpace(s[..|s| - 1]) else 0
  }

  /** `s.lstrip()`. */
  function TrimStart(s: string): (r: string)
    ensures |r| <= |s| && r == s[|s| - |r|..]
    ensures AllWhitespace(s[..|s| - |r|])
    ensures |r| == 0 || !IsWhitespace(r[0])
  {
    s[LeadingSpace(s)..]
  }

  /** `s.rstrip()`. */
  function TrimEnd(s: string): (r: string)
    ensures |r| <= |s| && r == s[..|r|]
    ensures AllWhitespace(s[|r|..])
    ensures |r| == 0 || !IsWhitespace(r[|r| - 1])
  {
    s[..|s| - TrailingSpace(s)]
  }

  /** `s.strip()`; it is falsy exactly when `s` is empty or all whitespace. */
  function Strip(s: string): (r: string)
    ensures r == "" <==> AllWhitespace(s)
  {
    var l := TrimStart(s);
    var r := TrimEnd(l);
    assert |l| > 0 ==> l[0] == s[|s| - |l|];
    assert |r| == 0 ==> l[|r|..] == l;
    assert |l| == 0 ==> s[..|s| - |l|] == s;
    r
  }

  // ----- Letters and Flatten over concatenation -----

  lemma {:induction false} LettersAppend(a: string, b: string)
    ensures Letters(a + b) == Letters(a) + Letters(b)
    decreases |a|
  {
    if |a| == 0 {
      assert a + b == b;
    } else {
      assert (a + b)[0] == a[0];
      assert (a + b)[1..] == a[1..] + b;
      LettersAppend(a[1..], b);
    }
  }

  lemma {:induction false} LettersOfWord(w: string)
    requires forall i :: 0 <= i < |w| ==> !IsWhitespace(w[i])
    ensures Letters(w) == w
    decreases |w|
  {
    if |w| > 0 {
      LettersOfWord(w[1..]);
      assert w == [w[0]] + w[1..];
    }
  }

  lemma {:induction false} LettersOfWhitespace(s: string)
    requires AllWhitespace(s)
    ensures Letters(s) == ""
    decreases |s|
  {
    if |s| > 0 {
      LettersOfWhitespace(s[1..]);
    }
  }

  lemma {:induction false} FlattenAppend<T>(a: seq<seq<T>>, b: seq<seq<T>>)
    ensures Flatten(a + b) == Flatten(a) + Flatten(b)
    decreases |a|
  {
    if |a| == 0 {
      assert a + b == b;
    } else {
      assert (a + b)[0] == a[0];
      assert (a + b)[1..] == a[1..] + b;
      FlattenAppend(a[1..], b);
    }
  }

  lemma AllWhitespaceAppend(a: string, b: string)
    ensures AllWhitespace(a + b) <==> AllWhitespace(a) && AllWhitespace(b)
  {
    assert forall k :: 0 <= k < |a| ==> (a + b)[k] == a[k];
    assert forall k :: 0 <= k < |b| ==> (a + b)[|a| + k] == b[k];
  }

  // ----- Split -----

  /** `split()` drops exactly the whitespace: the words, glued together, are
      the non-whitespace characters of the input in order. */
  lemma {:induction false} SplitKeepsLetters(s: string)
    ensures Flatten(Split(s)) == Letters(s)
    decreases |s|
  {
    if |s| == 0 {
    } else if IsWhitespace(s[0]) {
      SplitKeepsLetters(s[1..]);
    } else {
      var n := WordLength(s);
      SplitKeepsLetters(s[n..]);
      assert s == s[..n] + s[n..];
      LettersAppend(s[..n], s[n..]);
      LettersOfWord(s[..n]);
    }
  }

  /** `split()` returns no words exactly when the input is blank. */
  lemma {:induction false} SplitEmptyIffBlank(s: string)
    ensures Split(s) == [] <==> AllWhitespace(s)
    decreases |s|
  {
    if |s| > 0 && IsWhitespace(s[0]) {
      SplitEmptyIffBlank(s[1..]);
      assert AllWhitespace(s[1..]) ==> AllWhitespace(s) by {
        if AllWhitespace(s[1..]) {
          forall i | 0 <= i < |s| ensures IsWhitespace(s[i]) {
            if i > 0 { assert s[i] == s[1..][i - 1]; }
          }
        }
      }
    }
  }

  lemma {:induction false} WordLengthOfWord(w: string, t: string)
    requires forall i :: 0 <= i < |w| ==> !IsWhitespace(w[i])
    requires |t| == 0 || IsWhitespace(t[0])
    ensures WordLength(w + t) == |w|
    decreases |w|
  {
    if |w| == 0 {
      assert w + t == t;
    } else {
      assert (w + t)[1..] == w[1..] + t;
      WordLengthOfWord(w[1..], t);
    }
  }

  /** Text after a word that is empty or starts with whitespace does not
      lengthen the word. */
  lemma {:induction false} WordLengthAppend(a: string, t: string)
    requires |t| == 0 || IsWhitespace(t[0])
    ensures WordLength(a + t) == WordLength(a)
    decreases |a|
  {
    if |a| == 0 {
      assert a + t == t;
    } else if !IsWhitespace(a[0]) {
      assert (a + t)[0] == a[0];
      assert (a + t)[1..] == a[1..] + t;
      WordLengthAppend(a[1..], t);
    }
  }

  /** Whitespace separates words: splitting at a whitespace character splits
      the two sides independently, so no word spans it. */
  lemma {:induction false} SplitAtWhitespace(a: string, c: char, b: string)
    requires IsWhitespace(c)
    ensures Split(a + [c] + b) == Split(a) + Split(b)
    decreases |a|
  {
    var s := a + [c] + b;
    if |a| == 0 {
      assert s == [c] + b;
      assert s[1..] == b;
    } else if IsWhitespace(a[0]) {
      assert s[0] == a[0];
      assert s[1..] == a[1..] + [c] + b;
      SplitAtWhitespace(a[1..], c, b);
    } else {
      var n := WordLength(a);
      assert s == a + ([c] + b);
      WordLengthAppend(a, [c] + b);
      assert s[0] == a[0];
      assert s[..n] == a[..n];
      assert s[n..] == a[n..] + [c] + b;
      SplitAtWhitespace(a[n..], c, b);
    }
  }

  lemma SplitLeadingSpace(x: string)
    ensures Split(" " + x) == Split(x)
  {
    assert (" " + x)[1..] == x;
  }

  /** Splitting a single word gives back that word. */
  lemma SplitWord(w: string)
    requires IsWord(w)
    ensures Split(w) == [w]
  {
    WordLengthOfWord(w, "");
    assert w + "" == w;
    assert w[..|w|] == w;
    assert w[|w|..] == "";
  }

  /** Splitting `w + " " + x` for a word `w` peels `w` off the front. */
  lemma SplitWordThenSpace(w: string, x: string)
    requires IsWord(w)
    ensures Split(w + " " + x) == [w] + Split(x)
  {
    var s := w + " " + x;
    WordLengthOfWord(w, " " + x);
    assert s == w + (" " + x);
    assert s[0] == w[0];
    assert s[..|w|] == w;
    assert s[|w|..] == " " + x;
    SplitLeadingSpace(x);
  }

  // ----- Join -----

  lemma {:induction false} JoinStartsWithFirst(ws: seq<string>)
    requires |ws| > 0
    ensures |Join(ws)| >= |ws[0]| && Join(ws)[..|ws[0]|] == ws[0]
  {
    if |ws| > 1 {
      assert Join(ws) == ws[0] + (" " + Join(ws[1..]));
    }
  }

  /** Split undoes Join on a list of words. */
  lemma {:induction false} SplitJoin(ws: seq<string>)
    requires AllWords(ws)
    ensures Split(Join(ws)) == ws
    decreases |ws|
  {
    if |ws| == 0 {
    } else if |ws| == 1 {
      SplitWord(ws[0]);
    } else {
      assert AllWords(ws[1..]) by {
        forall i | 0 <= i < |ws[1..]| ensures IsWord(ws[1..][i]) {
          assert ws[1..][i] == ws[i + 1];
        }
      }
      SplitWordThenSpace(ws[0], Join(ws[1..]));
      SplitJoin(ws[1..]);
      assert ws == [ws[0]] + ws[1..];
    }
  }

  /** Joining words with single spaces yields collapsed text. */
  lemma {:induction false} JoinIsNormal(ws: seq<string>)
    requires AllWords(ws)
    ensures IsNormal(Join(ws))
    decreases |ws|
  {
    if |ws| == 0 {
    } else if |ws| == 1 {
      assert IsWord(ws[0]);
    } else {
      var w := ws[0];
      var rest := ws[1..];
      assert IsWord(w);
      assert AllWords(rest) by {
        forall i | 0 <= i < |rest| ensures IsWord(rest[i]) {
          assert rest[i] == ws[i + 1];
        }
      }
      JoinIsNormal(rest);
      var j := Join(rest);
      JoinStartsWithFirst(rest);
      assert IsWord(rest[0]);
      assert |j| > 0 && j[0] == rest[0][0];
      var t := Join(ws);
      assert t == w + " " + j;
      forall i | 0 <= i < |t| && IsWhitespace(t[i])
        ensures t[i] == ' ' && 0 < i < |t| - 1 && !IsWhitespace(t[i - 1]) && !IsWhitespace(t[i + 1])
      {
        if i == |w| {
          assert t[i - 1] == w[|w| - 1];
          assert t[i + 1] == j[0];
        } else if i > |w| {
          var k := i - |w| - 1;
          assert t[i] == j[k];
          assert 0 < k < |j| - 1;
          assert t[i - 1] == j[k - 1];
          assert t[i + 1] == j[k + 1];
        }
      }
    }
  }

  /** The words of a collapsed text, joined again, give the text back. */
  lemma {:induction false} NormalJoinSplit(t: string)
    requires IsNormal(t)
    ensures Join(Split(t)) == t
    decreases |t|
  {
    if |t| == 0 {
      return;
    }
    var n := WordLength(t);
    if n == |t| {
      assert IsWord(t);
      SplitWord(t);
    } else {
      assert t[n] == ' ' && 0 < n < |t| - 1;
      var w := t[..n];
      var x := t[n + 1..];
      assert IsWord(w);
      assert t == w + " " + x;
      assert IsNormal(x) by {
        forall i | 0 <= i < |x| && IsWhitespace(x[i])
          ensures x[i] == ' ' && 0 < i < |x| - 1 && !IsWhitespace(x[i - 1]) && !IsWhitespace(x[i + 1])
        {
          assert x[i] == t[n + 1 + i];
          assert x[i - 1] == t[n + i];
          assert x[i + 1] == t[n + 2 + i];
        }
      }
      SplitWordThenSpace(w, x);
      NormalJoinSplit(x);
      assert !IsWhitespace(x[0]);
      SplitEmptyIffBlank(x);
      assert Split(x) != [];
      var ws := [w] + Split(x);
      assert ws[1..] == Split(x);
    }
  }

  // ----- Normalize -----

  /** Normalizing keeps the word sequence unchanged. */
  lemma NormalizeKeepsWords(s: string)
    ensures Split(Normalize(s)) == Split(s)
  {
    SplitJoin(Split(s));
  }

  /** Normalized text is collapsed: no leading, trailing or repeated whitespace,
      and only plain spaces between words. */
  lemma NormalizeIsNormal(s: string)
    ensures IsNormal(Normalize(s))
  {
    JoinIsNormal(Split(s));
  }

  /** Normalizing drops whitespace only. */
  lemma NormalizeKeepsLetters(s: string)
    ensures Letters(Normalize(s)) == Letters(s)
  {
    NormalizeKeepsWords(s);
    SplitKeepsLetters(Normalize(s));
    SplitKeepsLetters(s);
  }

  /** A text is its own normalization exactly when it is collapsed. */
  lemma NormalizeFixedPoints(t: string)
    ensures Normalize(t) == t <==> IsNormal(t)
  {
    if IsNormal(t) {
      NormalJoinSplit(t);
    } else {
      NormalizeIsNormal(t);
    }
  }

  /** Normalizing twice is the same as normalizing once. */
  lemma NormalizeIdempotent(s: string)
    ensures Normalize(Normalize(s)) == Normalize(s)
  {
    NormalizeKeepsWords(s);
  }

  /** The normalized text is empty exactly when the input is blank. */
  lemma NormalizeEmptyIffBlank(s: string)
    ensures Normalize(s) == "" <==> AllWhitespace(s)
  {
    SplitEmptyIffBlank(s);
    if Split(s) != [] {
      JoinStartsWithFirst(Split(s));
      assert IsWord(Split(s)[0]);
    }
  }
}

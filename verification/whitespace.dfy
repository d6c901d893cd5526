/**
  The two string utilities the command grammar is built on: Rust's
  `str::split_whitespace` (maximal runs of non-whitespace characters) and
  itertools' `join(" ")`.
 */
module Whitespace {

  /** The 25 code points that have the Unicode White_Space property. */
  const WhiteSpaceCodePoints: set<int> := {
    0x09, 0x0A, 0x0B, 0x0C, 0x0D, 0x20, 0x85, 0xA0, 0x1680,
    0x2000, 0x2001, 0x2002, 0x2003, 0x2004, 0x2005, 0x2006, 0x2007, 0x2008, 0x2009, 0x200A,
    0x2028, 0x2029, 0x202F, 0x205F, 0x3000
  }

  /** Rust's `char::is_whitespace`: the characters with the Unicode White_Space property. */
  predicate IsWhitespace(c: char)
  {
    var n := c as int;
    || (0x09 <= n <= 0x0D) || n == 0x20 || n == 0x85 || n == 0xA0 || n == 0x1680
    || (0x2000 <= n <= 0x200A) || n == 0x2028 || n == 0x2029 || n == 0x202F
    || n == 0x205F || n == 0x3000
  }

  /** `IsWhitespace` holds of exactly the listed White_Space code points. */
  lemma IsWhitespaceCodePoints(c: char)
    ensures IsWhitespace(c) <==> c as int in WhiteSpaceCodePoints
  {
  }

  predicate AllWhitespace(s: string) {
    forall i :: 0 <= i < |s| ==> IsWhitespace(s[i])
  }

  /** A word as `split_whitespace` yields it: non-empty, without whitespace. */
  predicate IsWord(w: string) {
    |w| > 0 && forall i :: 0 <= i < |w| ==> !IsWhitespace(w[i])
  }

  predicate AllWords(ws: seq<string>) {
    forall i :: 0 <= i < |ws| ==> IsWord(ws[i])
  }

  /** Length of the run of non-whitespace characters at the front of `s`. */
  function WordLength(s: string): (n: nat)
    ensures n <= |s|
    ensures forall i :: 0 <= i < n ==> !IsWhitespace(s[i])
    ensures n < |s| ==> IsWhitespace(s[n])
  {
    if |s| == 0 || IsWhitespace(s[0]) then 0 else 1 + WordLength(s[1..])
  }

  /** `s.split_whitespace()`, collected. */
  function Split(s: string): (ws: seq<string>)
    ensures AllWords(ws)
    decreases |s|
  {
    if |s| == 0 then []
    else if IsWhitespace(s[0]) then Split(s[1..])
    else
      var n := WordLength(s);
      [s[..n]] + Split(s[n..])
  }

  /** itertools' `join(" ")`: the words separated by single spaces. */
  function Join(ws: seq<string>): string {
    if |ws| == 0 then ""
    else if |ws| == 1 then ws[0]
    else ws[0] + " " + Join(ws[1..])
  }

  /**
    Joined words start with the first word, followed by a single space when
    more words come; they are empty only when there are no words, and
    neither start nor end with whitespace.
   */
  lemma {:induction false} JoinShape(ws: seq<string>)
    requires AllWords(ws)
    ensures |ws| > 0 ==> ws[0] <= Join(ws)
    ensures |ws| > 1 ==> |Join(ws)| > |ws[0]| && Join(ws)[|ws[0]|] == ' '
    ensures |Join(ws)| == 0 <==> |ws| == 0
    ensures |Join(ws)| > 0 ==> !IsWhitespace(Join(ws)[0]) && !IsWhitespace(Join(ws)[|Join(ws)| - 1])
    decreases |ws|
  {
    if |ws| > 1 {
      JoinShape(ws[1..]);
      var rest := Join(ws[1..]);
      assert Join(ws) == ws[0] + " " + rest;
      assert Join(ws)[..|ws[0]|] == ws[0];
      assert Join(ws)[|Join(ws)| - 1] == rest[|rest| - 1];
    }
  }

  /** A line splits into no words exactly when it is blank. */
  lemma {:induction false} SplitEmptyIff(s: string)
    ensures Split(s) == [] <==> AllWhitespace(s)
    decreases |s|
  {
    if |s| > 0 && IsWhitespace(s[0]) {
      SplitEmptyIff(s[1..]);
      assert AllWhitespace(s) <==> AllWhitespace(s[1..]) by {
        if AllWhitespace(s[1..]) {
          forall i | 0 <= i < |s| ensures IsWhitespace(s[i]) {
            if i > 0 { assert s[i] == s[1..][i - 1]; }
          }
        }
      }
    }
  }

  /** Whitespace in front of a line does not change its words. */
  lemma {:induction false} SplitLeadingWhitespace(w: string, s: string)
    requires AllWhitespace(w)
    ensures Split(w + s) == Split(s)
    decreases |w|
  {
    if |w| > 0 {
      var t := w + s;
      assert t[0] == w[0] && IsWhitespace(w[0]);
      assert t[1..] == w[1..] + s;
      assert AllWhitespace(w[1..]) by {
        forall i | 0 <= i < |w[1..]| ensures IsWhitespace(w[1..][i]) {
          assert w[1..][i] == w[i + 1];
        }
      }
      SplitLeadingWhitespace(w[1..], s);
      SplitBlankFront(t);
    } else {
      assert w + s == s;
    }
  }

  /** Appending text that starts with whitespace does not lengthen the leading word. */
  lemma {:induction false} WordLengthAppend(a: string, b: string)
    requires WordLength(a) < |a| || |b| == 0 || IsWhitespace(b[0])
    ensures WordLength(a + b) == WordLength(a)
    decreases |a|
  {
    if |a| == 0 {
      assert a + b == b;
    } else if !IsWhitespace(a[0]) {
      assert (a + b)[0] == a[0];
      assert (a + b)[1..] == a[1..] + b;
      WordLengthAppend(a[1..], b);
    } else {
      assert (a + b)[0] == a[0];
    }
  }

  /** A non-empty run of whitespace separates the words on its two sides. */
  lemma {:induction false} SplitAround(a: string, w: string, b: string)
    requires AllWhitespace(w) && |w| > 0
    ensures Split(a + w + b) == Split(a) + Split(b)
    decreases |a|, 1
  {
    if |a| == 0 {
      assert a + w + b == w + b;
      SplitLeadingWhitespace(w, b);
    } else if IsWhitespace(a[0]) {
      var s := a + w + b;
      assert s[0] == a[0];
      assert s[1..] == a[1..] + w + b;
      SplitAround(a[1..], w, b);
      SplitBlankFront(s);
      SplitBlankFront(a);
    } else {
      SplitAroundWord(a, w, b);
    }
  }

  /** `SplitAround` when `a` starts with a word: that word ends inside `a`. */
  lemma {:induction false} SplitAroundWord(a: string, w: string, b: string)
    requires AllWhitespace(w) && |w| > 0
    requires |a| > 0 && !IsWhitespace(a[0])
    ensures Split(a + w + b) == Split(a) + Split(b)
    decreases |a|, 0
  {
    var n := WordLength(a);
    assert (w + b)[0] == w[0];
    WordLengthAppend(a, w + b);
    SplitAround(a[n..], w, b);
    assert a[n..] + (w + b) == a[n..] + w + b;
    SplitFrontWordAppend(a, w + b, Split(b));
    assert a + (w + b) == a + w + b;
  }

  /**
    Appending `t` to a text that starts with a word keeps that word whole
    and adds the words `t` contributes after the rest of the text.
   */
  lemma SplitFrontWordAppend(a: string, t: string, more: seq<string>)
    requires |a| > 0 && !IsWhitespace(a[0])
    requires WordLength(a + t) == WordLength(a)
    requires Split(a[WordLength(a)..] + t) == Split(a[WordLength(a)..]) + more
    ensures Split(a + t) == Split(a) + more
  {
    var n := WordLength(a);
    var s := a + t;
    SlicesOfConcat(a, t, n);
    SplitNonBlankFront(s);
    SplitNonBlankFront(a);
    var tail := Split(a[n..]);
    assert [a[..n]] + (tail + more) == [a[..n]] + tail + more;
  }

  /** Slicing a concatenation at a point inside its first part. */
  lemma SlicesOfConcat(a: string, t: string, n: nat)
    requires n <= |a|
    ensures (a + t)[..n] == a[..n] && (a + t)[n..] == a[n..] + t
    ensures |a| > 0 ==> (a + t)[0] == a[0]
  {
  }

  /** Whitespace at the front of a line is skipped. */
  lemma SplitBlankFront(s: string)
    requires |s| > 0 && IsWhitespace(s[0])
    ensures Split(s) == Split(s[1..])
  {
  }

  /** A line that starts with a word splits into that word and the rest. */
  lemma SplitNonBlankFront(s: string)
    requires |s| > 0 && !IsWhitespace(s[0])
    ensures Split(s) == [s[..WordLength(s)]] + Split(s[WordLength(s)..])
  {
  }

  /** Whitespace at the end of a line does not change its words. */
  lemma SplitTrailingWhitespace(s: string, w: string)
    requires AllWhitespace(w)
    ensures Split(s + w) == Split(s)
  {
    if |w| == 0 {
      assert s + w == s;
    } else {
      SplitAround(s, w, "");
      assert s + w + "" == s + w;
    }
  }

  /** A word splits into itself. */
  lemma SplitWord(w: string)
    requires IsWord(w)
    ensures Split(w) == [w]
  {
    assert WordLength(w) == |w|;
    assert w[..|w|] == w;
    assert w[|w|..] == "";
  }

  /** Round trip: splitting words joined by single spaces gives the words back. */
  lemma {:induction false} SplitJoin(ws: seq<string>)
    requires AllWords(ws)
    ensures Split(Join(ws)) == ws
    decreases |ws|
  {
    if |ws| == 1 {
      SplitWord(ws[0]);
    } else if |ws| > 1 {
      assert AllWhitespace(" ");
      SplitAround(ws[0], " ", Join(ws[1..]));
      SplitWord(ws[0]);
      SplitJoin(ws[1..]);
      assert ws == [ws[0]] + ws[1..];
    }
  }
}

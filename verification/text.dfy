/** String helpers shared by the backend and the frontend model: a
    whitespace class that Python's `str.strip` and JavaScript's `trim` both
    remove, stripping, ASCII case folding, and split/join on a separator. */
module Text {

  /** A subset of the characters that both `str.strip` and
      `String.prototype.trim` remove: the ASCII controls tab, line feed,
      vertical tab, form feed and carriage return, the space, the no-break
      space and the ideographic space. Both also remove U+1680, U+2000 to
      U+200A, U+2028, U+2029, U+202F and U+205F, which are not modelled. */
  predicate IsWhitespace(c: char) {
    c == ' ' || c == '\t' || c == '\n' || c == '\U{B}' || c == '\U{C}' || c == '\r'
    || c == '\U{A0}' || c == '\U{3000}'
  }

  predicate AllWhitespace(s: string) {
    forall i :: 0 <= i < |s| ==> IsWhitespace(s[i])
  }

  /** Neither end of `s` is whitespace. */
  predicate IsTrimmed(s: string) {
    |s| == 0 || (!IsWhitespace(s[0]) && !IsWhitespace(s[|s| - 1]))
  }

  /** The index of the first non-whitespace character at or after `i`, or
      `|s|` when there is none. */
  function SkipSpaces(s: string, i: nat): (j: nat)
    requires i <= |s|
    ensures i <= j <= |s|
    ensures forall k :: i <= k < j ==> IsWhitespace(s[k])
    ensures j == |s| || !IsWhitespace(s[j])
    decreases |s| - i
  {
    if i == |s| || !IsWhitespace(s[i]) then i else SkipSpaces(s, i + 1)
  }

  /** Going back from `j` but not below `lo`: the end of the last
      non-whitespace character, or `lo` when there is none in between. */
  function SkipSpacesBack(s: string, lo: nat, j: nat): (e: nat)
    requires lo <= j <= |s|
    ensures lo <= e <= j
    ensures forall k :: e <= k < j ==> IsWhitespace(s[k])
    ensures e == lo || !IsWhitespace(s[e - 1])
    decreases j
  {
    if j == lo || !IsWhitespace(s[j - 1]) then j else SkipSpacesBack(s, lo, j - 1)
  }

  /** Python `str.strip()` and JavaScript `trim()` on the whitespace class
      above: what lies between the leading and the trailing whitespace. */
  function Strip(s: string): (r: string)
    ensures IsTrimmed(r)
    ensures |r| <= |s|
    ensures r == "" <==> AllWhitespace(s)
  {
    var a := SkipSpaces(s, 0);
    var b := SkipSpacesBack(s, a, |s|);
    assert a == b ==> AllWhitespace(s) by {
      if a == b {
        assert forall k :: 0 <= k < |s| ==> IsWhitespace(s[k]) by {
          forall k | 0 <= k < |s| ensures IsWhitespace(s[k]) {
            if k >= a { assert b <= k < |s|; }
          }
        }
      }
    }
    s[a..b]
  }

  /** `Strip(s)` is the slice between two whitespace runs. */
  lemma StripBounds(s: string) returns (a: nat, b: nat)
    ensures a <= b <= |s| && Strip(s) == s[a..b]
    ensures forall k :: 0 <= k < a ==> IsWhitespace(s[k])
    ensures forall k :: b <= k < |s| ==> IsWhitespace(s[k])
  {
    a := SkipSpaces(s, 0);
    b := SkipSpacesBack(s, a, |s|);
  }

  lemma SliceWhitespace(s: string, a: nat, b: nat)
    requires a <= b <= |s|
    requires forall k :: a <= k < b ==> IsWhitespace(s[k])
    ensures AllWhitespace(s[a..b])
  {
    assert forall k :: 0 <= k < b - a ==> s[a..b][k] == s[a + k];
  }

  lemma ThreeSlices(s: string, a: nat, b: nat)
    requires a <= b <= |s|
    ensures s == s[..a] + s[a..b] + s[b..]
  {
    assert s[..a] + s[a..b] == s[..b];
  }

  /** A string is its stripped core between two runs of whitespace. */
  lemma StripDecompose(s: string) returns (w1: string, w2: string)
    ensures AllWhitespace(w1) && AllWhitespace(w2)
    ensures s == w1 + Strip(s) + w2
  {
    var a, b := StripBounds(s);
    SliceWhitespace(s, 0, a);
    SliceWhitespace(s, b, |s|);
    ThreeSlices(s, a, b);
    assert s[0..a] == s[..a] && s[b..|s|] == s[b..];
    w1, w2 := s[..a], s[b..];
  }

  /** Stripping recovers the core of a padded string: whitespace around a
      trimmed string is exactly what `Strip` removes. */
  lemma StripPadded(w1: string, t: string, w2: string)
    requires AllWhitespace(w1) && AllWhitespace(w2) && IsTrimmed(t)
    ensures Strip(w1 + t + w2) == t
  {
    var s := w1 + t + w2;
    if |t| == 0 {
      assert AllWhitespace(s) by {
        assert forall k :: 0 <= k < |s| ==> s[k] == if k < |w1| then w1[k] else w2[k - |w1|];
      }
    } else {
      var m, n := |w1|, |w1| + |t|;
      assert forall k :: 0 <= k < m ==> s[k] == w1[k];
      assert forall k :: n <= k < |s| ==> s[k] == w2[k - n];
      assert s[m] == t[0] && s[n - 1] == t[|t| - 1];
      var a := SkipSpaces(s, 0);
      assert a == m;
      var b := SkipSpacesBack(s, a, |s|);
      assert b == n;
      assert s[m..n] == t;
    }
  }

  /** Stripping twice is stripping once. */
  lemma StripIdempotent(s: string)
    ensures Strip(Strip(s)) == Strip(s)
  {
    var t := Strip(s);
    assert "" + t + "" == t;
    StripPadded("", t, "");
  }

  /** ASCII case folding; every other character is left as it is. */
  function LowerChar(c: char): char {
    if 'A' <= c <= 'Z' then (c as int + 32) as char else c
  }

  function Lower(s: string): (r: string)
    ensures |r| == |s|
    ensures forall i :: 0 <= i < |s| ==> r[i] == LowerChar(s[i])
  {
    seq(|s|, i requires 0 <= i < |s| => LowerChar(s[i]))
  }

  lemma LowerConcat(a: string, b: string)
    ensures Lower(a + b) == Lower(a) + Lower(b)
  {
  }

  lemma LowerKeepsWhitespace(s: string)
    ensures AllWhitespace(s) <==> AllWhitespace(Lower(s))
    ensures IsTrimmed(s) <==> IsTrimmed(Lower(s))
  {
  }

  lemma Regroup(a: string, b: string, c: string, d: string, e: string)
    ensures a + (b + c + d) + e == (a + b) + c + (d + e)
  {
  }

  lemma AllWhitespaceConcat(a: string, b: string)
    requires AllWhitespace(a) && AllWhitespace(b)
    ensures AllWhitespace(a + b)
  {
  }

  /** Extra whitespace around a string does not change its stripped form. */
  lemma StripIgnoresPadding(w1: string, s: string, w2: string)
    requires AllWhitespace(w1) && AllWhitespace(w2)
    ensures Strip(w1 + s + w2) == Strip(s)
  {
    var u1, u2 := StripDecompose(s);
    var t := Strip(s);
    Regroup(w1, u1, t, u2, w2);
    AllWhitespaceConcat(w1, u1);
    AllWhitespaceConcat(u2, w2);
    StripPadded(w1 + u1, t, u2 + w2);
  }

  /** Case folding neither creates nor removes whitespace, so it commutes with stripping. */
  lemma LowerStripCommute(s: string)
    ensures Strip(Lower(s)) == Lower(Strip(s))
  {
    var r := Strip(s);
    var w1, w2 := StripDecompose(s);
    LowerConcat(w1 + r, w2);
    LowerConcat(w1, r);
    LowerKeepsWhitespace(w1);
    LowerKeepsWhitespace(w2);
    LowerKeepsWhitespace(r);
    StripPadded(Lower(w1), Lower(r), Lower(w2));
  }

  lemma LowerIdempotent(s: string)
    ensures Lower(Lower(s)) == Lower(s)
  {
  }

  /** Stripping only removes characters: whatever is left was in `s`. */
  lemma StripKeepsOwnChars(s: string, c: char)
    requires c in Strip(s)
    ensures c in s
  {
    var w1, w2 := StripDecompose(s);
    assert s == w1 + Strip(s) + w2;
  }

  /** Every piece stripped, the blank ones dropped, the order kept: the
      frontend's `.map((item) => item.trim()).filter(Boolean)` and the seed
      loader's skipping of blank lines. */
  function CleanPieces(pieces: seq<string>): (r: seq<string>)
    ensures |r| <= |pieces|
    ensures forall k :: 0 <= k < |r| ==> r[k] != "" && IsTrimmed(r[k])
    ensures forall i :: 0 <= i < |pieces| && !AllWhitespace(pieces[i]) ==> Strip(pieces[i]) in r
    ensures StrippedFrom(r, pieces)
    decreases |pieces|
  {
    if |pieces| == 0 then []
    else
      var rest := CleanPieces(pieces[1..]);
      assert forall i :: 1 <= i < |pieces| ==> pieces[i] == pieces[1..][i - 1];
      StrippedFromTail(pieces, rest);
      if Strip(pieces[0]) == "" then rest else StrippedFromHead(pieces, rest); [Strip(pieces[0])] + rest
  }

  /** `x` is the stripped form of one of the pieces. */
  predicate StrippedPiece(x: string, pieces: seq<string>) {
    exists i :: 0 <= i < |pieces| && x == Strip(pieces[i])
  }

  /** Every item is the stripped form of one of the pieces. */
  predicate StrippedFrom(r: seq<string>, pieces: seq<string>) {
    forall k :: 0 <= k < |r| ==> StrippedPiece(r[k], pieces)
  }

  /** The stripped form of a later piece is the stripped form of a piece. */
  lemma StrippedPieceTail(x: string, pieces: seq<string>)
    requires |pieces| > 0 && StrippedPiece(x, pieces[1..])
    ensures StrippedPiece(x, pieces)
  {
    var tail := pieces[1..];
    var j :| 0 <= j < |tail| && x == Strip(tail[j]);
    assert tail[j] == pieces[j + 1];
  }

  lemma StrippedFromTail(pieces: seq<string>, rest: seq<string>)
    requires |pieces| > 0 && StrippedFrom(rest, pieces[1..])
    ensures StrippedFrom(rest, pieces)
  {
    forall k | 0 <= k < |rest|
      ensures StrippedPiece(rest[k], pieces)
    {
      StrippedPieceTail(rest[k], pieces);
    }
  }

  lemma StrippedFromHead(pieces: seq<string>, rest: seq<string>)
    requires |pieces| > 0 && StrippedFrom(rest, pieces)
    ensures StrippedFrom([Strip(pieces[0])] + rest, pieces)
  {
    var r := [Strip(pieces[0])] + rest;
    forall k | 0 <= k < |r|
      ensures StrippedPiece(r[k], pieces)
    {
      if k == 0 {
        assert r[0] == Strip(pieces[0]);
      } else {
        assert r[k] == rest[k - 1];
      }
    }
  }

  /** A character absent from every piece is absent from every cleaned item. */
  lemma {:induction false} CleanPiecesKeepAbsent(pieces: seq<string>, c: char)
    requires forall i :: 0 <= i < |pieces| ==> c !in pieces[i]
    ensures forall k :: 0 <= k < |CleanPieces(pieces)| ==> c !in CleanPieces(pieces)[k]
    decreases |pieces|
  {
    if |pieces| > 0 {
      assert forall i :: 1 <= i < |pieces| ==> pieces[i] == pieces[1..][i - 1];
      CleanPiecesKeepAbsent(pieces[1..], c);
      if c in Strip(pieces[0]) {
        StripKeepsOwnChars(pieces[0], c);
      }
    }
  }

  /** Cleaning goes piece by piece: cleaning two concatenated lists is
      cleaning each and concatenating. */
  lemma {:induction false} CleanPiecesAppend(a: seq<string>, b: seq<string>)
    ensures CleanPieces(a + b) == CleanPieces(a) + CleanPieces(b)
    decreases |a|
  {
    if |a| == 0 {
      assert a + b == b;
    } else {
      assert (a + b)[1..] == a[1..] + b;
      CleanPiecesAppend(a[1..], b);
    }
  }

  /** JavaScript `String.prototype.split` with a one-character separator:
      the pieces between separators, including empty ones; never empty. */
  function Split(s: string, sep: char): (parts: seq<string>)
    ensures |parts| >= 1
    ensures forall i :: 0 <= i < |parts| ==> sep !in parts[i]
    decreases |s|
  {
    if |s| == 0 then [""]
    else
      var rest := Split(s[1..], sep);
      if s[0] == sep then [""] + rest
      else [[s[0]] + rest[0]] + rest[1..]
  }

  /** The items' lengths added up. */
  function TotalLength(xs: seq<string>): nat
    decreases |xs|
  {
    if |xs| == 0 then 0 else |xs[0]| + TotalLength(xs[1..])
  }

  /** `Array.prototype.join` and Python's `str.join`: the items in order, one
      separator between each pair. */
  function Join(xs: seq<string>, sep: string): (r: string)
    ensures |xs| == 0 ==> r == ""
    ensures |xs| > 0 ==> |xs[0]| <= |r| && r[..|xs[0]|] == xs[0]
    decreases |xs|
  {
    if |xs| == 0 then ""
    else if |xs| == 1 then xs[0]
    else xs[0] + sep + Join(xs[1..], sep)
  }

  /** The joined text is as long as the items together plus one separator
      between each pair. */
  lemma {:induction false} JoinLength(xs: seq<string>, sep: string)
    requires |xs| > 0
    ensures |Join(xs, sep)| == TotalLength(xs) + (|xs| - 1) * |sep|
    decreases |xs|
  {
    if |xs| >= 2 {
      JoinLength(xs[1..], sep);
      assert (|xs| - 2) * |sep| + |sep| == (|xs| - 1) * |sep|;
    }
  }

  /** Joining the pieces back with the separator restores the string. */
  lemma {:induction false} SplitThenJoin(s: string, sep: char)
    ensures Join(Split(s, sep), [sep]) == s
    decreases |s|
  {
    if |s| > 0 {
      var rest := Split(s[1..], sep);
      SplitThenJoin(s[1..], sep);
      if s[0] == sep {
        assert Split(s, sep)[1..] == rest;
        assert s == [sep] + s[1..];
      } else {
        var parts := Split(s, sep);
        assert parts[1..] == rest[1..];
        if |rest| == 1 {
          assert s == [s[0]] + s[1..];
        } else {
          assert Join(rest, [sep]) == rest[0] + [sep] + Join(rest[1..], [sep]);
          assert s == [s[0]] + s[1..];
        }
      }
    }
  }

  /** A separator-free head splits off as one piece. */
  /** Splitting at one separator occurrence: the pieces of the text before it
      followed by the pieces of the text after it. */
  lemma {:induction false} SplitAppend(a: string, sep: char, b: string)
    ensures Split(a + [sep] + b, sep) == Split(a, sep) + Split(b, sep)
    decreases |a|
  {
    var x := a + [sep] + b;
    if |a| == 0 {
      assert x == [sep] + b;
      SplitCons(sep, b, sep);
    } else {
      var y := a[1..] + [sep] + b;
      assert x == [a[0]] + y;
      assert a == [a[0]] + a[1..];
      SplitAppend(a[1..], sep, b);
      SplitCons(a[0], y, sep);
      SplitCons(a[0], a[1..], sep);
      ExtendFirstPiece(a[0], Split(a[1..], sep), Split(b, sep));
    }
  }

  lemma ExtendFirstPiece(c: char, r: seq<string>, t: seq<string>)
    requires |r| >= 1
    ensures [[c] + (r + t)[0]] + (r + t)[1..] == ([[c] + r[0]] + r[1..]) + t
    ensures [""] + (r + t) == ([""] + r) + t
  {
    assert (r + t)[1..] == r[1..] + t;
  }

  /** One step of `Split`: the first character either ends the first piece or
      joins it. */
  lemma SplitCons(c: char, s: string, sep: char)
    ensures Split([c] + s, sep) == if c == sep then [""] + Split(s, sep)
                                   else [[c] + Split(s, sep)[0]] + Split(s, sep)[1..]
  {
    assert ([c] + s)[1..] == s;
  }

  lemma {:induction false} SplitAfterPiece(x: string, sep: char, t: string)
    requires sep !in x
    ensures Split(x + [sep] + t, sep) == [x] + Split(t, sep)
    decreases |x|
  {
    if |x| == 0 {
      assert x + [sep] + t == [sep] + t;
      assert ([sep] + t)[1..] == t;
    } else {
      assert (x + [sep] + t)[1..] == x[1..] + [sep] + t;
      SplitAfterPiece(x[1..], sep, t);
      assert [x[0]] + x[1..] == x;
    }
  }

  lemma {:induction false} SplitSeparatorFree(x: string, sep: char)
    requires sep !in x
    ensures Split(x, sep) == [x]
    decreases |x|
  {
    if |x| > 0 {
      SplitSeparatorFree(x[1..], sep);
      assert [x[0]] + x[1..] == x;
    }
  }

  /** Splitting a join of separator-free pieces gives the pieces back. */
  lemma {:induction false} JoinThenSplit(xs: seq<string>, sep: char)
    requires |xs| >= 1
    requires forall i :: 0 <= i < |xs| ==> sep !in xs[i]
    ensures Split(Join(xs, [sep]), sep) == xs
    decreases |xs|
  {
    if |xs| == 1 {
      SplitSeparatorFree(xs[0], sep);
    } else {
      JoinThenSplit(xs[1..], sep);
      SplitAfterPiece(xs[0], sep, Join(xs[1..], [sep]));
      assert xs == [xs[0]] + xs[1..];
    }
  }
}

/**
  The string operations the reader relies on: Python's `str.strip()`,
  `str.split(' ')` and `re.split('[...]', s)` followed by `filter(None, ...)`.
  Strings are sequences of characters; no encoding is involved.
 */
module Text {

  /** The characters Python's `str.isspace` accepts, which `str.strip()` removes. */
  predicate IsSpace(c: char) {
    || c == ' ' || c == '\t' || c == '\n' || c == '\r'
    || c == '\U{000B}' || c == '\U{000C}'
    || ('\U{001C}' <= c <= '\U{001F}')
    || c == '\U{0085}' || c == '\U{00A0}' || c == '\U{1680}'
    || ('\U{2000}' <= c <= '\U{200A}')
    || c == '\U{2028}' || c == '\U{2029}' || c == '\U{202F}'
    || c == '\U{205F}' || c == '\U{3000}'
  }

  /** Every character of `s` from `lo` up to `hi` is white space. */
  predicate SpaceBetween(s: string, lo: int, hi: int) {
    forall k :: lo <= k < hi && 0 <= k < |s| ==> IsSpace(s[k])
  }

  /** How many white-space characters `s` starts with. */
  function LeadingSpace(s: string): (n: nat)
    ensures n <= |s| && SpaceBetween(s, 0, n)
    ensures n < |s| ==> !IsSpace(s[n])
  {
    if |s| > 0 && IsSpace(s[0]) then
      var m := LeadingSpace(s[1..]);
      assert forall k :: 1 <= k < |s| ==> s[k] == s[1..][k - 1];
      1 + m
    else 0
  }

  /** Where the white space that `s` ends with begins. */
  function TrailingSpace(s: string): (j: nat)
    ensures j <= |s| && SpaceBetween(s, j, |s|)
    ensures 0 < j ==> !IsSpace(s[j - 1])
  {
    if |s| > 0 && IsSpace(s[|s| - 1]) then TrailingSpace(s[..|s| - 1]) else |s|
  }

  /**
    Python's `s.strip()`: the result is the part of `s` left between a
    white-space prefix and a white-space suffix, and neither of its ends is
    white space.
   */
  function Strip(s: string): (r: string)
    ensures exists i | 0 <= i <= |s| - |r| ::
      r == s[i..i + |r|] && SpaceBetween(s, 0, i) && SpaceBetween(s, i + |r|, |s|)
    ensures r == [] || (!IsSpace(r[0]) && !IsSpace(r[|r| - 1]))
  {
    var i := LeadingSpace(s);
    if i == |s| then
      assert s[i..i] == [];
      []
    else
      var j := TrailingSpace(s);
      assert i < j;
      s[i..j]
  }

  /** Stripping a line twice is stripping it once. */
  lemma StripIdempotent(s: string)
    ensures Strip(Strip(s)) == Strip(s)
  {
    var r := Strip(s);
    var r2 := Strip(r);
    var i :| 0 <= i <= |r| - |r2| && r2 == r[i..i + |r2|] && SpaceBetween(r, 0, i) && SpaceBetween(r, i + |r2|, |r|);
    assert i == 0 && |r2| == |r|;
  }

  /** Neither end of `s` is white space. */
  predicate Trimmed(s: string) {
    s == [] || (!IsSpace(s[0]) && !IsSpace(s[|s| - 1]))
  }

  /** `strip()` leaves a string alone exactly when neither of its ends is white space. */
  lemma StripTrimmed(s: string)
    ensures Strip(s) == s <==> Trimmed(s)
  {
    if Trimmed(s) && s != [] {
      assert LeadingSpace(s) == 0;
      assert TrailingSpace(s) == |s|;
    }
  }

  /**
    Splits `s` at every character of `delims`, keeping empty pieces: the
    model of `s.split(' ')` (with `delims == {' '}`) and of `re.split` on a
    character class. There is always at least one piece.
   */
  function Split(s: string, delims: set<char>): (r: seq<string>)
    ensures |r| == |Separators(s, delims)| + 1
  {
    if |s| == 0 then [""]
    else
      var rest := Split(s[1..], delims);
      if s[0] in delims then [""] + rest
      else [[s[0]] + rest[0]] + rest[1..]
  }

  /** The delimiter characters of `s`, in order. */
  function Separators(s: string, delims: set<char>): (r: string)
  {
    if |s| == 0 then []
    else if s[0] in delims then [s[0]] + Separators(s[1..], delims)
    else Separators(s[1..], delims)
  }

  /** Glues pieces back together, one separator between each pair. */
  function Interleave(pieces: seq<string>, seps: string): string
    requires |pieces| == |seps| + 1
  {
    if |seps| == 0 then pieces[0]
    else pieces[0] + [seps[0]] + Interleave(pieces[1..], seps[1..])
  }

  /** Splitting loses nothing: the pieces and the separators rebuild the input. */
  lemma {:induction false} SplitRoundTrip(s: string, delims: set<char>)
    ensures Interleave(Split(s, delims), Separators(s, delims)) == s
    ensures forall k :: 0 <= k < |Separators(s, delims)| ==> Separators(s, delims)[k] in delims
  {
    if |s| > 0 {
      SplitRoundTrip(s[1..], delims);
      SplitStep(s, delims);
      var rest := Split(s[1..], delims);
      var seps := Separators(s[1..], delims);
      if s[0] in delims {
        var pieces := [""] + rest;
        assert pieces[1..] == rest;
        assert Interleave(pieces, [s[0]] + seps) == "" + [s[0]] + Interleave(rest, seps);
      } else {
        InterleaveExtendFirst([s[0]], rest, seps);
      }
      assert s == [s[0]] + s[1..];
    }
  }

  /** Lengthening the first piece lengthens the glued string at the front. */
  lemma InterleaveExtendFirst(x: string, p: seq<string>, seps: string)
    requires |p| == |seps| + 1
    ensures Interleave([x + p[0]] + p[1..], seps) == x + Interleave(p, seps)
  {
    var q := [x + p[0]] + p[1..];
    if |seps| > 0 {
      assert q[1..] == p[1..];
      assert Interleave(q, seps) == (x + p[0]) + [seps[0]] + Interleave(p[1..], seps[1..]);
    }
  }

  /** No piece holds a delimiter. */
  lemma {:induction false} SplitPiecesDelimiterFree(s: string, delims: set<char>)
    ensures forall i, k :: 0 <= i < |Split(s, delims)| && 0 <= k < |Split(s, delims)[i]| ==>
      Split(s, delims)[i][k] !in delims
  {
    if |s| > 0 {
      SplitPiecesDelimiterFree(s[1..], delims);
      var rest := Split(s[1..], delims);
      if s[0] !in delims {
        var p := [s[0]] + rest[0];
        assert forall k :: 1 <= k < |p| ==> p[k] == rest[0][k - 1];
        assert forall i :: 1 <= i < |Split(s, delims)| ==> Split(s, delims)[i] == rest[i];
      } else {
        assert forall i :: 1 <= i < |Split(s, delims)| ==> Split(s, delims)[i] == rest[i - 1];
      }
    }
  }

  /** A delimiter separates the pieces of what precedes it from those of what follows it. */
  lemma {:induction false} SplitAtDelimiter(a: string, d: char, b: string, delims: set<char>)
    requires d in delims
    ensures Split(a + [d] + b, delims) == Split(a, delims) + Split(b, delims)
  {
    var s := a + [d] + b;
    if |a| == 0 {
      assert s == [d] + b;
      SplitStep(s, delims);
      assert s[1..] == b;
    } else {
      assert s[0] == a[0] && s[1..] == a[1..] + [d] + b;
      SplitAtDelimiter(a[1..], d, b, delims);
      SplitStep(s, delims);
      SplitStep(a, delims);
      if a[0] !in delims {
        PrependToFirst([a[0]], Split(a[1..], delims), Split(b, delims));
      }
    }
  }

  /** Extending the first piece commutes with appending more pieces. */
  lemma PrependToFirst(x: string, p: seq<string>, q: seq<string>)
    requires |p| > 0
    ensures [x + (p + q)[0]] + (p + q)[1..] == ([x + p[0]] + p[1..]) + q
  {
    assert (p + q)[0] == p[0];
    assert (p + q)[1..] == p[1..] + q;
  }

  /** How the first character decides the first piece. */
  lemma SplitStep(s: string, delims: set<char>)
    requires |s| > 0
    ensures s[0] in delims ==> Split(s, delims) == [""] + Split(s[1..], delims)
    ensures s[0] !in delims ==>
      Split(s, delims) == [[s[0]] + Split(s[1..], delims)[0]] + Split(s[1..], delims)[1..]
  {
  }

  /** A piece without delimiters splits into itself. */
  lemma {:induction false} SplitWithoutDelimiter(w: string, delims: set<char>)
    requires forall k :: 0 <= k < |w| ==> w[k] !in delims
    ensures Split(w, delims) == [w]
  {
    if |w| > 0 {
      SplitWithoutDelimiter(w[1..], delims);
      assert w == [w[0]] + w[1..];
    }
  }

  /** The pieces that are not empty, in order: Python's `list(filter(None, pieces))`. */
  function NonEmpty(pieces: seq<string>): (r: seq<string>)
    ensures |r| <= |pieces|
    ensures forall i :: 0 <= i < |r| ==> r[i] != [] && r[i] in pieces
    ensures forall p :: p in pieces && p != [] ==> p in r
  {
    if |pieces| == 0 then []
    else if pieces[0] == [] then NonEmpty(pieces[1..])
    else [pieces[0]] + NonEmpty(pieces[1..])
  }

  lemma {:induction false} NonEmptyAppend(a: seq<string>, b: seq<string>)
    ensures NonEmpty(a + b) == NonEmpty(a) + NonEmpty(b)
  {
    if |a| > 0 {
      NonEmptyAppend(a[1..], b);
      var ab := a + b;
      assert ab[1..] == a[1..] + b;
      assert ab[0] == a[0];
      if a[0] == [] {
        assert NonEmpty(ab) == NonEmpty(a[1..] + b);
        assert NonEmpty(a) == NonEmpty(a[1..]);
      } else {
        assert NonEmpty(ab) == [a[0]] + (NonEmpty(a[1..]) + NonEmpty(b));
        assert NonEmpty(a) == [a[0]] + NonEmpty(a[1..]);
      }
    } else {
      assert a + b == b;
    }
  }

  /**
    The non-empty runs of `s` between delimiters: `re.split` on a character
    class followed by `filter(None, ...)`. Every token is non-empty and holds
    no delimiter.
   */
  function Tokens(s: string, delims: set<char>): (r: seq<string>)
    ensures forall i :: 0 <= i < |r| ==> r[i] != []
    ensures forall i, k :: 0 <= i < |r| && 0 <= k < |r[i]| ==> r[i][k] !in delims
  {
    SplitPiecesDelimiterFree(s, delims);
    NonEmpty(Split(s, delims))
  }

  /**
    Tokens are the maximal delimiter-free runs: a delimiter between two
    strings separates their tokens, a delimiter-free word is one token, and
    the empty string has none.
   */
  lemma TokensCharacterised(a: string, d: char, b: string, w: string, delims: set<char>)
    requires d in delims
    requires w != [] && forall k :: 0 <= k < |w| ==> w[k] !in delims
    ensures Tokens(a + [d] + b, delims) == Tokens(a, delims) + Tokens(b, delims)
    ensures Tokens(w, delims) == [w]
    ensures Tokens([], delims) == []
  {
    SplitAtDelimiter(a, d, b, delims);
    NonEmptyAppend(Split(a, delims), Split(b, delims));
    SplitWithoutDelimiter(w, delims);
    assert NonEmpty([w]) == [w] + NonEmpty([]);
  }

  /** `w` holds no delimiter. */
  predicate Word(w: string, delims: set<char>) {
    forall k :: 0 <= k < |w| ==> w[k] !in delims
  }

  /** The words glued together with one separator between each pair: `sep.join(words)`. */
  function Join(words: seq<string>, sep: char): string
  {
    if |words| == 0 then ""
    else if |words| == 1 then words[0]
    else words[0] + [sep] + Join(words[1..], sep)
  }

  /** Splitting a join of delimiter-free words at the separator gives the words back. */
  lemma {:induction false} SplitJoin(words: seq<string>, sep: char, delims: set<char>)
    requires |words| > 0 && sep in delims
    requires forall i :: 0 <= i < |words| ==> Word(words[i], delims)
    ensures Split(Join(words, sep), delims) == words
  {
    SplitWithoutDelimiter(words[0], delims);
    if |words| > 1 {
      SplitJoin(words[1..], sep, delims);
      SplitAtDelimiter(words[0], sep, Join(words[1..], sep), delims);
      assert words == [words[0]] + words[1..];
    }
  }

  /** Dropping empty pieces keeps a list that has none. */
  lemma {:induction false} NonEmptyKeepsWords(words: seq<string>)
    requires forall i :: 0 <= i < |words| ==> words[i] != []
    ensures NonEmpty(words) == words
  {
    if |words| > 0 {
      NonEmptyKeepsWords(words[1..]);
      assert words == [words[0]] + words[1..];
    }
  }

  /** Tokenising a join of non-empty delimiter-free words gives the words back. */
  lemma TokensJoin(words: seq<string>, sep: char, delims: set<char>)
    requires |words| > 0 && sep in delims
    requires forall i :: 0 <= i < |words| ==> words[i] != [] && Word(words[i], delims)
    ensures Tokens(Join(words, sep), delims) == words
  {
    SplitJoin(words, sep, delims);
    NonEmptyKeepsWords(words);
  }

  /** A join starts with the first word's first character and ends with the last word's last character. */
  lemma {:induction false} JoinEnds(words: seq<string>, sep: char)
    requires |words| > 0 && forall i :: 0 <= i < |words| ==> words[i] != []
    ensures var j := Join(words, sep);
      |j| > 0 && j[0] == words[0][0] && j[|j| - 1] == words[|words| - 1][|words[|words| - 1]| - 1]
  {
    if |words| > 1 {
      var rest := words[1..];
      JoinEnds(rest, sep);
      var j, tail := Join(words, sep), Join(rest, sep);
      assert j == words[0] + ([sep] + tail);
      assert rest[|rest| - 1] == words[|words| - 1];
      assert j[|j| - 1] == tail[|tail| - 1];
    }
  }
}

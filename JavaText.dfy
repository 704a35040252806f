/**
 * The pieces of java.lang.String and java.util.Scanner that the command engine
 * relies on, written out character by character: whitespace-delimited tokens,
 * the rest of the line, trim, split on ',' and joining with '\n'.
 */
module JavaText {
  import opened Wrappers

  /** Character.isWhitespace, which is the Scanner's default delimiter class. */
  predicate IsWhitespace(c: char) {
    var n := c as int;
    n == 0x20 || 0x09 <= n <= 0x0D || 0x1C <= n <= 0x1F || n == 0x1680
    || 0x2000 <= n <= 0x2006 || 0x2008 <= n <= 0x200A
    || n == 0x2028 || n == 0x2029 || n == 0x205F || n == 0x3000
  }

  /** The line terminators of java.util.regex (what `.` does not match) and of Scanner.nextLine. */
  predicate IsLineTerminator(c: char) {
    c == '\n' || c == '\r' || c as int == 0x85 || c as int == 0x2028 || c as int == 0x2029
  }

  /** Index of the first occurrence of `c` at or after `from`, or |s| when there is none. */
  function Find(s: string, c: char, from: nat): (i: nat)
    requires from <= |s|
    ensures from <= i <= |s|
    ensures forall k :: from <= k < i ==> s[k] != c
    ensures i < |s| ==> s[i] == c
    decreases |s| - from
  {
    if from == |s| || s[from] == c then from else Find(s, c, from + 1)
  }

  /** Index of the first non-whitespace character at or after `from`, or |s|. */
  function SkipWhitespace(s: string, from: nat): (i: nat)
    requires from <= |s|
    ensures from <= i <= |s|
    ensures forall k :: from <= k < i ==> IsWhitespace(s[k])
    ensures i < |s| ==> !IsWhitespace(s[i])
    decreases |s| - from
  {
    if from == |s| || !IsWhitespace(s[from]) then from else SkipWhitespace(s, from + 1)
  }

  /** Index of the first whitespace character at or after `from`, or |s|. */
  function TokenEnd(s: string, from: nat): (i: nat)
    requires from <= |s|
    ensures from <= i <= |s|
    ensures forall k :: from <= k < i ==> !IsWhitespace(s[k])
    ensures i < |s| ==> IsWhitespace(s[i])
    decreases |s| - from
  {
    if from == |s| || IsWhitespace(s[from]) then from else TokenEnd(s, from + 1)
  }

  /** Index of the first line terminator at or after `from`, or |s|. */
  function LineEnd(s: string, from: nat): (i: nat)
    requires from <= |s|
    ensures from <= i <= |s|
    ensures forall k :: from <= k < i ==> !IsLineTerminator(s[k])
    ensures i < |s| ==> IsLineTerminator(s[i])
    decreases |s| - from
  {
    if from == |s| || IsLineTerminator(s[from]) then from else LineEnd(s, from + 1)
  }

  /** A token returned by Scanner.next() and the position just after it. */
  datatype Token = Token(text: string, end: nat)

  /**
   * Scanner.next() from position `pos`: skip the delimiters, then take the
   * longest run of non-whitespace characters; None where next() throws.
   */
  function NextToken(s: string, pos: nat): (r: Option<Token>)
    requires pos <= |s|
    ensures r.Some? ==> pos < r.value.end <= |s| && r.value.text != []
  {
    var i := SkipWhitespace(s, pos);
    if i == |s| then None else Some(Token(s[i..TokenEnd(s, i)], TokenEnd(s, i)))
  }

  /**
   * There is no token exactly when only delimiters are left; a token is a
   * run of non-delimiters preceded by delimiters only and followed by a
   * delimiter or the end.
   */
  lemma NextTokenSpec(s: string, pos: nat)
    requires pos <= |s|
    ensures var r := NextToken(s, pos);
      && (r.None? <==> forall k :: pos <= k < |s| ==> IsWhitespace(s[k]))
      && (r.Some? ==>
        var t := r.value;
        pos < t.end <= |s| && 1 <= |t.text| <= t.end - pos && t.text == s[t.end - |t.text|..t.end]
        && (forall k :: pos <= k < t.end - |t.text| ==> IsWhitespace(s[k]))
        && (forall k :: 0 <= k < |t.text| ==> !IsWhitespace(t.text[k]))
        && (t.end < |s| ==> IsWhitespace(s[t.end])))
  {
  }

  /**
   * Scanner.nextLine() from position `pos`: the characters up to the next line
   * terminator (which is consumed but not returned); None where it throws,
   * that is when nothing at all is left.
   */
  function NextLine(s: string, pos: nat): (r: Option<string>)
    requires pos <= |s|
    ensures r.None? <==> pos == |s|
    ensures r.Some? ==> pos + |r.value| <= |s|
  {
    if pos == |s| then None else Some(s[pos..LineEnd(s, pos)])
  }

  /** The line is the text up to the first line terminator, which is consumed. */
  lemma NextLineSpec(s: string, pos: nat)
    requires pos <= |s|
    ensures var r := NextLine(s, pos);
      r.Some? ==>
      pos + |r.value| <= |s| && r.value == s[pos..pos + |r.value|]
      && (forall k :: 0 <= k < |r.value| ==> !IsLineTerminator(r.value[k]))
      && (pos + |r.value| < |s| ==> IsLineTerminator(s[pos + |r.value|]))
  {
  }

  /** A word after delimiters only, and followed by a delimiter or the end, is the next token. */
  lemma TokenAt(s: string, pos: nat, start: nat, word: string)
    requires pos <= start && start + |word| <= |s| && word != [] && s[start..start + |word|] == word
    requires forall k :: pos <= k < start ==> IsWhitespace(s[k])
    requires forall k :: 0 <= k < |word| ==> !IsWhitespace(word[k])
    requires start + |word| < |s| ==> IsWhitespace(s[start + |word|])
    ensures NextToken(s, pos) == Some(Token(word, start + |word|))
  {
    assert s[start] == word[0];
    assert SkipWhitespace(s, pos) == start;
    forall k | start <= k < start + |word| ensures !IsWhitespace(s[k]) {
      assert s[k] == word[k - start];
    }
    assert TokenEnd(s, start) == start + |word|;
  }

  /** With no line terminator after `pos`, the rest of the line is the rest of the text. */
  lemma LineToEnd(s: string, pos: nat)
    requires pos < |s| && forall k :: pos <= k < |s| ==> !IsLineTerminator(s[k])
    ensures NextLine(s, pos) == Some(s[pos..])
  {
    assert s[pos..LineEnd(s, pos)] == s[pos..];
  }

  /** Index of the first character above U+0020 at or after `from`, or |s|. */
  function TrimLow(s: string, from: nat): (i: nat)
    requires from <= |s|
    ensures from <= i <= |s|
    ensures forall k :: from <= k < i ==> s[k] <= ' '
    ensures i < |s| ==> s[i] > ' '
    decreases |s| - from
  {
    if from == |s| || s[from] > ' ' then from else TrimLow(s, from + 1)
  }

  /** Index just after the last character above U+0020 in s[lo..hi], or `lo` when there is none. */
  function TrimHigh(s: string, lo: nat, hi: nat): (j: nat)
    requires lo <= hi <= |s|
    ensures lo <= j <= hi
    ensures forall k :: j <= k < hi ==> s[k] <= ' '
    ensures lo < j ==> s[j - 1] > ' '
    decreases hi
  {
    if hi == lo || s[hi - 1] > ' ' then hi else TrimHigh(s, lo, hi - 1)
  }

  /** String.trim(): `s` without its leading and trailing characters at or below U+0020. */
  function Trim(s: string): (t: string)
    ensures |t| <= |s|
  {
    var i := TrimLow(s, 0);
    s[i..TrimHigh(s, i, |s|)]
  }

  /**
   * What trim keeps is the part of `s` between its leading and its trailing
   * low characters, and it starts and ends above U+0020.
   */
  lemma TrimSpec(s: string)
    ensures var t := Trim(s); var i := TrimLow(s, 0);
      i + |t| <= |s| && t == s[i..i + |t|]
      && (forall k :: 0 <= k < i ==> s[k] <= ' ')
      && (forall k :: i + |t| <= k < |s| ==> s[k] <= ' ')
    ensures var t := Trim(s); t == [] || (t[0] > ' ' && t[|t| - 1] > ' ')
  {
  }

  /**
   * The result of trim is determined by where the kept part starts and ends:
   * whatever infix has only low characters around it and high characters at
   * its two ends (or is empty in a string of low characters only) is the trim.
   */
  lemma TrimUnique(s: string, i: nat, j: nat)
    requires i <= j <= |s|
    requires forall k :: 0 <= k < i ==> s[k] <= ' '
    requires forall k :: j <= k < |s| ==> s[k] <= ' '
    requires i < j ==> s[i] > ' ' && s[j - 1] > ' '
    requires i == j ==> forall k :: 0 <= k < |s| ==> s[k] <= ' '
    ensures Trim(s) == s[i..j]
  {
    var lo := TrimLow(s, 0);
    var hi := TrimHigh(s, lo, |s|);
    if i < j {
      assert lo == i;
    } else {
      assert lo == |s|;
    }
  }

  /** Trimming twice is trimming once. */
  lemma TrimIdempotent(s: string)
    ensures Trim(Trim(s)) == Trim(s)
  {
    var t := Trim(s);
    TrimSpec(s);
    TrimUnique(t, 0, |t|);
    assert t[0..|t|] == t;
  }

  lemma {:induction false} TrimLowShift(s: string, from: nat)
    requires from <= |s|
    ensures TrimLow(" " + s, from + 1) == TrimLow(s, from) + 1
    decreases |s| - from
  {
    if from < |s| {
      assert (" " + s)[from + 1] == s[from];
      if s[from] <= ' ' { TrimLowShift(s, from + 1); }
    }
  }

  lemma {:induction false} TrimHighShift(s: string, lo: nat, hi: nat)
    requires lo <= hi <= |s|
    ensures TrimHigh(" " + s, lo + 1, hi + 1) == TrimHigh(s, lo, hi) + 1
    decreases hi
  {
    if lo < hi {
      assert (" " + s)[hi] == s[hi - 1];
      if s[hi - 1] <= ' ' { TrimHighShift(s, lo, hi - 1); }
    }
  }

  /** Trim reads off the two ends it finds. */
  lemma TrimBetween(s: string, i: nat, j: nat)
    requires i <= j <= |s| && TrimLow(s, 0) == i && TrimHigh(s, i, |s|) == j
    ensures Trim(s) == s[i..j]
  {
  }

  /** A leading space makes no difference to trim. */
  lemma TrimIgnoresLeadingSpace(s: string)
    ensures Trim(" " + s) == Trim(s)
  {
    var u := " " + s;
    var i := TrimLow(s, 0);
    var j := TrimHigh(s, i, |s|);
    TrimLowShift(s, 0);
    TrimHighShift(s, i, |s|);
    assert TrimLow(u, 0) == i + 1 by { assert u[0] == ' '; }
    TrimBetween(u, i + 1, j + 1);
    SliceAfterSpace(s, i, j);
  }

  lemma SliceAfterSpace(s: string, i: nat, j: nat)
    requires i <= j <= |s|
    ensures (" " + s)[i + 1..j + 1] == s[i..j]
  {
  }

  /** The pieces of `s` between the occurrences of `d` (every piece kept, empty ones too). */
  function Pieces(s: string, d: char): (r: seq<string>)
    ensures |r| >= 1
    ensures forall k :: 0 <= k < |r| ==> d !in r[k]
    decreases |s|
  {
    var i := Find(s, d, 0);
    if i == |s| then [s] else [s[..i]] + Pieces(s[i + 1..], d)
  }

  /** Removes the empty strings at the end of a list. */
  function DropTrailingEmpty(parts: seq<string>): (r: seq<string>)
    ensures r <= parts
    ensures r == [] || r[|r| - 1] != []
    ensures forall k :: |r| <= k < |parts| ==> parts[k] == []
  {
    if parts != [] && parts[|parts| - 1] == [] then DropTrailingEmpty(parts[..|parts| - 1]) else parts
  }

  /**
   * String.split(",") with limit zero: a string with no delimiter is returned
   * whole (even when empty); otherwise the pieces, less the trailing empty ones.
   */
  function JavaSplit(s: string, d: char): (r: seq<string>)
    ensures d !in s ==> r == [s]
    ensures d in s ==> r <= Pieces(s, d) && (r == [] || r[|r| - 1] != [])
    ensures d in s ==> forall k :: |r| <= k < |Pieces(s, d)| ==> Pieces(s, d)[k] == []
  {
    if d !in s then [s] else DropTrailingEmpty(Pieces(s, d))
  }

  /** The pieces joined with `d` between them and none at the end. */
  function Join(parts: seq<string>, d: char): string
  {
    if parts == [] then []
    else if |parts| == 1 then parts[0]
    else Join(parts[..|parts| - 1], d) + [d] + parts[|parts| - 1]
  }

  /** Joining with `d` after the first element: the recurrence read from the front. */
  lemma JoinFront(parts: seq<string>, d: char)
    requires |parts| >= 2
    ensures Join(parts, d) == parts[0] + [d] + Join(parts[1..], d)
    decreases |parts|
  {
    if |parts| > 2 {
      JoinFront(parts[..|parts| - 1], d);
      assert parts[..|parts| - 1][1..] == parts[1..][..|parts| - 2];
    }
  }

  /** Nothing is lost in splitting: the pieces joined with the delimiter give the text back. */
  lemma {:induction false} JoinPieces(s: string, d: char)
    ensures Join(Pieces(s, d), d) == s
    decreases |s|
  {
    var i := Find(s, d, 0);
    if i < |s| {
      var rest := s[i + 1..];
      var parts := Pieces(s, d);
      JoinPieces(rest, d);
      assert parts == [s[..i]] + Pieces(rest, d);
      JoinFront(parts, d);
      assert parts[1..] == Pieces(rest, d);
      assert s == s[..i] + [d] + rest;
    }
  }

  /** Find from 0 lands on the first occurrence. */
  lemma FindFirst(s: string, d: char, i: nat)
    requires i < |s| && s[i] == d
    requires forall k :: 0 <= k < i ==> s[k] != d
    ensures Find(s, d, 0) == i
  {
  }

  /** Splitting a join gives the pieces back, as long as no piece holds the delimiter. */
  lemma {:induction false} PiecesOfJoin(parts: seq<string>, d: char)
    requires parts != []
    requires forall k :: 0 <= k < |parts| ==> d !in parts[k]
    ensures Pieces(Join(parts, d), d) == parts
    decreases |parts|
  {
    if |parts| == 1 {
      assert Join(parts, d) == parts[0];
    } else {
      var p := parts[0];
      var rest := Join(parts[1..], d);
      var s := p + [d] + rest;
      JoinFront(parts, d);
      assert Join(parts, d) == s;
      forall k | 0 <= k < |p| ensures s[k] != d {
        assert s[k] == p[k];
      }
      FindFirst(s, d, |p|);
      assert s[..|p|] == p;
      assert s[|p| + 1..] == rest;
      PiecesOfJoin(parts[1..], d);
      assert Pieces(s, d) == [p] + Pieces(rest, d);
    }
  }

  /** `w` minus |s| spaces, or none when `s` is at least `w` long. */
  function Spaces(s: string, w: nat): (r: string)
    ensures |r| == if |s| < w then w - |s| else 0
    ensures forall k :: 0 <= k < |r| ==> r[k] == ' '
  {
    if |s| < w then seq(w - |s|, _ => ' ') else []
  }

  /** `%-ws`: the text left-justified in a field of width w, padded with spaces. */
  function PadRight(s: string, w: nat): string {
    s + Spaces(s, w)
  }

  /** `%ws`: the text right-justified in a field of width w, padded with spaces. */
  function PadLeft(s: string, w: nat): string {
    Spaces(s, w) + s
  }
}

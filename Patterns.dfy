/**
 * The regular expressions of ChatServer.java as predicates, exactly as
 * written: `\w{1,10}` for user names at handshake, the user-selector
 * `((\w{1,10}|(\w{1,10},\w{1,10})*)|\*)`, and the whole-line patterns that
 * decide ADMIN, KICK, NOTIFY and TELL. In java.util.regex without flags, `\w`
 * is [a-zA-Z_0-9] and `.` matches anything but a line terminator.
 */
module Patterns {
  import opened JavaText

  /** `\w`: an ASCII letter, digit or underscore. */
  predicate IsWordChar(c: char) {
    'a' <= c <= 'z' || 'A' <= c <= 'Z' || '0' <= c <= '9' || c == '_'
  }

  /** `\w{1,10}`: the user-name shape; digits are admitted. */
  predicate IsName(s: string) {
    1 <= |s| <= 10 && forall k :: 0 <= k < |s| ==> IsWordChar(s[k])
  }

  /** `(\w{1,10},\w{1,10})*`: zero or more pairs, written back to back with nothing between them. */
  predicate IsPairList(s: string)
    decreases |s|, 1
  {
    s == [] || exists a, b :: 1 <= a <= 10 && 1 <= b <= 10 && PairAt(s, a, b)
  }

  /** `s` starts with a pair whose two names are `a` and `b` characters long, and the rest is a pair list. */
  predicate PairAt(s: string, a: int, b: int)
    decreases |s|, 0
  {
    1 <= a && 1 <= b && a + 1 + b <= |s|
    && IsName(s[..a]) && s[a] == ',' && IsName(s[a + 1..a + 1 + b])
    && IsPairList(s[a + 1 + b..])
  }

  /** `(\w{1,10}|(\w{1,10},\w{1,10})*)|\*`: one name, a pair list (the empty string included), or `*`. */
  predicate IsSelector(s: string) {
    IsName(s) || IsPairList(s) || s == "*"
  }

  /** `.*`: no line terminator. */
  predicate IsDotStar(s: string) {
    forall k :: 0 <= k < |s| ==> !IsLineTerminator(s[k])
  }

  /** `.+`: at least one character and no line terminator. */
  predicate IsDotPlus(s: string) {
    s != [] && IsDotStar(s)
  }

  /** `(y.*|n.*|Y.*|N.*)` */
  predicate IsFlag(s: string) {
    s != [] && (s[0] == 'y' || s[0] == 'n' || s[0] == 'Y' || s[0] == 'N') && IsDotStar(s[1..])
  }

  /**
   * The selector of a line that starts with `keyword` (keyword and its space
   * included in `keyword`) ends at the first space after the keyword: no
   * selector character is a space and a space must follow it, so this is the
   * only split a match can use.
   */
  function SelectorEnd(line: string, keyword: string): (j: nat)
    requires |keyword| <= |line|
    ensures |keyword| <= j <= |line|
  {
    Find(line, ' ', |keyword|)
  }

  /** `line.matches(keyword + "((\w{1,10}|(\w{1,10},\w{1,10})*)|\*) .+")`, the KICK and TELL patterns. */
  predicate MatchTargeted(line: string, keyword: string) {
    |keyword| <= |line| && line[..|keyword|] == keyword
    && var j := SelectorEnd(line, keyword);
       j < |line| && IsSelector(line[|keyword|..j]) && IsDotPlus(line[j + 1..])
  }

  /** `line.matches("ADMIN ((\w{1,10}|(\w{1,10},\w{1,10})*)|\*) (y.*|n.*|Y.*|N.*)")` */
  predicate MatchAdmin(line: string) {
    6 <= |line| && line[..6] == "ADMIN "
    && var j := SelectorEnd(line, "ADMIN ");
       j < |line| && IsSelector(line[6..j]) && IsFlag(line[j + 1..])
  }

  /** `line.matches("NOTIFY .+")` */
  predicate MatchNotify(line: string) {
    7 <= |line| && line[..7] == "NOTIFY " && IsDotPlus(line[7..])
  }

  /** Any two names joined by one comma form a selector (one pair). */
  lemma TwoNamesSelect(a: string, b: string)
    requires IsName(a) && IsName(b)
    ensures IsSelector(a + "," + b)
  {
    var s := a + "," + b;
    assert s[..|a|] == a && s[|a| + 1..|a| + 1 + |b|] == b && s[|a| + 1 + |b|..] == [];
    assert PairAt(s, |a|, |b|);
  }

  /**
   * Pairs are written back to back, so the names inside a longer list are
   * split between two pairs: `a,bc,d` is the pairs `a,b` and `c,d`.
   */
  lemma InnerNamesSplitAcrossPairs(a: string, b: string, c: string, d: string)
    requires IsName(a) && IsName(b) && IsName(c) && IsName(d)
    ensures IsSelector(a + "," + b + c + "," + d)
  {
    var rest := c + "," + d;
    assert rest[..|c|] == c && rest[|c| + 1..|c| + 1 + |d|] == d && rest[|c| + 1 + |d|..] == [];
    assert PairAt(rest, |c|, |d|);
    var s := a + "," + b + rest;
    assert s == a + "," + b + c + "," + d;
    assert s[..|a|] == a && s[|a| + 1..|a| + 1 + |b|] == b && s[|a| + 1 + |b|..] == rest;
    assert PairAt(s, |a|, |b|);
  }

  /** Three one-character names separated by commas are not a selector: `a,b,c` is refused. */
  lemma ThreeShortNamesRejected(x: char, y: char, z: char)
    requires IsWordChar(x) && IsWordChar(y) && IsWordChar(z)
    ensures !IsSelector([x, ',', y, ',', z])
  {
    var s := [x, ',', y, ',', z];
    var tail := [',', z];
    assert !IsName(s) by { assert !IsWordChar(s[1]); }
    assert !IsPairList(tail);
    forall a, b | 1 <= a <= 10 && 1 <= b <= 10 ensures !PairAt(s, a, b) {
      if a + 1 + b > |s| {
      } else if a >= 2 {
        assert s[..a][1] == ',';
      } else if b >= 2 {
        assert s[a + 1..a + 1 + b][1] == ',';
      } else {
        assert s[a + 1 + b..] == tail;
      }
    }
    assert !IsPairList(s);
    assert s != "*";
  }
}

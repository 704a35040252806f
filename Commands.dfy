/**
 * The value-level half of the admin command engine: how a command line is
 * classified, how a user selector is resolved against the registered names,
 * and the texts the commands answer with.
 */
module Commands {
  import opened Wrappers
  import opened JavaText
  import opened Patterns
  import opened Framing

  /** processCommand's three results (null, "", text) and the QUIT command, which ends the process. */
  datatype Outcome = Failed | Output(text: string) | Exit

  /** The branch of processCommand a line takes. */
  datatype Kind = Blank | AdminKind | PswdKind | KickKind | NotifyKind | TellKind | QuitKind | ListKind | HelpKind | Unknown

  /** The first token of the line is `word`. */
  predicate FirstWordIs(line: string, word: string) {
    NextToken(line, 0).Some? && NextToken(line, 0).value.text == word
  }

  /**
   * The if-chain of processCommand: ADMIN, KICK, NOTIFY and TELL must match
   * their whole-line pattern, while PSWD, QUIT, LIST and HELP only compare the
   * first token, so anything after that token is left to the command itself.
   */
  function Classify(line: string): (k: Kind)
    ensures k == Blank <==> NextToken(line, 0).None?
    ensures k != Blank && MatchAdmin(line) ==> k == AdminKind
    ensures k in {PswdKind, QuitKind, ListKind, HelpKind} ==> NextToken(line, 0).Some? && !MatchAdmin(line)
    ensures k == Unknown ==> NextToken(line, 0).Some? && !MatchAdmin(line) && !MatchTargeted(line, "KICK ")
                             && !MatchNotify(line) && !MatchTargeted(line, "TELL ")
  {
    match NextToken(line, 0)
    case None => Blank
    case Some(first) =>
      if MatchAdmin(line) then AdminKind
      else if first.text == "PSWD" then PswdKind
      else if MatchTargeted(line, "KICK ") then KickKind
      else if MatchNotify(line) then NotifyKind
      else if MatchTargeted(line, "TELL ") then TellKind
      else if first.text == "QUIT" then QuitKind
      else if first.text == "LIST" then ListKind
      else if first.text == "HELP" then HelpKind
      else Unknown
  }

  /**
   * Each branch of the if-chain is taken exactly by the lines of its pattern
   * or its first token: every pattern fixes the first token, so no line is
   * claimed by two branches and the order of the chain decides nothing.
   */
  lemma ClassifyByKeyword(line: string)
    ensures var k := Classify(line);
      && (k == AdminKind <==> MatchAdmin(line))
      && (k == PswdKind <==> FirstWordIs(line, "PSWD"))
      && (k == KickKind <==> MatchTargeted(line, "KICK "))
      && (k == NotifyKind <==> MatchNotify(line))
      && (k == TellKind <==> MatchTargeted(line, "TELL "))
      && (k == QuitKind <==> FirstWordIs(line, "QUIT"))
      && (k == ListKind <==> FirstWordIs(line, "LIST"))
      && (k == HelpKind <==> FirstWordIs(line, "HELP"))
  {
    PatternsFixFirstWord(line);
    assert "PSWD"[0] == 'P' && "KICK"[0] == 'K' && "TELL"[0] == 'T' && "QUIT"[0] == 'Q' && "LIST"[0] == 'L' && "HELP"[0] == 'H';
  }

  /** A line matching a whole-line pattern starts with that pattern's keyword as its first token. */
  lemma PatternsFixFirstWord(line: string)
    ensures MatchAdmin(line) ==> FirstWordIs(line, "ADMIN")
    ensures MatchTargeted(line, "KICK ") ==> FirstWordIs(line, "KICK")
    ensures MatchNotify(line) ==> FirstWordIs(line, "NOTIFY")
    ensures MatchTargeted(line, "TELL ") ==> FirstWordIs(line, "TELL")
  {
    if MatchAdmin(line) {
      assert line[..5] == line[..6][..5] && line[5] == line[..6][5];
      FirstTokenOf(line, "ADMIN");
    }
    if MatchTargeted(line, "KICK ") {
      assert line[..4] == line[..5][..4] && line[4] == line[..5][4];
      FirstTokenOf(line, "KICK");
    }
    if MatchNotify(line) {
      assert line[..6] == line[..7][..6] && line[6] == line[..7][6];
      FirstTokenOf(line, "NOTIFY");
    }
    if MatchTargeted(line, "TELL ") {
      assert line[..4] == line[..5][..4] && line[4] == line[..5][4];
      FirstTokenOf(line, "TELL");
    }
  }

  /** A line that starts with `word` and a space has `word` as its first token, ending at |word|. */
  lemma FirstTokenOf(line: string, word: string)
    requires word != [] && forall k :: 0 <= k < |word| ==> !IsWhitespace(word[k])
    requires |word| < |line| && line[..|word|] == word && line[|word|] == ' '
    ensures NextToken(line, 0) == Some(Token(word, |word|))
  {
    assert SkipWhitespace(line, 0) == 0 by { assert line[0] == word[0]; }
    assert TokenEnd(line, 0) == |word| by {
      forall k | 0 <= k < |word| ensures !IsWhitespace(line[k]) {
        assert line[k] == word[k];
      }
    }
  }

  /** The whole-line patterns all start with their keyword, so a line starting with another letter matches none of them. */
  lemma NoKeywordPattern(line: string)
    requires line != [] && line[0] !in {'A', 'K', 'N', 'T'}
    ensures !MatchAdmin(line) && !MatchTargeted(line, "KICK ") && !MatchNotify(line) && !MatchTargeted(line, "TELL ")
  {
    if 6 <= |line| { assert line[..6][0] == line[0]; }
    if 5 <= |line| { assert line[..5][0] == line[0]; }
    if 7 <= |line| { assert line[..7][0] == line[0]; }
  }

  /** LIST compares only the first token: whatever follows it is ignored. */
  lemma ListIgnoresTrailingTokens(rest: string)
    ensures Classify("LIST " + rest) == ListKind
  {
    var line := "LIST " + rest;
    assert line[..4] == "LIST";
    FirstTokenOf(line, "LIST");
    NoKeywordPattern(line);
    assert "LIST" != "PSWD" && "LIST" != "QUIT" by { assert "LIST"[0] == 'L'; }
  }

  /** HELP compares only the first token: whatever follows it is ignored. */
  lemma HelpIgnoresTrailingTokens(rest: string)
    ensures Classify("HELP " + rest) == HelpKind
  {
    var line := "HELP " + rest;
    assert line[..4] == "HELP";
    FirstTokenOf(line, "HELP");
    NoKeywordPattern(line);
    assert "HELP" != "PSWD" && "HELP" != "QUIT" && "HELP" != "LIST" by { assert "HELP"[0] == 'H'; }
  }

  /** KICK with a selector and no reason matches no pattern, and KICK is no first-token keyword. */
  lemma KickWithoutReasonUnknown(selector: string)
    requires selector != [] && forall k :: 0 <= k < |selector| ==> !IsWhitespace(selector[k])
    ensures Classify("KICK " + selector) == Unknown
  {
    var line := "KICK " + selector;
    assert line[..4] == "KICK";
    FirstTokenOf(line, "KICK");
    assert !MatchAdmin(line) && !MatchNotify(line) by {
      if 6 <= |line| { assert line[..6][0] == 'K'; }
      if 7 <= |line| { assert line[..7][0] == 'K'; }
    }
    assert !MatchTargeted(line, "TELL ") by { assert line[..5][0] == 'K'; }
    assert !MatchTargeted(line, "KICK ") by {
      forall k | 5 <= k < |line| ensures line[k] != ' ' {
        assert line[k] == selector[k - 5];
      }
      assert SelectorEnd(line, "KICK ") == |line|;
    }
    assert "KICK" != "PSWD" && "KICK" != "QUIT" && "KICK" != "LIST" && "KICK" != "HELP" by { assert "KICK"[0] == 'K'; }
  }

  /** The new password PSWD stores: the trimmed rest of the line, or "" when no token follows. */
  function NewPassword(line: string, pos: nat): (p: string)
    requires pos <= |line|
    ensures NextToken(line, pos).None? ==> p == ""
  {
    if NextToken(line, pos).Some? then Trim(NextLine(line, pos).value) else ""
  }

  /**
   * `PSWD` followed by a space and a one-line remainder stores that remainder
   * trimmed; a remainder of whitespace only clears the password.
   */
  lemma PswdStoresTrimmedRemainder(s: string)
    requires IsDotStar(s)
    ensures var line := "PSWD " + s;
      NewPassword(line, 4) == if NextToken(s, 0).None? then "" else Trim(s)
  {
    var line := "PSWD " + s;
    assert line[4..] == " " + s;
    if NextToken(s, 0).None? {
      assert NextToken(line, 4).None? by {
        forall k | 4 <= k < |line| ensures IsWhitespace(line[k]) {
          if k > 4 { assert line[k] == s[k - 5]; }
        }
      }
    } else {
      var i := SkipWhitespace(s, 0);
      assert !IsWhitespace(line[i + 5]);
      assert LineEnd(line, 4) == |line| by {
        forall k | 4 <= k < |line| ensures !IsLineTerminator(line[k]) {
          if k > 4 { assert line[k] == s[k - 5]; }
        }
      }
      assert line[4..|line|] == " " + s;
      assert NextLine(line, 4) == Some(" " + s);
      TrimIgnoresLeadingSpace(s);
    }
  }

  /** The message QUIT sends with DSC: the rest of the line when anything is left, else "". */
  function QuitMessage(line: string, pos: nat): (m: string)
    requires pos <= |line|
    ensures pos == |line| ==> m == ""
    ensures pos < |line| ==> pos + |m| <= |line| && m == line[pos..pos + |m|] && IsDotStar(m)
  {
    if pos < |line| then NextLine(line, pos).value else ""
  }

  /** The position of the first name equal to `name`. */
  function FirstIndexOf(names: seq<Option<string>>, name: string): (r: Option<nat>)
    ensures r.None? <==> Some(name) !in names
    ensures r.Some? ==> r.value < |names| && names[r.value] == Some(name)
    ensures r.Some? ==> forall j :: 0 <= j < r.value ==> names[j] != Some(name)
  {
    if names == [] then None
    else if names[0] == Some(name) then Some(0)
    else match FirstIndexOf(names[1..], name)
      case None => None
      case Some(i) => Some(i + 1)
  }

  /** getUsers' loop over the listed names: for each, the first registered match, in list order. */
  function Picks(names: seq<Option<string>>, parts: seq<string>): (r: seq<nat>)
    ensures |r| <= |parts|
    ensures forall k :: 0 <= k < |r| ==> r[k] < |names|
  {
    if parts == [] then []
    else
      Picks(names, parts[..|parts| - 1])
      + match FirstIndexOf(names, parts[|parts| - 1])
        case None => []
        case Some(i) => [i]
  }

  /** The listed names that are registered, in list order, repeats kept. */
  function Matched(names: seq<Option<string>>, parts: seq<string>): seq<string> {
    if parts == [] then []
    else Matched(names, parts[..|parts| - 1])
         + if Some(parts[|parts| - 1]) in names then [parts[|parts| - 1]] else []
  }

  /**
   * Resolution of a listed selector: one session per listed name that is
   * registered, in the order of the list (a repeated name is picked again),
   * and each time the first registered session with that name.
   */
  lemma {:induction false} PicksInListOrder(names: seq<Option<string>>, parts: seq<string>)
    ensures var r := Picks(names, parts); var m := Matched(names, parts);
      |r| == |m| && forall k :: 0 <= k < |r| ==> FirstIndexOf(names, m[k]) == Some(r[k])
  {
    if parts != [] {
      PicksInListOrder(names, parts[..|parts| - 1]);
    }
  }

  /** 0, 1, ..., n - 1 */
  function Range(n: nat): (r: seq<nat>)
    ensures |r| == n && forall k :: 0 <= k < n ==> r[k] == k
  {
    seq(n, k requires 0 <= k < n => k)
  }

  /**
   * getUsers on the registered names: the selector is trimmed and split on
   * ','; an empty split is the exception of `users[0]` (None); a first part
   * of `*` selects every session; otherwise the picks of the listed names.
   */
  function Select(names: seq<Option<string>>, selector: string): (r: Option<seq<nat>>)
    ensures r.Some? ==> forall k :: 0 <= k < |r.value| ==> r.value[k] < |names|
  {
    var parts := JavaSplit(Trim(selector), ',');
    if parts == [] then None
    else if parts[0] == "*" then Some(Range(|names|))
    else Some(Picks(names, parts))
  }

  /** `*` selects every registered session, in registry order. */
  lemma SelectAll(names: seq<Option<string>>)
    ensures Select(names, "*") == Some(Range(|names|))
  {
    TrimUnique("*", 0, 1);
    assert ',' !in "*";
  }

  /** A single name selects the first session registered under it, or no one when none is. */
  lemma SelectOneName(names: seq<Option<string>>, name: string)
    requires IsName(name)
    ensures Select(names, name) == Some(match FirstIndexOf(names, name) case None => [] case Some(i) => [i])
  {
    assert IsWordChar(name[0]) && IsWordChar(name[|name| - 1]);
    TrimUnique(name, 0, |name|);
    assert name[0..|name|] == name;
    forall k | 0 <= k < |name| ensures name[k] != ',' {
      assert IsWordChar(name[k]);
    }
    assert Trim(name) == name && ',' !in name;
    assert JavaSplit(name, ',') == [name];
    assert name != "*";
    assert [name][..0] == [];
    assert Picks(names, [name]) == match FirstIndexOf(names, name) case None => [] case Some(i) => [i];
  }

  /** A word character is above U+0020, so trim leaves a selector of names alone. */
  lemma TrimKeepsNames(x: string, y: string)
    requires IsName(x) && IsName(y)
    ensures Trim(x + "," + y) == x + "," + y
  {
    var s := x + "," + y;
    assert s[0] == x[0] && s[|s| - 1] == y[|y| - 1];
    TrimUnique(s, 0, |s|);
    assert s[0..|s|] == s;
  }

  /** Splitting two names joined by ',' gives the two names back. */
  lemma SplitTwoNames(x: string, y: string)
    requires IsName(x) && IsName(y)
    ensures JavaSplit(x + "," + y, ',') == [x, y]
  {
    var s := x + "," + y;
    assert s == Join([x, y], ',') by { assert [x, y][..1] == [x]; }
    forall k | 0 <= k < |x| ensures x[k] != ',' { assert IsWordChar(x[k]); }
    forall k | 0 <= k < |y| ensures y[k] != ',' { assert IsWordChar(y[k]); }
    PiecesOfJoin([x, y], ',');
    assert s[|x|] == ',';
  }

  /** A name given twice is resolved twice. */
  lemma RepeatedNameResolvedTwice(names: seq<Option<string>>, name: string, i: nat)
    requires IsName(name) && FirstIndexOf(names, name) == Some(i)
    ensures Select(names, name + "," + name) == Some([i, i])
  {
    var parts := [name, name];
    TrimKeepsNames(name, name);
    SplitTwoNames(name, name);
    assert JavaSplit(Trim(name + "," + name), ',') == parts;
    assert parts[0] != "*" by { assert IsWordChar(name[0]); }
    assert parts[..1] == [name] && [name][..0] == [];
    assert Picks(names, [name]) == [i];
    assert Picks(names, parts) == [i, i];
  }

  /** The selector that reached getUsers names no registered user. */
  const NoMatch := "No users matched the query"
  /** ADMIN's flag starts with neither y nor n. */
  const BadArgument := "Bad argument. No changes made."
  const PasswordSet := "Password set!"
  const PasswordRemoved := "Password removed!"
  /** The prefix of a NOTIFY message. */
  const Announcement := "Server announcement: "
  /** The prefix of a TELL message. */
  const FromServer := "Message from server: "
  /** LIST's answer while nobody is registered. */
  const NobodyConnected := " No connected users"

  /** The ADMIN reply is built by prepending each name and a space, so the names come out in reverse order. */
  function Prepended(names: seq<string>): string {
    if names == [] then "" else names[|names| - 1] + " " + Prepended(names[..|names| - 1])
  }

  /** Each name followed by a space, in the given order. */
  function SpaceAfterEach(names: seq<string>): string {
    if names == [] then "" else names[0] + " " + SpaceAfterEach(names[1..])
  }

  function Reverse<T>(s: seq<T>): (r: seq<T>)
    ensures |r| == |s| && forall k :: 0 <= k < |s| ==> r[k] == s[|s| - 1 - k]
  {
    if s == [] then [] else [s[|s| - 1]] + Reverse(s[..|s| - 1])
  }

  /** The ADMIN reply lists the affected users last first. */
  lemma {:induction false} PrependedIsReversed(names: seq<string>)
    ensures Prepended(names) == SpaceAfterEach(Reverse(names))
  {
    if names != [] {
      var r := Reverse(names);
      PrependedIsReversed(names[..|names| - 1]);
      assert r[1..] == Reverse(names[..|names| - 1]);
    }
  }

  /** A name as string concatenation prints it: Java's null prints as "null". */
  function NameText(name: Option<string>): string {
    if name.Some? then name.value else "null"
  }

  /** Java's text of a boolean. */
  function BoolText(b: bool): string {
    if b then "true" else "false"
  }

  /** The ADMIN reply around the list of names built by its loop. */
  function AdminAnswer(listed: string, on: bool): string {
    "The users " + listed + "have admin access set to " + BoolText(on)
  }

  /** The ADMIN reply for the resolved users' names. */
  function AdminText(names: seq<string>, on: bool): string {
    AdminAnswer(Prepended(names), on)
  }

  /** The notice the other users receive when `name` is kicked. */
  function KickNotice(name: string, message: string): string {
    "\"" + name + "\" has been kicked from the server\nReason: " + message
  }

  /** One LIST line: the name left-justified and the address right-justified, ten columns each. */
  function ListEntry(name: string, address: string): string {
    " " + PadRight(name, 10) + " -- " + PadLeft(address, 10)
  }

  /** The LIST reply: the entries one per line with no newline after the last, or a fixed text when nobody is connected. */
  function ListText(entries: seq<string>): string {
    if entries == [] then NobodyConnected else Join(entries, '\n')
  }

  /** What LIST's StringBuilder holds after the first `i` entries: each entry but the last is followed by a newline. */
  function ListBuilt(entries: seq<string>, i: nat): string
    requires i <= |entries|
  {
    if i == 0 then (if entries == [] then NobodyConnected else "")
    else if i < |entries| then ListBuilt(entries, i - 1) + entries[i - 1] + "\n"
    else ListBuilt(entries, i - 1) + entries[i - 1]
  }

  /** After `i` entries the builder holds the first `i` entries joined, and a newline when more follow. */
  lemma {:induction false} ListBuiltJoins(entries: seq<string>, i: nat)
    requires 0 < i <= |entries|
    ensures ListBuilt(entries, i) == Join(entries[..i], '\n') + if i < |entries| then "\n" else ""
  {
    if i > 1 {
      ListBuiltJoins(entries, i - 1);
      assert entries[..i][..i - 1] == entries[..i - 1];
    } else {
      assert entries[..1] == [entries[0]];
    }
  }

  /** Once every entry is appended the builder holds the LIST reply. */
  lemma ListBuiltAll(entries: seq<string>)
    ensures ListBuilt(entries, |entries|) == ListText(entries)
  {
    if entries != [] {
      ListBuiltJoins(entries, |entries|);
      assert entries[..|entries|] == entries;
    }
  }

  /** An entry whose name and address hold no newline is one line. */
  lemma ListEntryIsOneLine(name: string, address: string)
    requires '\n' !in name && '\n' !in address
    ensures '\n' !in ListEntry(name, address)
  {
    var a := Spaces(name, 10);
    var b := Spaces(address, 10);
    assert '\n' !in a && '\n' !in b;
  }

  /** LIST with N one-line entries answers N lines, and those lines are the entries. */
  lemma ListHasOneLinePerEntry(entries: seq<string>)
    requires entries != []
    requires forall k :: 0 <= k < |entries| ==> '\n' !in entries[k]
    ensures Pieces(ListText(entries), '\n') == entries
  {
    PiecesOfJoin(entries, '\n');
  }

  /** The HELP answer: a heading and one line per command, separated by line feeds. */
  const HelpLines := ["Available commands are:", " ADMIN [USER_NAME] [(y)es|(n)o]", " PSWD [PASSWORD]", " KICK [USER_NAME] [REASON]", " NOTIFY [MESSAGE]", " TELL [USER_NAME] [MESSAGE]", " QUIT (MESSAGE)", " LIST", " HELP"]
  const HelpText := Join(HelpLines, '\n')

  /**
   * The frames an admin's ADM request is answered with: ERC for a parse
   * failure, nothing for a quiet success, RSP with the text otherwise.
   */
  function AdminReply(o: Outcome): (frames: seq<string>)
    requires !o.Exit?
  {
    match o
    case Failed => [Encode("ERC", "Bad command input")]
    case Output(t) => if t == "" then [] else [Encode("RSP", t)]
  }

  /** What the client reads back from the reply frames: the outcome the server sent. */
  function ReadReply(frames: seq<string>): Outcome {
    if frames == [] then Output("")
    else if |frames[0]| >= 4 && frames[0][..3] == "RSP" then Output(frames[0][3..|frames[0]| - 1])
    else Failed
  }

  /** The replies tell the outcomes apart: reading a reply back gives the outcome it was built from. */
  lemma ReadAdminReply(o: Outcome)
    requires !o.Exit?
    ensures ReadReply(AdminReply(o)) == o
  {
    match o
    case Failed =>
      var f := Encode("ERC", "Bad command input");
      EncodeParts("ERC", "Bad command input");
      assert f[..3] == "ERC";
    case Output(t) =>
      if t != "" {
        var f := Encode("RSP", t);
        EncodeParts("RSP", t);
        assert f[..3] == "RSP";
      }
  }
}

/**
 * processCommand as a function of the line, the registry and the password:
 * the result it returns and every effect it has (the writes to the clients,
 * the new password, the admin flags it sets, the sessions it disconnects).
 * The imperative Server.ProcessCommand is proved to behave exactly like this.
 */
module Console {
  import opened Wrappers
  import opened JavaText
  import opened Patterns
  import opened Framing
  import opened Commands
  import opened Wire

  /**
   * What one command does. `flagged` are the sessions whose admin flag is
   * set to `on` (in the order they are set); `dropped` the sessions
   * disconnected, one entry per disconnect.
   */
  datatype Effect<T> = Effect(outcome: Outcome, sends: seq<Sent<T>>, password: string,
                              flagged: seq<T>, on: bool, dropped: seq<T>)

  /** A command that only answers. */
  function Answer<T>(o: Outcome, password: string): Effect<T> {
    Effect(o, [], password, [], false, [])
  }

  /** The writes of KICK: one disconnect per selected user, each with the kick notice naming that user. */
  function KickSends<T(==)>(reg: seq<T>, users: seq<T>, userNames: seq<string>, message: string): (r: seq<Sent<T>>)
    requires |userNames| == |users|
  {
    if users == [] then []
    else
      var n := |users| - 1;
      KickSends(reg, users[..n], userNames[..n], message)
      + DisconnectSends(reg, users[n], KickNotice(userNames[n], message), message)
  }

  /** The disconnect of each selected user, one block of writes per user. */
  function KickBlocks<T(==)>(reg: seq<T>, users: seq<T>, userNames: seq<string>, message: string): (r: seq<seq<Sent<T>>>)
    requires |userNames| == |users|
    ensures |r| == |users|
    ensures forall k :: 0 <= k < |users| ==> r[k] == DisconnectSends(reg, users[k], KickNotice(userNames[k], message), message)
  {
    seq(|users|, k requires 0 <= k < |users| => DisconnectSends(reg, users[k], KickNotice(userNames[k], message), message))
  }

  /** KICK writes the disconnects of the selected users one after the other. */
  lemma {:induction false} KickSendsFlatten<T>(reg: seq<T>, users: seq<T>, userNames: seq<string>, message: string)
    requires |userNames| == |users|
    ensures KickSends(reg, users, userNames, message) == Flatten(KickBlocks(reg, users, userNames, message))
  {
    if users != [] {
      var n := |users| - 1;
      KickSendsFlatten(reg, users[..n], userNames[..n], message);
      assert KickBlocks(reg, users, userNames, message)[..n] == KickBlocks(reg, users[..n], userNames[..n], message);
    }
  }

  /** A write of KICK is a write of the disconnect of one of the selected users. */
  lemma KickSendsOf<T>(reg: seq<T>, users: seq<T>, userNames: seq<string>, message: string, m: Sent<T>)
    requires |userNames| == |users|
    ensures m in KickSends(reg, users, userNames, message) <==>
      exists k :: 0 <= k < |users| && m in DisconnectSends(reg, users[k], KickNotice(userNames[k], message), message)
  {
    var blocks := KickBlocks(reg, users, userNames, message);
    KickSendsFlatten(reg, users, userNames, message);
    FlattenHas(blocks, m);
  }

  /** KICK's writes grow by one disconnect per user handled. */
  lemma KickSendsSnoc<T>(reg: seq<T>, users: seq<T>, userNames: seq<string>, i: nat, message: string)
    requires |userNames| == |users| && i < |users|
    ensures KickSends(reg, users[..i + 1], userNames[..i + 1], message)
            == KickSends(reg, users[..i], userNames[..i], message)
               + DisconnectSends(reg, users[i], KickNotice(userNames[i], message), message)
  {
    assert users[..i + 1][..i] == users[..i];
    assert userNames[..i + 1][..i] == userNames[..i];
  }

  /** The names of the picked users, as the ADMIN reply prints them. */
  function PickedNames(names: seq<Option<string>>, picks: seq<nat>): (r: seq<string>)
    requires forall k :: 0 <= k < |picks| ==> picks[k] < |names|
    ensures |r| == |picks|
  {
    seq(|picks|, k requires 0 <= k < |picks| => NameText(names[picks[k]]))
  }

  /** The LIST entries, one per registration. */
  function Entries(names: seq<Option<string>>, addresses: seq<string>): (r: seq<string>)
    requires |addresses| == |names|
    ensures |r| == |names|
  {
    seq(|names|, k requires 0 <= k < |names| => ListEntry(NameText(names[k]), addresses[k]))
  }

  /** The arguments of a targeted command: the positions its selector picks and the text after the selector. */
  datatype Args = Args(picks: seq<nat>, rest: string)

  /**
   * ADMIN's scanning: the selector token resolved, and the next token. None
   * where a token is missing or the selector splits into nothing.
   */
  function AdminArgs(line: string, pos: nat, names: seq<Option<string>>): (r: Option<Args>)
    requires pos <= |line|
    ensures r.Some? ==> r.value.rest != [] && forall k :: 0 <= k < |r.value.picks| ==> r.value.picks[k] < |names|
  {
    match NextToken(line, pos)
    case None => None
    case Some(selector) =>
      match Select(names, selector.text)
      case None => None
      case Some(picks) =>
        match NextToken(line, selector.end)
        case None => None
        case Some(flag) => Some(Args(picks, flag.text))
  }

  /** KICK's and TELL's scanning: the selector token resolved, and the rest of the line. */
  function TargetArgs(line: string, pos: nat, names: seq<Option<string>>): (r: Option<Args>)
    requires pos <= |line|
    ensures r.Some? ==> forall k :: 0 <= k < |r.value.picks| ==> r.value.picks[k] < |names|
  {
    match NextToken(line, pos)
    case None => None
    case Some(selector) =>
      match Select(names, selector.text)
      case None => None
      case Some(picks) =>
        match NextLine(line, selector.end)
        case None => None
        case Some(message) => Some(Args(picks, message))
  }

  /** ADMIN: the first character of the flag token decides; the answer lists the names, last first. */
  function AdminCommand<T>(line: string, pos: nat, reg: seq<T>, names: seq<Option<string>>, password: string): (e: Effect<T>)
    requires pos <= |line| && |names| == |reg|
    ensures e.sends == [] && e.password == password && e.dropped == [] && !e.outcome.Exit?
    ensures e.outcome == Failed ==> e.flagged == []
    ensures forall s :: s in e.flagged ==> s in reg
  {
    match AdminArgs(line, pos, names)
    case None => Answer(Failed, password)
    case Some(a) =>
      var c := a.rest[0];
      if !(c == 'y' || c == 'Y' || c == 'n' || c == 'N') then Answer(Output(BadArgument), password)
      else if a.picks == [] then Answer(Output(NoMatch), password)
      else
        var on := c == 'y' || c == 'Y';
        Effect(Output(AdminText(PickedNames(names, a.picks), on)), [], password, Chosen(reg, a.picks), on, [])
  }

  /** KICK: every selected session disconnected with the kick notice and the reason. */
  function KickCommand<T(==)>(line: string, pos: nat, reg: seq<T>, names: seq<Option<string>>, password: string): (e: Effect<T>)
    requires pos <= |line| && |names| == |reg|
    ensures e.password == password && e.flagged == [] && !e.outcome.Exit?
    ensures e.outcome == Failed ==> e.sends == [] && e.dropped == []
    ensures forall s :: s in e.dropped ==> s in reg
    ensures forall m :: m in e.sends ==> m.to in reg
  {
    match TargetArgs(line, pos, names)
    case None => Answer(Failed, password)
    case Some(a) =>
      if a.picks == [] then Answer(Output(NoMatch), password)
      else
        var users := Chosen(reg, a.picks);
        KickSendsRegistered(reg, users, PickedNames(names, a.picks), a.rest);
        Effect(Output(""), KickSends(reg, users, PickedNames(names, a.picks), a.rest), password, [], false, users)
  }

  /** NOTIFY: the rest of the line to every registered session. */
  function NotifyCommand<T>(line: string, pos: nat, reg: seq<T>, password: string): (e: Effect<T>)
    requires pos <= |line|
    ensures e.password == password && e.flagged == [] && e.dropped == [] && !e.outcome.Exit?
    ensures e.outcome == Failed ==> e.sends == []
    ensures forall m :: m in e.sends ==> m.to in reg
  {
    match NextLine(line, pos)
    case None => Answer(Failed, password)
    case Some(message) =>
      Effect(Output(""), ToEach(reg, Encode("NOT", Announcement + message)), password, [], false, [])
  }

  /** TELL: the message to every selected session. */
  function TellCommand<T>(line: string, pos: nat, reg: seq<T>, names: seq<Option<string>>, password: string): (e: Effect<T>)
    requires pos <= |line| && |names| == |reg|
    ensures e.password == password && e.flagged == [] && e.dropped == [] && !e.outcome.Exit?
    ensures e.outcome == Failed ==> e.sends == []
    ensures forall m :: m in e.sends ==> m.to in reg
  {
    match TargetArgs(line, pos, names)
    case None => Answer(Failed, password)
    case Some(a) =>
      if a.picks == [] then Answer(Output(NoMatch), password)
      else Effect(Output(""), ToEach(Chosen(reg, a.picks), Encode("NOT", FromServer + a.rest)), password, [], false, [])
  }

  /** QUIT: a disconnect with the rest of the line (or "") for every registered session, then the end of the process. */
  function QuitCommand<T>(line: string, pos: nat, reg: seq<T>, password: string): (e: Effect<T>)
    requires pos <= |line|
    ensures e.outcome == Exit && e.password == password && e.flagged == [] && e.dropped == reg
    ensures forall m :: m in e.sends ==> m.to in reg
  {
    Effect(Exit, ToEach(reg, Encode("DSC", QuitMessage(line, pos))), password, [], false, reg)
  }

  /**
   * ADMIN fails when its arguments do not scan; a flag that starts with none
   * of y, Y, n, N is a bad argument and changes nothing; otherwise exactly
   * the resolved users are flagged, on for y or Y, and an empty resolution
   * answers that no user matched.
   */
  lemma AdminCommandSpec<T>(line: string, pos: nat, reg: seq<T>, names: seq<Option<string>>, password: string)
    requires pos <= |line| && |names| == |reg|
    ensures var e := AdminCommand(line, pos, reg, names, password);
      var args := AdminArgs(line, pos, names);
      && (args.None? ==> e.outcome == Failed)
      && (args.Some? && args.value.rest[0] !in "yYnN" ==> e.outcome == Output(BadArgument) && e.flagged == [])
      && (args.Some? && args.value.rest[0] in "yYnN" ==> e.flagged == Chosen(reg, args.value.picks))
      && (args.Some? && args.value.rest[0] in "yYnN" && args.value.picks == [] ==> e.outcome == Output(NoMatch))
      && (args.Some? && args.value.rest[0] in "yYnN" && args.value.picks != [] ==>
            e.on == (args.value.rest[0] in "yY") && e.outcome == Output(AdminText(PickedNames(names, args.value.picks), e.on)))
  {
  }

  /**
   * KICK fails when its arguments do not scan; otherwise it disconnects
   * exactly the resolved users, and an empty resolution answers that no user
   * matched. KickWrites gives its writes.
   */
  lemma KickCommandSpec<T>(line: string, pos: nat, reg: seq<T>, names: seq<Option<string>>, password: string)
    requires pos <= |line| && |names| == |reg|
    ensures var e := KickCommand(line, pos, reg, names, password);
      var args := TargetArgs(line, pos, names);
      && (args.None? ==> e.outcome == Failed)
      && (args.Some? ==> e.dropped == Chosen(reg, args.value.picks))
      && (args.Some? ==> e.outcome == if args.value.picks == [] then Output(NoMatch) else Output(""))
  {
  }

  /**
   * NOTIFY fails at the end of the line; otherwise every registration, in
   * registry order, is told the announcement with the rest of the line.
   */
  lemma NotifyCommandSpec<T>(line: string, pos: nat, reg: seq<T>, password: string)
    requires pos <= |line|
    ensures var e := NotifyCommand(line, pos, reg, password);
      && (NextLine(line, pos).None? ==> e.outcome == Failed)
      && (NextLine(line, pos).Some? ==> e.outcome == Output(""))
      && (NextLine(line, pos).Some? ==> e.sends == ToEach(reg, Encode("NOT", Announcement + NextLine(line, pos).value)))
  {
  }

  /**
   * TELL fails when its arguments do not scan; otherwise exactly the
   * resolved users, in the order of the selector, are told the message, and
   * an empty resolution answers that no user matched and writes nothing.
   */
  lemma TellCommandSpec<T>(line: string, pos: nat, reg: seq<T>, names: seq<Option<string>>, password: string)
    requires pos <= |line| && |names| == |reg|
    ensures var e := TellCommand(line, pos, reg, names, password);
      var args := TargetArgs(line, pos, names);
      && (args.None? ==> e.outcome == Failed)
      && (args.Some? ==> e.sends == ToEach(Chosen(reg, args.value.picks), Encode("NOT", FromServer + args.value.rest)))
      && (args.Some? ==> e.outcome == if args.value.picks == [] then Output(NoMatch) else Output(""))
  {
  }

  /**
   * processCommand(line) against a registry `reg` whose sessions carry
   * `names` and `addresses`, with the server password `password`.
   */
  function Command<T(==)>(line: string, reg: seq<T>, names: seq<Option<string>>, addresses: seq<string>, password: string): Effect<T>
    requires |names| == |reg| && |addresses| == |reg|
  {
    match NextToken(line, 0)
    case None => Answer(Failed, password)
    case Some(first) =>
      var pos := first.end;
      match Classify(line)
      case AdminKind => AdminCommand(line, pos, reg, names, password)
      case PswdKind =>
        if NextToken(line, pos).Some? then Answer(Output(PasswordSet), NewPassword(line, pos))
        else Answer(Output(PasswordRemoved), "")
      case KickKind => KickCommand(line, pos, reg, names, password)
      case NotifyKind => NotifyCommand(line, pos, reg, password)
      case TellKind => TellCommand(line, pos, reg, names, password)
      case QuitKind => QuitCommand(line, pos, reg, password)
      case ListKind => Answer(Output(ListText(Entries(names, addresses))), password)
      case HelpKind => Answer(Output(HelpText), password)
      case Blank => Answer(Failed, password)
      case Unknown => Answer(Failed, password)
  }

  /** Only QUIT ends the process. */
  lemma OnlyQuitExits<T>(line: string, reg: seq<T>, names: seq<Option<string>>, addresses: seq<string>, password: string)
    requires |names| == |reg| && |addresses| == |reg|
    ensures Command(line, reg, names, addresses, password).outcome.Exit? <==> Classify(line) == QuitKind
  {
    if NextToken(line, 0).Some? {
      var pos := NextToken(line, 0).value.end;
      var e := Command(line, reg, names, addresses, password);
      match Classify(line)
      case AdminKind => assert e == AdminCommand(line, pos, reg, names, password);
      case KickKind => assert e == KickCommand(line, pos, reg, names, password);
      case NotifyKind => assert e == NotifyCommand(line, pos, reg, password);
      case TellKind => assert e == TellCommand(line, pos, reg, names, password);
      case QuitKind => assert e == QuitCommand(line, pos, reg, password);
      case _ =>
    }
  }

  /**
   * A command that fails (the line is blank, unknown, or its arguments do
   * not scan) writes nothing and changes nothing.
   */
  lemma FailedChangesNothing<T>(line: string, reg: seq<T>, names: seq<Option<string>>, addresses: seq<string>, password: string)
    requires |names| == |reg| && |addresses| == |reg|
    ensures var e := Command(line, reg, names, addresses, password);
      e.outcome == Failed ==> e.sends == [] && e.password == password && e.flagged == [] && e.dropped == []
  {
    if NextToken(line, 0).Some? {
      var pos := NextToken(line, 0).value.end;
      var e := Command(line, reg, names, addresses, password);
      match Classify(line)
      case AdminKind => assert e == AdminCommand(line, pos, reg, names, password);
      case KickKind => assert e == KickCommand(line, pos, reg, names, password);
      case NotifyKind => assert e == NotifyCommand(line, pos, reg, password);
      case TellKind => assert e == TellCommand(line, pos, reg, names, password);
      case QuitKind => assert e == QuitCommand(line, pos, reg, password);
      case _ =>
    }
  }

  /**
   * Only PSWD changes the password: to the trimmed rest of the line when a
   * token follows the keyword, otherwise to none.
   */
  lemma PasswordOnlyThroughPswd<T>(line: string, reg: seq<T>, names: seq<Option<string>>, addresses: seq<string>, password: string)
    requires |names| == |reg| && |addresses| == |reg|
    ensures Command(line, reg, names, addresses, password).password != password ==> Classify(line) == PswdKind
    ensures Classify(line) == PswdKind ==>
      var pos := NextToken(line, 0).value.end;
      Command(line, reg, names, addresses, password).password
        == if NextToken(line, pos).Some? then NewPassword(line, pos) else ""
  {
    if NextToken(line, 0).Some? {
      var pos := NextToken(line, 0).value.end;
      var e := Command(line, reg, names, addresses, password);
      match Classify(line)
      case AdminKind => assert e == AdminCommand(line, pos, reg, names, password);
      case KickKind => assert e == KickCommand(line, pos, reg, names, password);
      case NotifyKind => assert e == NotifyCommand(line, pos, reg, password);
      case TellKind => assert e == TellCommand(line, pos, reg, names, password);
      case QuitKind => assert e == QuitCommand(line, pos, reg, password);
      case _ =>
    }
  }

  /** LIST, HELP and PSWD only answer: they write to no client, set no flag and disconnect no one. */
  lemma ListHelpPswdOnlyAnswer<T>(line: string, reg: seq<T>, names: seq<Option<string>>, addresses: seq<string>, password: string)
    requires |names| == |reg| && |addresses| == |reg|
    requires Classify(line) in {ListKind, HelpKind, PswdKind}
    ensures var e := Command(line, reg, names, addresses, password);
      e.sends == [] && e.flagged == [] && e.dropped == [] && e.outcome.Output?
  {
  }

  /**
   * QUIT disconnects every registered session, in registry order, each with
   * the rest of the line as the DSC text, and then ends the process.
   */
  lemma QuitDropsEveryone<T>(line: string, reg: seq<T>, names: seq<Option<string>>, addresses: seq<string>, password: string)
    requires |names| == |reg| && |addresses| == |reg|
    requires Classify(line) == QuitKind
    ensures var e := Command(line, reg, names, addresses, password);
      var pos := NextToken(line, 0).value.end;
      && e.outcome == Exit && e.dropped == reg && e.flagged == [] && e.password == password
      && |e.sends| == |reg|
      && forall k :: 0 <= k < |reg| ==> e.sends[k] == Sent(reg[k], Encode("DSC", QuitMessage(line, pos)))
  {
  }

  /** Selecting every position selects the registry itself. */
  lemma ChosenAll<T>(reg: seq<T>)
    ensures Chosen(reg, Range(|reg|)) == reg
  {
  }

  /**
   * The writes of a KICK whose arguments scanned: each selected user is told
   * DSC with the reason, every other registered session is told that user's
   * kick notice, and nothing else is written.
   */
  lemma KickWrites<T>(line: string, pos: nat, reg: seq<T>, names: seq<Option<string>>, password: string, m: Sent<T>)
    requires pos <= |line| && |names| == |reg| && TargetArgs(line, pos, names).Some?
    ensures var a := TargetArgs(line, pos, names).value;
      m in KickCommand(line, pos, reg, names, password).sends <==>
        exists k :: 0 <= k < |a.picks| &&
          (m == Sent(reg[a.picks[k]], Encode("DSC", a.rest))
           || (m.to in reg && m.to != reg[a.picks[k]] && m.text == Encode("NOT", KickNotice(NameText(names[a.picks[k]]), a.rest))))
  {
    var a := TargetArgs(line, pos, names).value;
    if a.picks != [] {
      var users := Chosen(reg, a.picks);
      var userNames := PickedNames(names, a.picks);
      KickSendsOf(reg, users, userNames, a.rest, m);
      forall k | 0 <= k < |users|
        ensures m in DisconnectSends(reg, users[k], KickNotice(userNames[k], a.rest), a.rest) <==>
          (m == Sent(reg[a.picks[k]], Encode("DSC", a.rest))
           || (m.to in reg && m.to != reg[a.picks[k]] && m.text == Encode("NOT", KickNotice(NameText(names[a.picks[k]]), a.rest))))
      {
        DisconnectSendsOf(reg, users[k], KickNotice(userNames[k], a.rest), a.rest, m);
      }
    }
  }

  /** A KICK line runs KickCommand on what follows its keyword. */
  lemma CommandIsKick<T>(line: string, reg: seq<T>, names: seq<Option<string>>, addresses: seq<string>, password: string)
    requires |names| == |reg| && |addresses| == |reg| && Classify(line) == KickKind
    ensures NextToken(line, 0).Some?
    ensures Command(line, reg, names, addresses, password) == KickCommand(line, NextToken(line, 0).value.end, reg, names, password)
  {
  }

  /** `KICK * reason` is a KICK whose selector picks every position and whose reason is the rest of the line after `*`. */
  lemma KickStarScans(reason: string, names: seq<Option<string>>)
    requires IsDotPlus(reason)
    ensures var line := "KICK * " + reason;
      && Classify(line) == KickKind && NextToken(line, 0) == Some(Token("KICK", 4))
      && TargetArgs(line, 4, names) == Some(Args(Range(|names|), " " + reason))
  {
    var line := "KICK * " + reason;
    KickStarMatches(reason);
    ClassifyByKeyword(line);
    KickStarTokens(reason);
    SelectAll(names);
  }

  /** `KICK * reason` matches the KICK pattern with `*` as its selector. */
  lemma KickStarMatches(reason: string)
    requires IsDotPlus(reason)
    ensures MatchTargeted("KICK * " + reason, "KICK ")
  {
    var line := "KICK * " + reason;
    assert line[..5] == "KICK " && line[5..6] == "*" && line[7..] == reason;
    assert SelectorEnd(line, "KICK ") == 6 by { assert line[5] == '*' && line[6] == ' '; }
  }

  /** The scanner's view of `KICK * reason`: the keyword, then `*`, then the reason after it. */
  lemma KickStarTokens(reason: string)
    requires IsDotPlus(reason)
    ensures var line := "KICK * " + reason;
      && NextToken(line, 0) == Some(Token("KICK", 4))
      && NextToken(line, 4) == Some(Token("*", 6))
      && NextLine(line, 6) == Some(" " + reason)
  {
    var line := "KICK * " + reason;
    assert line[0..4] == "KICK" && line[5..6] == "*" && line[6..] == " " + reason;
    assert IsWhitespace(line[4]) && IsWhitespace(line[6]);
    TokenAt(line, 0, 0, "KICK");
    TokenAt(line, 4, 5, "*");
    ReasonAfterName(line, 6, reason);
  }

  /**
   * `KICK * reason` disconnects every registered session: each is told DSC
   * with the reason as nextLine returns it (after the space), and every other
   * registered session is told that it was kicked. With nobody registered
   * the answer is that no user matched.
   */
  lemma KickEveryone<T>(reason: string, reg: seq<T>, names: seq<Option<string>>, addresses: seq<string>, password: string)
    requires |names| == |reg| && |addresses| == |reg| && IsDotPlus(reason)
    ensures var e := Command("KICK * " + reason, reg, names, addresses, password);
      && e.dropped == reg && e.flagged == [] && e.password == password
      && e.outcome == (if reg == [] then Output(NoMatch) else Output(""))
      && (forall k :: 0 <= k < |reg| ==> Sent(reg[k], Encode("DSC", " " + reason)) in e.sends)
      && (forall j, k :: 0 <= j < |reg| && 0 <= k < |reg| && reg[j] != reg[k] ==>
            Sent(reg[j], Encode("NOT", KickNotice(NameText(names[k]), " " + reason))) in e.sends)
  {
    var line := "KICK * " + reason;
    KickStarScans(reason, names);
    CommandIsKick(line, reg, names, addresses, password);
    KickCommandSpec(line, 4, reg, names, password);
    var e := Command(line, reg, names, addresses, password);
    ChosenAll(reg);
    forall k | 0 <= k < |reg| ensures Sent(reg[k], Encode("DSC", " " + reason)) in e.sends {
      KickWrites(line, 4, reg, names, password, Sent(reg[k], Encode("DSC", " " + reason)));
      assert Range(|names|)[k] == k;
    }
    forall j, k | 0 <= j < |reg| && 0 <= k < |reg| && reg[j] != reg[k]
      ensures Sent(reg[j], Encode("NOT", KickNotice(NameText(names[k]), " " + reason))) in e.sends
    {
      KickWrites(line, 4, reg, names, password, Sent(reg[j], Encode("NOT", KickNotice(NameText(names[k]), " " + reason))));
      assert Range(|names|)[k] == k;
    }
  }

  /**
   * The selector pattern admits the empty string, so `KICK  name reason`
   * (two spaces) matches the KICK pattern; the scanner skips both spaces and
   * takes `name` as the selector, and the rest of the line as the reason.
   */
  lemma EmptySelectorScans(name: string, reason: string, names: seq<Option<string>>)
    requires IsName(name) && IsDotStar(reason)
    ensures var line := "KICK  " + name + " " + reason;
      && IsSelector("") && Classify(line) == KickKind && NextToken(line, 0) == Some(Token("KICK", 4))
      && TargetArgs(line, 4, names)
         == Some(Args(match FirstIndexOf(names, name) case None => [] case Some(i) => [i], " " + reason))
  {
    EmptySelectorMatches(name, reason);
    ClassifyByKeyword("KICK  " + name + " " + reason);
    EmptySelectorTokens(name, reason);
    SelectOneName(names, name);
  }

  /** The scanner's view of `KICK  name reason`: the keyword, then `name`, then the reason after it. */
  lemma EmptySelectorTokens(name: string, reason: string)
    requires IsName(name) && IsDotStar(reason)
    ensures var line := "KICK  " + name + " " + reason;
      && NextToken(line, 0) == Some(Token("KICK", 4))
      && NextToken(line, 4) == Some(Token(name, 6 + |name|))
      && NextLine(line, 6 + |name|) == Some(" " + reason)
  {
    var line := "KICK  " + name + " " + reason;
    assert line[0..4] == "KICK" && IsWhitespace(line[4]);
    TokenAt(line, 0, 0, "KICK");
    NameAfterSpaces(line, 4, name);
    ReasonAfterName(line, 6 + |name|, reason);
  }

  /** A name after two spaces, and followed by a space, is the next token. */
  lemma NameAfterSpaces(line: string, pos: nat, name: string)
    requires IsName(name) && pos + 3 + |name| <= |line|
    requires line[pos..pos + 2] == "  " && line[pos + 2..pos + 2 + |name|] == name && line[pos + 2 + |name|] == ' '
    ensures NextToken(line, pos) == Some(Token(name, pos + 2 + |name|))
  {
    forall k | 0 <= k < |name| ensures !IsWhitespace(name[k]) {
      assert IsWordChar(name[k]);
    }
    assert line[pos] == ' ' && line[pos + 1] == ' ';
    TokenAt(line, pos, pos + 2, name);
  }

  /** The rest of a line that ends in a space and a one-line reason is the space and the reason. */
  lemma ReasonAfterName(line: string, end: nat, reason: string)
    requires IsDotStar(reason) && end < |line| && line[end..] == " " + reason
    ensures NextLine(line, end) == Some(" " + reason)
  {
    forall k | end <= k < |line| ensures !IsLineTerminator(line[k]) {
      assert line[k] == line[end..][k - end];
    }
    LineToEnd(line, end);
  }

  /** `KICK  name reason` matches the KICK pattern with the empty string as its selector. */
  lemma EmptySelectorMatches(name: string, reason: string)
    requires IsName(name) && IsDotStar(reason)
    ensures MatchTargeted("KICK  " + name + " " + reason, "KICK ")
  {
    var line := "KICK  " + name + " " + reason;
    var end := 6 + |name|;
    assert line[..5] == "KICK ";
    assert SelectorEnd(line, "KICK ") == 5 by { assert line[5] == ' '; }
    assert line[5..5] == [];
    forall k | 6 <= k < |line| ensures !IsLineTerminator(line[k]) {
      if k < end { assert line[k] == name[k - 6] && IsWordChar(name[k - 6]); }
      else if k > end { assert line[k] == reason[k - end - 1]; }
    }
  }

  /** `KICK  name reason` kicks the first session registered under `name`, with the reason after the name. */
  lemma EmptySelectorKick<T>(name: string, reason: string, i: nat, reg: seq<T>, names: seq<Option<string>>, addresses: seq<string>, password: string)
    requires |names| == |reg| && |addresses| == |reg| && IsName(name) && IsDotStar(reason)
    requires FirstIndexOf(names, name) == Some(i)
    ensures var e := Command("KICK  " + name + " " + reason, reg, names, addresses, password);
      e.dropped == [reg[i]] && e.outcome == Output("") && Sent(reg[i], Encode("DSC", " " + reason)) in e.sends
  {
    var line := "KICK  " + name + " " + reason;
    EmptySelectorScans(name, reason, names);
    CommandIsKick(line, reg, names, addresses, password);
    KickCommandSpec(line, 4, reg, names, password);
    KickWrites(line, 4, reg, names, password, Sent(reg[i], Encode("DSC", " " + reason)));
    assert [i][0] == i;
  }

  /** Every write of a KICK goes to a registered session. */
  lemma {:induction false} KickSendsRegistered<T>(reg: seq<T>, users: seq<T>, userNames: seq<string>, message: string)
    requires |userNames| == |users| && forall k :: 0 <= k < |users| ==> users[k] in reg
    ensures forall m :: m in KickSends(reg, users, userNames, message) ==> m.to in reg
  {
    if users != [] {
      var n := |users| - 1;
      KickSendsRegistered(reg, users[..n], userNames[..n], message);
      DisconnectReachesRegistered(reg, users[n], KickNotice(userNames[n], message), message);
    }
  }

  /**
   * The console reaches only registered sessions: every write, every admin
   * flag it sets and every disconnect goes to a session of the registry.
   */
  lemma CommandStaysInRegistry<T>(line: string, reg: seq<T>, names: seq<Option<string>>, addresses: seq<string>, password: string)
    requires |names| == |reg| && |addresses| == |reg|
    ensures var e := Command(line, reg, names, addresses, password);
      && (forall m :: m in e.sends ==> m.to in reg)
      && (forall s :: s in e.flagged ==> s in reg)
      && (forall s :: s in e.dropped ==> s in reg)
  {
    if NextToken(line, 0).Some? {
      var pos := NextToken(line, 0).value.end;
      var e := Command(line, reg, names, addresses, password);
      match Classify(line)
      case AdminKind => assert e == AdminCommand(line, pos, reg, names, password);
      case KickKind => assert e == KickCommand(line, pos, reg, names, password);
      case NotifyKind => assert e == NotifyCommand(line, pos, reg, password);
      case TellKind => assert e == TellCommand(line, pos, reg, names, password);
      case QuitKind => assert e == QuitCommand(line, pos, reg, password);
      case _ =>
    }
  }
}

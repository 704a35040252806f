/**
 * The server and its per-client connections (ChatServer and its inner class
 * OpenSocket). The server owns the registry of connected users, the
 * password and a log of every write to a client; each connection reads
 * frames from its client into a growable byte buffer and dispatches them.
 * The threads of the original are modelled as single steps: any
 * interleaving of the methods below is a possible run.
 */
module Chat {
  import opened Wrappers
  import opened JavaText
  import opened Patterns
  import opened Framing
  import opened Handshake
  import opened Commands
  import opened Wire
  import opened Console

  /** The ERC answer to a frame too short to hold an opcode. */
  const BadFrame := "Bad command sent"
  /** The ERC answer to ADM from a client that is not an admin. */
  const NoPermission := "You do not have admin permissions"

  /** What the others are told when a connection ends without a disconnect. */
  function LostNotice(name: Option<string>): string {
    "\"" + NameText(name) + "\" has lost connection to the server"
  }

  /** What the others are told when a client sends DSC. */
  function LeaveNotice(name: Option<string>): string {
    NameText(name) + " has disconnected from the server"
  }

  /** The names the sessions carry, in registry order. */
  function Names(reg: seq<Session>): (r: seq<Option<string>>)
    reads reg`userName
    ensures |r| == |reg| && forall k :: 0 <= k < |reg| ==> r[k] == reg[k].userName
  {
    if reg == [] then [] else Names(reg[..|reg| - 1]) + [reg[|reg| - 1].userName]
  }

  /** No two registered sessions carry the same name. */
  predicate Distinct<T(==)>(s: seq<T>) {
    forall i, j :: 0 <= i < j < |s| ==> s[i] != s[j]
  }

  /** The sessions' addresses, in registry order. */
  function Addresses(reg: seq<Session>): (r: seq<string>)
    ensures |r| == |reg| && forall k :: 0 <= k < |reg| ==> r[k] == reg[k].address
  {
    seq(|reg|, k requires 0 <= k < |reg| => reg[k].address)
  }

  /** getUsers on the registry: None where it throws, otherwise the selected sessions in order. */
  function Resolve(reg: seq<Session>, selector: string): Option<seq<Session>>
    reads reg`userName
  {
    match Select(Names(reg), selector)
    case None => None
    case Some(picks) => Some(Chosen(reg, picks))
  }

  /** Each frame of a reply written to `s`. */
  function ToSelf(s: Session, frames: seq<string>): (r: seq<Sent<Session>>)
    ensures |r| == |frames| && forall k :: 0 <= k < |r| ==> r[k] == Sent(s, frames[k])
  {
    seq(|frames|, k requires 0 <= k < |frames| => Sent(s, frames[k]))
  }

  /** Picking one more position adds its session at the end. */
  lemma ChosenSnoc(reg: seq<Session>, picks: seq<nat>, p: nat)
    requires forall k :: 0 <= k < |picks| ==> picks[k] < |reg|
    requires p < |reg|
    ensures Chosen(reg, picks + [p]) == Chosen(reg, picks) + [reg[p]]
  {
  }

  /** The names the picks select are the names of the sessions they choose. */
  lemma PickedNamesOfChosen(reg: seq<Session>, picks: seq<nat>)
    requires forall k :: 0 <= k < |picks| ==> picks[k] < |reg|
    ensures forall k :: 0 <= k < |picks| ==> PickedNames(Names(reg), picks)[k] == NameText(Chosen(reg, picks)[k].userName)
  {
  }

  class Server {
    /** allConnections: the sessions whose handshake succeeded, in the order they joined. */
    var registry: seq<Session>
    /** The connection password; empty when none is set. */
    var password: string
    /** Every write to a client, in the order the writes happen. */
    var wire: seq<Sent<Session>>
    /** Set when QUIT ends the process. */
    var exited: bool

    /** Every registered session belongs to this server and has a name. */
    ghost predicate Valid()
      reads this`registry, registry`userName
    {
      forall s :: s in registry ==> s.server == this && s.userName.Some?
    }

    /**
     * What one command did to the server and to the registered sessions:
     * the password and the exit flag of `e`, the admin flag of every session
     * it flagged and the disconnect of every session it dropped; every other
     * registered session keeps its state. The writes are stated apart, since
     * a reply may follow them.
     */
    twostate predicate Applied(e: Effect<Session>)
      reads this, registry
    {
      && registry == old(registry)
      && password == e.password
      && exited == (old(exited) || e.outcome.Exit?)
      && Marked(e.flagged, e.on, e.dropped)
    }

    /**
     * The registered sessions after admin flags were set to `on` on
     * `flagged` and the sessions in `dropped` were disconnected: a dropped
     * session is marked as leaving and its input is shut; a session in
     * neither list keeps its state.
     */
    twostate predicate Marked(flagged: seq<Session>, on: bool, dropped: seq<Session>)
      reads this, registry
    {
      && registry == old(registry)
      && (forall s :: s in registry ==> s.userName == old(s.userName))
      && (forall s :: s in registry ==> s.isAdmin == if s in flagged then on else old(s.isAdmin))
      && (forall s :: s in registry ==> s.willDisconnect == (old(s.willDisconnect) || s in dropped))
      && (forall s :: s in registry ==> s.incoming == if s in dropped then [] else old(s.incoming))
    }

    constructor ()
      ensures Valid() && registry == [] && password == "" && wire == [] && !exited
    {
      registry := [];
      password := "";
      wire := [];
      exited := false;
    }

    /**
     * getUsers: the selector trimmed and split on ','; `*` first selects the
     * whole registry, otherwise each listed name picks the first session
     * registered under it. None where `users[0]` is out of bounds.
     */
    method GetUsers(selector: string) returns (users: Option<seq<Session>>)
      ensures users == Resolve(registry, selector)
    {
      var parts := JavaSplit(Trim(selector), ',');
      if |parts| == 0 {
        return None;
      }
      if parts[0] == "*" {
        ChosenAll(registry);
        return Some(registry);
      }
      ghost var names := Names(registry);
      var found: seq<Session> := [];
      ghost var picks: seq<nat> := [];
      var i := 0;
      while i < |parts|
        invariant 0 <= i <= |parts|
        invariant picks == Picks(names, parts[..i])
        invariant found == Chosen(registry, picks)
      {
        var j := FirstNamed(parts[i]);
        PrefixSnoc(parts, i);
        if j < |registry| {
          ChosenSnoc(registry, picks, j);
          picks := picks + [j];
          found := found + [registry[j]];
        }
        i := i + 1;
      }
      PrefixAll(parts);
      return Some(found);
    }

    /** getUsers' inner loop: the position of the first session registered under `name`, |registry| when there is none. */
    method FirstNamed(name: string) returns (j: nat)
      ensures FirstIndexOf(Names(registry), name) == if j < |registry| then Some(j) else None
    {
      ghost var names := Names(registry);
      j := 0;
      while j < |registry|
        invariant j <= |registry|
        invariant forall m :: 0 <= m < j ==> names[m] != Some(name)
      {
        if registry[j].userName == Some(name) {
          return;
        }
        j := j + 1;
      }
    }

    /** ADMIN's scanning in processCommand: the selector token, getUsers on it, and the flag token. */
    method ScanAdmin(line: string, pos: nat, ghost names: seq<Option<string>>) returns (found: bool, users: seq<Session>, flag: string, ghost picks: seq<nat>)
      requires pos <= |line| && names == Names(registry)
      ensures found <==> AdminArgs(line, pos, names).Some?
      ensures found ==> AdminArgs(line, pos, names) == Some(Args(picks, flag)) && users == Chosen(registry, picks)
    {
      found, users, flag, picks := false, [], "", [];
      var selector := NextToken(line, pos);
      if selector.Some? {
        var chosen := GetUsers(selector.value.text);
        if chosen.Some? {
          var next := NextToken(line, selector.value.end);
          if next.Some? {
            found, users, flag, picks := true, chosen.value, next.value.text, Select(names, selector.value.text).value;
          }
        }
      }
    }

    /** KICK's and TELL's scanning in processCommand: the selector token, getUsers on it, and the rest of the line. */
    method ScanTargets(line: string, pos: nat, ghost names: seq<Option<string>>) returns (found: bool, users: seq<Session>, message: string, ghost picks: seq<nat>)
      requires pos <= |line| && names == Names(registry)
      ensures found <==> TargetArgs(line, pos, names).Some?
      ensures found ==> TargetArgs(line, pos, names) == Some(Args(picks, message)) && users == Chosen(registry, picks)
    {
      found, users, message, picks := false, [], "", [];
      var selector := NextToken(line, pos);
      if selector.Some? {
        var chosen := GetUsers(selector.value.text);
        if chosen.Some? {
          var rest := NextLine(line, selector.value.end);
          if rest.Some? {
            found, users, message, picks := true, chosen.value, rest.value, Select(names, selector.value.text).value;
          }
        }
      }
    }

    /** ADMIN: sets the admin flag of every selected session and lists their names, last first. */
    method SetAdmin(line: string, pos: nat) returns (o: Outcome)
      requires Valid() && pos <= |line|
      modifies registry`isAdmin
      ensures Valid()
      ensures var e := old(AdminCommand(line, pos, registry, Names(registry), password));
        o == e.outcome && wire == old(wire) + e.sends && Applied(e)
    {
      ghost var names := Names(registry);
      ghost var e := AdminCommand(line, pos, registry, names, password);
      var found, users, flag, picks := ScanAdmin(line, pos, names);
      if !found {
        o := Failed;
      } else if !(flag[0] == 'y' || flag[0] == 'Y' || flag[0] == 'n' || flag[0] == 'N') {
        o := Output(BadArgument);
      } else if |users| == 0 {
        o := Output(NoMatch);
      } else {
        PickedNamesOfChosen(registry, picks);
        o := SetAdminUsers(e, users, flag[0] == 'y' || flag[0] == 'Y', PickedNames(names, picks));
      }
    }

    /** ADMIN once the users are resolved: the effect `e` sets their flags and answers with their names. */
    method SetAdminUsers(ghost e: Effect<Session>, users: seq<Session>, on: bool, ghost userNames: seq<string>) returns (o: Outcome)
      requires Valid() && forall k :: 0 <= k < |users| ==> users[k] in registry
      requires |userNames| == |users| && forall k :: 0 <= k < |users| ==> userNames[k] == NameText(users[k].userName)
      requires e == Effect(Output(AdminText(userNames, on)), [], password, users, on, [])
      modifies registry`isAdmin
      ensures Valid()
      ensures o == e.outcome && wire == old(wire) + e.sends && Applied(e)
    {
      var result := SetFlags(users, on, userNames);
      o := Output(AdminAnswer(result, on));
    }

    /** The loop of ADMIN: each user's flag set in turn, its name put in front of the result. */
    method SetFlags(users: seq<Session>, on: bool, ghost userNames: seq<string>) returns (result: string)
      requires |userNames| == |users| && forall k :: 0 <= k < |users| ==> userNames[k] == NameText(users[k].userName)
      modifies users`isAdmin
      ensures result == Prepended(userNames)
      ensures Marked(users, on, [])
    {
      result := "";
      var i := 0;
      while i < |users|
        invariant 0 <= i <= |users|
        invariant result == Prepended(userNames[..i])
        invariant forall s :: s in registry ==> s.isAdmin == if s in users[..i] then on else old(s.isAdmin)
      {
        var soc := users[i];
        PrefixSnoc(users, i);
        PrefixSnoc(userNames, i);
        result := NameText(soc.userName) + " " + result;
        soc.isAdmin := on;
        i := i + 1;
      }
      PrefixAll(users);
      PrefixAll(userNames);
    }

    /** KICK: disconnects every selected session with the kick notice and the reason. */
    method Kick(line: string, pos: nat) returns (o: Outcome)
      requires Valid() && pos <= |line|
      modifies this`wire, registry`willDisconnect, registry`incoming
      ensures Valid()
      ensures var e := old(KickCommand(line, pos, registry, Names(registry), password));
        o == e.outcome && wire == old(wire) + e.sends && Applied(e)
    {
      ghost var names := Names(registry);
      ghost var e := KickCommand(line, pos, registry, names, password);
      var found, users, message, picks := ScanTargets(line, pos, names);
      if !found {
        o := Failed;
      } else if |users| == 0 {
        o := Output(NoMatch);
      } else {
        PickedNamesOfChosen(registry, picks);
        o := KickUsers(e, users, message, PickedNames(names, picks));
      }
    }

    /** KICK once the users are resolved: the effect `e` is their disconnection. */
    method KickUsers(ghost e: Effect<Session>, users: seq<Session>, message: string, ghost userNames: seq<string>) returns (o: Outcome)
      requires Valid() && forall k :: 0 <= k < |users| ==> users[k] in registry
      requires |userNames| == |users| && forall k :: 0 <= k < |users| ==> userNames[k] == NameText(users[k].userName)
      requires e == Effect(Output(""), KickSends(registry, users, userNames, message), password, [], false, users)
      modifies this`wire, registry`willDisconnect, registry`incoming
      ensures Valid()
      ensures o == e.outcome && wire == old(wire) + e.sends && Applied(e)
    {
      DisconnectEach(users, message, userNames);
      o := Output("");
    }

    /** The loop of KICK: each user disconnected in turn, with the kick notice naming it. */
    method DisconnectEach(users: seq<Session>, message: string, ghost userNames: seq<string>)
      requires forall k :: 0 <= k < |users| ==> users[k].server == this
      requires |userNames| == |users| && forall k :: 0 <= k < |users| ==> userNames[k] == NameText(users[k].userName)
      modifies this`wire, users`willDisconnect, users`incoming
      ensures wire == old(wire) + KickSends(registry, users, userNames, message)
      ensures Marked([], false, users)
    {
      var i := 0;
      while i < |users|
        invariant 0 <= i <= |users|
        invariant wire == old(wire) + KickSends(registry, users[..i], userNames[..i], message)
        invariant forall s :: s in registry ==> s.willDisconnect == (old(s.willDisconnect) || s in users[..i])
        invariant forall s :: s in registry ==> s.incoming == if s in users[..i] then [] else old(s.incoming)
      {
        var soc := users[i];
        PrefixSnoc(users, i);
        PrefixSnoc(userNames, i);
        KickSendsSnoc(registry, users, userNames, i, message);
        AppendAssoc(old(wire), KickSends(registry, users[..i], userNames[..i], message),
                    DisconnectSends(registry, soc, KickNotice(userNames[i], message), message));
        soc.Disconnect(KickNotice(NameText(soc.userName), message), message);
        i := i + 1;
      }
      PrefixAll(users);
      PrefixAll(userNames);
    }

    /** NOTIFY: the announcement to every registered session. */
    method Notify(line: string, pos: nat) returns (o: Outcome)
      requires Valid() && pos <= |line|
      modifies this`wire
      ensures var e := old(NotifyCommand(line, pos, registry, password));
        o == e.outcome && wire == old(wire) + e.sends && Applied(e)
    {
      var message := NextLine(line, pos);
      if message.None? {
        return Failed;
      }
      var text := Encode("NOT", Announcement + message.value);
      SendToEach(registry, text);
      return Output("");
    }

    /** TELL: the message to every selected session. */
    method Tell(line: string, pos: nat) returns (o: Outcome)
      requires Valid() && pos <= |line|
      modifies this`wire
      ensures var e := old(TellCommand(line, pos, registry, Names(registry), password));
        o == e.outcome && wire == old(wire) + e.sends && Applied(e)
    {
      ghost var names := Names(registry);
      ghost var e := TellCommand(line, pos, registry, names, password);
      var found, users, message, picks := ScanTargets(line, pos, names);
      if !found {
        o := Failed;
      } else if |users| == 0 {
        o := Output(NoMatch);
      } else {
        o := TellUsers(e, users, Encode("NOT", FromServer + message));
      }
    }

    /** TELL once the users are resolved: the effect `e` writes the message frame to each of them. */
    method TellUsers(ghost e: Effect<Session>, users: seq<Session>, text: string) returns (o: Outcome)
      requires forall k :: 0 <= k < |users| ==> users[k].server == this
      requires e == Effect(Output(""), ToEach(users, text), password, [], false, [])
      modifies this`wire
      ensures o == e.outcome && wire == old(wire) + e.sends && Applied(e)
    {
      SendToEach(users, text);
      o := Output("");
    }

    /** sendMessageToSelf on each of `users` in turn. */
    method SendToEach(users: seq<Session>, text: string)
      requires forall k :: 0 <= k < |users| ==> users[k].server == this
      modifies this`wire
      ensures wire == old(wire) + ToEach(users, text)
    {
      var i := 0;
      while i < |users|
        invariant 0 <= i <= |users|
        invariant wire == old(wire) + ToEach(users[..i], text)
      {
        users[i].SendMessageToSelf(text);
        ToEachSnoc(users, i, text);
        i := i + 1;
      }
      PrefixAll(users);
    }

    /** QUIT: disconnects every registered session with the message, then ends the process. */
    method Quit(line: string, pos: nat) returns (o: Outcome)
      requires Valid() && pos <= |line|
      modifies this`wire, this`exited, registry`willDisconnect, registry`incoming
      ensures Valid()
      ensures var e := old(QuitCommand<Session>(line, pos, registry, password));
        o == e.outcome && wire == old(wire) + e.sends && Applied(e)
    {
      DisconnectAll(QuitMessage(line, pos));
      exited := true;
      return Exit;
    }

    /** QUIT's loop: each registered session disconnected in turn, with no notice to the others. */
    method DisconnectAll(message: string)
      requires Valid()
      modifies this`wire, registry`willDisconnect, registry`incoming
      ensures wire == old(wire) + ToEach(registry, Encode("DSC", message))
      ensures Marked([], false, registry)
    {
      var text := Encode("DSC", message);
      var i := 0;
      while i < |registry|
        invariant 0 <= i <= |registry|
        invariant wire == old(wire) + ToEach(registry[..i], text)
        invariant forall s :: s in registry ==> s.willDisconnect == (old(s.willDisconnect) || s in registry[..i])
        invariant forall s :: s in registry ==> s.incoming == if s in registry[..i] then [] else old(s.incoming)
      {
        var soc := registry[i];
        PrefixSnoc(registry, i);
        ToEachSnoc(registry, i, text);
        soc.Disconnect("", message);
        i := i + 1;
      }
      PrefixAll(registry);
    }

    /** LIST: one line per registration, or a fixed text when nobody is connected. */
    method ListUsers() returns (text: string)
      ensures text == ListText(Entries(Names(registry), Addresses(registry)))
    {
      ghost var entries := Entries(Names(registry), Addresses(registry));
      var sb := "";
      if |registry| == 0 {
        sb := NobodyConnected;
      }
      var i := 0;
      while i < |registry|
        invariant 0 <= i <= |registry|
        invariant sb == ListBuilt(entries, i)
      {
        var soc := registry[i];
        assert entries[i] == ListEntry(NameText(soc.userName), soc.address);
        sb := sb + ListEntry(NameText(soc.userName), soc.address);
        if i < |registry| - 1 {
          sb := sb + "\n";
        }
        i := i + 1;
      }
      ListBuiltAll(entries);
      return sb;
    }

    /**
     * processCommand: classifies the line and runs the command; every effect
     * and the result are those of the function Command.
     */
    method ProcessCommand(line: string) returns (o: Outcome)
      requires Valid()
      modifies this`wire, this`password, this`exited, registry`isAdmin, registry`willDisconnect, registry`incoming
      ensures Valid()
      ensures var e := old(Command(line, registry, Names(registry), Addresses(registry), password));
        o == e.outcome && wire == old(wire) + e.sends && Applied(e)
    {
      ghost var names, addresses := Names(registry), Addresses(registry);
      ghost var e := Command(line, registry, names, addresses, password);
      var first := NextToken(line, 0);
      if first.None? {
        return Failed;
      }
      var pos := first.value.end;
      match Classify(line)
      case AdminKind =>
        assert e == AdminCommand(line, pos, registry, names, password);
        o := SetAdmin(line, pos);
      case KickKind =>
        assert e == KickCommand(line, pos, registry, names, password);
        o := Kick(line, pos);
      case NotifyKind =>
        assert e == NotifyCommand(line, pos, registry, password);
        o := Notify(line, pos);
      case TellKind =>
        assert e == TellCommand(line, pos, registry, names, password);
        o := Tell(line, pos);
      case QuitKind =>
        assert e == QuitCommand(line, pos, registry, password);
        o := Quit(line, pos);
      case PswdKind | ListKind | HelpKind | Unknown =>
        o := Respond(line, pos);
      case Blank =>
        o := Failed;
    }

    /**
     * The branches of processCommand that only answer: PSWD, which sets or
     * clears the password, LIST, HELP, and the lines that are no command.
     */
    method Respond(line: string, pos: nat) returns (o: Outcome)
      requires NextToken(line, 0).Some? && pos == NextToken(line, 0).value.end
      requires Classify(line) in {PswdKind, ListKind, HelpKind, Unknown}
      modifies this`password
      ensures old(Command(line, registry, Names(registry), Addresses(registry), password)) == Answer(o, password)
      ensures !o.Exit?
    {
      ghost var e := Command(line, registry, Names(registry), Addresses(registry), password);
      match Classify(line)
      case PswdKind =>
        if NextToken(line, pos).Some? {
          assert e == Answer(Output(PasswordSet), NewPassword(line, pos));
          password := NewPassword(line, pos);
          o := Output(PasswordSet);
        } else {
          assert e == Answer(Output(PasswordRemoved), "");
          password := "";
          o := Output(PasswordRemoved);
        }
      case ListKind =>
        assert e == Answer(Output(ListText(Entries(Names(registry), Addresses(registry)))), password);
        var text := ListUsers();
        o := Output(text);
      case HelpKind =>
        assert e == Answer(Output(HelpText), password);
        o := Output(HelpText);
      case Unknown =>
        assert e == Answer(Failed, password);
        o := Failed;
    }
  }

  class Session {
    /** The server this connection belongs to. */
    const server: Server
    /** The client's address, as LIST prints it. */
    const address: string
    /** The character codes the client has sent that are not read yet; empty once the stream has ended. */
    var incoming: seq<int>
    /** The frame being read, one byte per slot. */
    var buf: array<int>
    var bufSize: int
    /** Bytes stored in `buf`, plus one for the terminator once it is read. */
    var bufItems: int
    /** Set when the server itself ends the connection, so that its end is not reported as lost. */
    var willDisconnect: bool
    var closed: bool
    /** None until a handshake succeeds. */
    var userName: Option<string>
    var isAdmin: bool

    ghost predicate Valid()
      reads this
    {
      && buf.Length == bufSize && 0 < bufSize && 0 <= bufItems <= bufSize + 1
      && forall k :: 0 <= k < |incoming| ==> 0 <= incoming[k] < 0x10000
    }

    /** Nothing of the server but the registry and the log changed, and no other registered session changed. */
    twostate predicate Bystanders()
      reads this, server, server.registry
    {
      && server.password == old(server.password) && server.exited == old(server.exited)
      && forall s :: s in server.registry && s in old(server.registry) && s != this ==> unchanged(s)
    }

    /**
     * The handshake with `content`: on acceptance the session takes the name,
     * is told CON, the others are told it joined and it is registered; on
     * refusal it is told why with NCN and its connection is closed.
     */
    twostate predicate Connected(content: string)
      reads this, server, server.registry
    {
      var v := old(Judge(server.password, content, Names(server.registry)));
      if v.Accepted? then Joined(v.name) else Refused(v)
    }

    /** An accepted handshake under `name`. */
    twostate predicate Joined(name: string)
      reads this, server, server.registry
    {
      && Bystanders() && isAdmin == old(isAdmin) && incoming == old(incoming)
      && userName == Some(name) && willDisconnect == old(willDisconnect) && closed == old(closed)
      && server.wire == old(server.wire) + [Sent(this, Encode("CON", ""))]
                        + Fanout(old(server.registry), this, Encode("NOT", JoinNotice(name)))
      && server.registry == old(server.registry) + [this]
    }

    /** A handshake refused for the reason `v`. */
    twostate predicate Refused(v: Verdict)
      requires !v.Accepted?
      reads this, server, server.registry
    {
      && Bystanders() && isAdmin == old(isAdmin) && incoming == old(incoming)
      && userName == old(userName) && willDisconnect && closed
      && server.wire == old(server.wire) + [Sent(this, Encode("NCN", Reason(v)))]
      && server.registry == RemoveFirst(old(server.registry), this)
    }

    /**
     * The codes of `input` the read loop stores, held in a buffer that started
     * with `size` bytes and doubled as often as they needed; the code that
     * stopped the loop is consumed.
     */
    ghost predicate Buffered(input: seq<int>, size: int)
      reads this`buf, this`bufSize, this`incoming, buf
    {
      var n := FrameEnd(input);
      && 0 < size && buf.Length == bufSize
      && bufSize == Capacity(size, n)
      && buf[..n] == Stored(input[..n])
      && incoming == (if n < |input| then input[n + 1..] else [])
    }

    /**
     * readMessage from a state with an empty buffer: the positive codes up to
     * the first that is not are stored as bytes, in a buffer doubled as often
     * as they need, and the code that stopped the loop is consumed. The end
     * of the stream closes the connection with nothing counted for a
     * terminator; otherwise the terminator is counted, and stored when it
     * fits, and a terminator that does not fit closes the connection too.
     */
    twostate predicate FrameRead()
      reads this, buf, server
    {
      var input := old(incoming);
      var n := FrameEnd(input);
      var ends := n == |input| || n == bufSize;
      && Buffered(input, old(bufSize))
      && bufItems == (if n < |input| then n + 1 else n)
      && (n < |input| && n < bufSize ==> buf[n] == 0)
      && closed == ends
      && server.registry == (if ends then RemoveFirst(old(server.registry), this) else old(server.registry))
      && server.wire == old(server.wire)
           + if ends && !willDisconnect then Fanout(old(server.registry), this, Encode("NOT", LostNotice(userName))) else []
    }

    /** Nothing changed but the log: the server's other state, the registry and this session's own fields. */
    twostate predicate Quiet()
      reads this, server, server.registry
    {
      && Bystanders() && server.registry == old(server.registry)
      && userName == old(userName) && isAdmin == old(isAdmin) && willDisconnect == old(willDisconnect)
      && closed == old(closed) && incoming == old(incoming)
    }

    /**
     * ADM with `content`: from an admin, the command runs with the effect the
     * function Command gives it and, unless it ended the process, its reply
     * frames follow its writes; from anyone else, an ERC frame and nothing else.
     */
    twostate predicate AdminHandled(content: string)
      reads this, server, server.registry
    {
      if old(isAdmin) then
        var e := old(Command(content, server.registry, Names(server.registry), Addresses(server.registry), server.password));
        && server.Applied(e)
        && server.wire == old(server.wire) + e.sends + (if e.outcome.Exit? then [] else ToSelf(this, AdminReply(e.outcome)))
        && userName == old(userName) && closed == old(closed)
        && (incoming == old(incoming) || incoming == [])
      else
        Quiet() && server.wire == old(server.wire) + [Sent(this, Encode("ERC", NoPermission))]
    }

    /**
     * handleMessage on the frame `f`: a short frame is answered with ERC; NCR
     * is the handshake; SND is relayed as MSG with the sender's name to every
     * other registered session; DSC is a disconnect with the leave notice;
     * ADM is the admin console; any other opcode changes nothing.
     */
    twostate predicate Handled(f: Frame)
      reads this, server, server.registry
    {
      match f
      case ShortFrame => Quiet() && server.wire == old(server.wire) + [Sent(this, Encode("ERC", BadFrame))]
      case Frame(op, content) =>
        if op == "NCR" then Connected(content)
        else if op == "SND" then
          Quiet() && server.wire == old(server.wire) + Fanout(old(server.registry), this, Encode("MSG", NameText(userName) + [SEP] + content))
        else if op == "DSC" then
          && Bystanders() && server.registry == old(server.registry)
          && userName == old(userName) && isAdmin == old(isAdmin) && closed == old(closed)
          && willDisconnect && incoming == []
          && server.wire == old(server.wire) + DisconnectSends(old(server.registry), this, LeaveNotice(userName), "")
        else if op == "ADM" then AdminHandled(content)
        else Quiet() && server.wire == old(server.wire)
    }

    /**
     * handleMessage registers no session but this one, keeps the unread
     * input or drops it all, and reopens no closed connection.
     */
    twostate lemma HandledSettles(f: Frame)
      requires Handled(f)
      ensures forall k :: 0 <= k < |server.registry| ==> server.registry[k] in old(server.registry) || server.registry[k] == this
      ensures incoming == old(incoming) || incoming == []
      ensures old(closed) ==> closed
      ensures closed && !old(closed) ==> userName == old(userName)
    {
      if f.Frame? && f.opcode == "NCR" {
        var v := old(Judge(server.password, f.content, Names(server.registry)));
        if !v.Accepted? {
          assert Refused(v);
        }
      }
    }

    /** A read that meets the end of the stream before a non-positive code stores all of the input and closes the connection. */
    twostate lemma ReadToEnd()
      requires FrameRead() && FrameEnd(old(incoming)) == |old(incoming)|
      ensures closed && bufItems == |old(incoming)| <= buf.Length && buf[..bufItems] == Stored(old(incoming))
      ensures server.registry == RemoveFirst(old(server.registry), this)
    {
      assert old(incoming)[..bufItems] == old(incoming);
    }

    /** An NCR frame whose name the server accepts names the session and registers it, whatever its connection state. */
    twostate lemma HandledJoin(name: string)
      requires Handled(Frame("NCR", name))
      requires old(Judge(server.password, name, Names(server.registry))) == Accepted(name)
      ensures userName == Some(name) && server.registry == old(server.registry) + [this] && closed == old(closed)
    {
      assert Joined(name);
    }

    /**
     * A new session's handshake keeps the registered names distinct: an
     * accepted name is one no registered session carries, and a refusal
     * registers nothing.
     */
    twostate lemma JoinKeepsNamesDistinct(content: string)
      requires old(this !in server.registry) && old(Distinct(Names(server.registry)))
      requires Handled(Frame("NCR", content))
      ensures Distinct(Names(server.registry))
    {
      var v := old(Judge(server.password, content, Names(server.registry)));
      var before := old(server.registry);
      var n := Names(server.registry);
      if v.Accepted? {
        assert Joined(v.name);
        forall k | 0 <= k < |before| ensures n[k] == old(Names(server.registry))[k] {
          var s := before[k];
          assert server.registry[k] == s && s in server.registry && s in before && s != this;
          assert unchanged(s);
          assert s.userName == old(s.userName);
        }
        forall i, j | 0 <= i < j < |n| ensures n[i] != n[j] {
          if j == |before| {
            assert n[j] == Some(v.name) && n[i] in old(Names(server.registry));
          }
        }
      } else {
        assert Refused(v);
        assert server.registry == before;
        forall k | 0 <= k < |before| ensures n[k] == old(Names(server.registry))[k] {
          var s := before[k];
          assert server.registry[k] == s && s in server.registry && s in before && s != this;
          assert unchanged(s);
          assert s.userName == old(s.userName);
        }
      }
    }

    constructor (server: Server, address: string, incoming: seq<int>)
      requires forall k :: 0 <= k < |incoming| ==> 0 <= incoming[k] < 0x10000
      ensures Valid() && this.server == server && this.address == address && this.incoming == incoming
      ensures bufSize == 1024 && bufItems == 0 && fresh(buf)
      ensures !willDisconnect && !closed && userName == None && !isAdmin
    {
      this.server := server;
      this.address := address;
      this.incoming := incoming;
      bufSize := 1024;
      bufItems := 0;
      buf := new int[1024](_ => 0);
      isAdmin := false;
      willDisconnect := false;
      closed := false;
      userName := None;
    }

    /** in.read(): the next character code, or -1 once the stream has ended. */
    method Read() returns (c: int)
      modifies this`incoming
      ensures old(incoming) == [] ==> c == -1 && incoming == []
      ensures old(incoming) != [] ==> c == old(incoming)[0] && incoming == old(incoming)[1..]
    {
      if incoming == [] {
        c := -1;
      } else {
        c := incoming[0];
        incoming := incoming[1..];
      }
    }

    /** sendMessageToSelf: one write to this client. */
    method SendMessageToSelf(m: string)
      modifies server`wire
      ensures server.wire == old(server.wire) + [Sent(this, m)]
    {
      server.wire := server.wire + [Sent(this, m)];
    }

    /** sendMessageToOthers: one write to every registered session but this one. */
    method SendMessageToOthers(m: string)
      modifies server`wire
      ensures server.wire == old(server.wire) + Fanout(server.registry, this, m)
    {
      var i := 0;
      while i < |server.registry|
        invariant 0 <= i <= |server.registry|
        invariant server.wire == old(server.wire) + Fanout(server.registry[..i], this, m)
      {
        var soc := server.registry[i];
        PrefixSnoc(server.registry, i);
        if soc != this {
          server.wire := server.wire + [Sent(soc, m)];
        }
        i := i + 1;
      }
      PrefixAll(server.registry);
    }

    /**
     * disconnect: marks the end as intended, tells the others (unless there
     * is nothing to tell) and the client, and shuts the input down, so the
     * next read sees the end of the stream.
     */
    method Disconnect(toOthers: string, toSelf: string)
      modifies this`willDisconnect, this`incoming, server`wire
      ensures willDisconnect && incoming == []
      ensures server.wire == old(server.wire) + DisconnectSends(server.registry, this, toOthers, toSelf)
    {
      willDisconnect := true;
      if toOthers != "" {
        SendMessageToOthers(Encode("NOT", toOthers));
      }
      SendMessageToSelf(Encode("DSC", toSelf));
      incoming := [];
    }

    /** closeSocket: reports an unintended end to the others, closes the connection and unregisters it. */
    method CloseSocket()
      requires server.Valid()
      modifies this`closed, server`registry, server`wire
      ensures server.Valid()
      ensures closed && server.registry == RemoveFirst(old(server.registry), this)
      ensures server.wire == old(server.wire)
        + if willDisconnect then [] else Fanout(old(server.registry), this, Encode("NOT", LostNotice(userName)))
    {
      if !willDisconnect {
        SendMessageToOthers(Encode("NOT", LostNotice(userName)));
      }
      closed := true;
      server.registry := RemoveFirst(server.registry, this);
    }

    /** The NCN refusal of a handshake: the reason, then the connection is closed as intended. */
    method Refuse(v: Verdict)
      requires !v.Accepted? && server.Valid()
      modifies this`willDisconnect, this`closed, server`registry, server`wire
      ensures server.Valid() && Refused(v)
    {
      SendMessageToSelf(Encode("NCN", Reason(v)));
      willDisconnect := true;
      CloseSocket();
    }

    /** The NCR branch of handleMessage. */
    method Connect(content: string)
      requires server.Valid()
      modifies this`userName, this`willDisconnect, this`closed, server`registry, server`wire
      ensures server.Valid()
      ensures Handled(Frame("NCR", content))
    {
      var verdict := Admit(content);
      if verdict.Accepted? {
        Join(verdict.name);
      } else {
        Refuse(verdict);
      }
    }

    /**
     * The checks of the handshake, in the order they are made: the password
     * when one is set, then the form of the name, then whether a registered
     * session already carries it.
     */
    method Admit(content: string) returns (verdict: Verdict)
      ensures verdict == Judge(server.password, content, Names(server.registry))
    {
      var credentials := Credentials(content);
      var name, pass := credentials.0, credentials.1;
      verdict := Accepted(name);
      if server.password != "" && pass != Some(server.password) {
        verdict := WrongPassword;
      } else if !IsName(name) {
        verdict := BadUserName;
      } else {
        // the scan of allConnections for the name is the same loop as getUsers' inner one
        var j := server.FirstNamed(name);
        if j < |server.registry| {
          verdict := NameTaken;
        }
      }
    }

    /** The accepted handshake: the name taken, CON to the client, the join notice to the others, then registration. */
    method Join(name: string)
      requires server.Valid()
      modifies this`userName, server`registry, server`wire
      ensures server.Valid() && Joined(name)
    {
      userName := Some(name);
      SendMessageToSelf(Encode("CON", ""));
      SendMessageToOthers(Encode("NOT", JoinNotice(name)));
      server.registry := server.registry + [this];
    }

    /** The doubling in readMessage: a buffer twice as large, holding the old bytes first and zeros after them. */
    method Grow()
      requires Valid()
      modifies this`buf, this`bufSize
      ensures fresh(buf) && bufSize == 2 * old(bufSize) && buf.Length == bufSize
      ensures buf[..old(bufSize)] == old(buf[..])
      ensures forall k :: old(bufSize) <= k < bufSize ==> buf[k] == 0
    {
      bufSize := bufSize * 2;
      var newBuf := new int[bufSize](_ => 0);
      var i := 0;
      while i < buf.Length
        invariant 0 <= i <= buf.Length && newBuf.Length == 2 * buf.Length
        invariant buf == old(buf) && bufSize == 2 * old(bufSize)
        invariant newBuf[..i] == buf[..i]
        invariant forall k :: buf.Length <= k < newBuf.Length ==> newBuf[k] == 0
      {
        newBuf[i] := buf[i];
        i := i + 1;
      }
      buf := newBuf;
    }

    /** One pass of the read loop: the buffer doubled when it is full, then the code stored as a byte. */
    method Store(c: int)
      requires Valid() && bufItems <= bufSize
      modifies this`buf, this`bufSize, this`bufItems, buf
      ensures Valid() && (buf == old(buf) || fresh(buf))
      ensures bufSize == if old(bufItems) == old(bufSize) then 2 * old(bufSize) else old(bufSize)
      ensures bufItems == old(bufItems) + 1 && buf[..bufItems] == old(buf[..bufItems]) + [JavaByte(c)]
    {
      if bufItems >= bufSize {
        Grow();
      }
      ghost var stored := buf[..bufItems];
      buf[bufItems] := JavaByte(c);
      assert buf[..bufItems + 1] == stored + [JavaByte(c)];
      bufItems := bufItems + 1;
    }

    /**
     * The state of the read loop over the codes `input`, started on a buffer
     * of `size` bytes: the positive codes before `bufItems` are stored, the
     * buffer has grown as they needed, and `c` is the code read last (-1 at
     * the end of the stream), with the rest still to be read.
     */
    ghost predicate Filling(input: seq<int>, size: int, c: int)
      reads this, buf
    {
      && Valid() && 0 < size && bufItems <= |input|
      && bufSize == Capacity(size, bufItems)
      && (forall i :: 0 <= i < bufItems ==> input[i] > 0)
      && (bufItems < |input| ==> c == input[bufItems] && incoming == input[bufItems + 1..])
      && (bufItems == |input| ==> c == -1 && incoming == [])
      && buf[..bufItems] == Stored(input[..bufItems])
    }

    /** One pass of the read loop: the positive code `c` stored, the next code read. */
    method Advance(c: int, ghost input: seq<int>, ghost size: int) returns (next: int)
      requires Filling(input, size, c) && c > 0
      modifies this`incoming, this`buf, this`bufSize, this`bufItems, buf
      ensures Filling(input, size, next) && bufItems == old(bufItems) + 1 && (buf == old(buf) || fresh(buf))
    {
      CapacityStep(size, bufItems);
      PrefixSnoc(input, bufItems);
      StoredSnoc(input[..bufItems], c);
      Store(c);
      next := Read();
    }

    /**
     * The read loop of readMessage, from an empty buffer: the positive codes
     * up to the first that is not are stored as bytes, the buffer doubled
     * whenever it is full; `c` is the code that stopped the loop, -1 at the
     * end of the stream.
     */
    method Fill() returns (c: int)
      requires Valid() && bufItems == 0
      modifies this`incoming, this`buf, this`bufSize, this`bufItems, buf
      ensures Valid() && (buf == old(buf) || fresh(buf)) && Buffered(old(incoming), old(bufSize))
      ensures var input := old(incoming); var n := FrameEnd(input);
        bufItems == n && c == (if n < |input| then input[n] else -1)
    {
      ghost var input := incoming;
      ghost var size := bufSize;
      c := Read();
      while c > 0
        invariant Filling(input, size, c) && (buf == old(buf) || fresh(buf))
        decreases |input| - bufItems
      {
        c := Advance(c, input, size);
      }
      FrameEndAt(input, bufItems);
    }

    /** readMessage, on an open connection whose buffer run() has emptied. */
    method ReadMessage()
      requires Valid() && !closed && bufItems == 0
      requires server.Valid()
      modifies this`incoming, this`buf, this`bufSize, this`bufItems, buf, this`closed, server`registry, server`wire
      ensures Valid() && server.Valid() && (buf == old(buf) || fresh(buf))
      ensures FrameRead()
    {
      ghost var input, size := incoming, bufSize;
      var c := Fill();
      Finish(c, input, size);
    }

    /**
     * The end of readMessage, once the read loop over `input` has stopped on
     * `c`: the end of the stream closes the connection; otherwise the
     * terminator is counted and stored, or, when the buffer is full, the
     * failed store closes the connection.
     */
    method Finish(c: int, ghost input: seq<int>, ghost size: int)
      requires Valid() && !closed && server.Valid() && Buffered(input, size)
      requires bufItems == FrameEnd(input) && (c == -1 <==> bufItems == |input|)
      modifies this`bufItems, buf, this`closed, server`registry, server`wire
      ensures Valid() && server.Valid() && Buffered(input, size)
      ensures var n := FrameEnd(input); var ends := n == |input| || n == bufSize;
        && bufItems == (if n < |input| then n + 1 else n)
        && (n < |input| && n < bufSize ==> buf[n] == 0)
        && closed == ends
        && server.registry == (if ends then RemoveFirst(old(server.registry), this) else old(server.registry))
        && server.wire == old(server.wire)
             + if ends && !willDisconnect then Fanout(old(server.registry), this, Encode("NOT", LostNotice(userName))) else []
    {
      if c != -1 {
        // buf[bufItems++] = '\0': the count goes up before the store, which fails on a full buffer
        bufItems := bufItems + 1;
        if bufItems <= bufSize {
          buf[bufItems - 1] := 0;
          return;
        }
      }
      CloseSocket();
    }

    /** The ADM branch of handleMessage. */
    method Admin(content: string)
      requires server.Valid()
      modifies server`wire, server`password, server`exited, server.registry`isAdmin, server.registry`willDisconnect, server.registry`incoming
      ensures server.Valid()
      ensures AdminHandled(content)
    {
      if !isAdmin {
        SendMessageToSelf(Encode("ERC", NoPermission));
        return;
      }
      var o := server.ProcessCommand(content);
      if !o.Exit? {
        Reply(o);
      }
    }

    /** The answer to an admin's command: ERC when it failed, RSP with its text unless that is empty. */
    method Reply(o: Outcome)
      requires !o.Exit?
      modifies server`wire
      ensures server.wire == old(server.wire) + ToSelf(this, AdminReply(o))
    {
      match o
      case Failed =>
        SendMessageToSelf(Encode("ERC", "Bad command input"));
      case Output(t) =>
        if t != "" {
          SendMessageToSelf(Encode("RSP", t));
        }
    }

    /** handleMessage: the frame in the buffer dispatched on its opcode. */
    method HandleMessage()
      requires Valid() && server.Valid()
      modifies this`userName, this`willDisconnect, this`closed, this`incoming, server`registry, server`wire
      modifies server`password, server`exited, server.registry`isAdmin, server.registry`willDisconnect, server.registry`incoming
      ensures Valid() && server.Valid()
      ensures Handled(old(SplitFrame(buf[..], bufItems)))
    {
      var frame := SplitFrame(buf[..], bufItems);
      if frame.ShortFrame? {
        BadCommand();
        return;
      }
      var op, content := frame.opcode, frame.content;
      if op == "NCR" {
        Connect(content);
      } else if op == "SND" {
        Relay(content);
      } else if op == "DSC" {
        Leave(content);
      } else if op == "ADM" {
        label Before:
        Admin(content);
        HandledAdmin@Before(content);
      }
    }

    /** ADM is handled as the admin console says. */
    twostate lemma HandledAdmin(content: string)
      requires AdminHandled(content)
      ensures Handled(Frame("ADM", content))
    {
    }

    /** The answer to a frame too short to hold an opcode. */
    method BadCommand()
      modifies server`wire
      ensures Handled(ShortFrame)
    {
      SendMessageToSelf(Encode("ERC", BadFrame));
    }

    /** The SND branch of handleMessage. */
    method Relay(content: string)
      modifies server`wire
      ensures Handled(Frame("SND", content))
    {
      SendMessageToOthers(Encode("MSG", NameText(userName) + [SEP] + content));
    }

    /** The DSC branch of handleMessage. */
    method Leave(content: string)
      modifies this`willDisconnect, this`incoming, server`wire
      ensures Handled(Frame("DSC", content))
    {
      Disconnect(LeaveNotice(userName), "");
    }

    /**
     * readMessage as run() relies on it: it consumes input unless the stream
     * had already ended, and it registers no session.
     */
    method ReadStep()
      requires Valid() && !closed && bufItems == 0
      requires server.Valid()
      modifies this`incoming, this`buf, this`bufSize, this`bufItems, buf, this`closed, server`registry, server`wire
      ensures Valid() && server.Valid() && (buf == old(buf) || fresh(buf))
      ensures |incoming| < |old(incoming)| || (closed && incoming == [])
      ensures FrameEnd(old(incoming)) == |old(incoming)| ==> closed
      ensures forall k :: 0 <= k < |server.registry| ==> server.registry[k] in old(server.registry)
    {
      ReadMessage();
      Within(server.registry, old(server.registry));
    }

    /**
     * handleMessage as run() relies on it: it registers no session but this
     * one, keeps the unread input or drops it all, reopens no connection,
     * and does not name a session whose connection it closes.
     */
    method HandleStep()
      requires Valid() && server.Valid()
      modifies this`userName, this`willDisconnect, this`closed, this`incoming
      modifies server`registry, server`wire, server`password, server`exited
      modifies server.registry`isAdmin, server.registry`willDisconnect, server.registry`incoming
      ensures Valid() && server.Valid()
      ensures forall k :: 0 <= k < |server.registry| ==> server.registry[k] in old(server.registry) || server.registry[k] == this
      ensures incoming == old(incoming) || incoming == []
      ensures old(closed) ==> closed
      ensures closed && !old(closed) ==> userName == old(userName)
    {
      ghost var f := SplitFrame(buf[..], bufItems);
      HandleMessage();
      HandledSettles(f);
    }

    /**
     * One pass of run()'s loop, as written: a frame read, then handled, then
     * the buffer emptied. The frame is handled even when reading it closed
     * the connection.
     */
    method Step()
      requires Valid() && server.Valid() && !closed && bufItems == 0
      modifies this`incoming, this`buf, this`bufSize, this`bufItems, buf, this`closed, this`userName, this`willDisconnect
      modifies server`registry, server`wire, server`password, server`exited
      modifies server.registry`isAdmin, server.registry`willDisconnect, server.registry`incoming
      ensures Valid() && server.Valid() && bufItems == 0 && (buf == old(buf) || fresh(buf))
      ensures forall k :: 0 <= k < |server.registry| ==> server.registry[k] in old(server.registry) || server.registry[k] == this
      ensures |incoming| < |old(incoming)| || (closed && incoming == [])
      ensures FrameEnd(old(incoming)) == |old(incoming)| ==> closed
    {
      ReadStep();
      HandleStep();
      bufItems := 0;
    }

    /**
     * run()'s loop pass with the handling skipped once reading has closed the
     * connection: a pass that ends with the connection closed leaves the
     * session's name as it was, so a closed session never takes a name.
     */
    method StepChecked()
      requires Valid() && server.Valid() && !closed && bufItems == 0
      modifies this`incoming, this`buf, this`bufSize, this`bufItems, buf, this`closed, this`userName, this`willDisconnect
      modifies server`registry, server`wire, server`password, server`exited
      modifies server.registry`isAdmin, server.registry`willDisconnect, server.registry`incoming
      ensures Valid() && server.Valid() && bufItems == 0
      ensures FrameEnd(old(incoming)) == |old(incoming)| ==> closed
      ensures closed ==> userName == old(userName)
    {
      ReadStep();
      if !closed {
        HandleStep();
      }
      bufItems := 0;
    }

    /**
     * run(): passes until the connection is closed, or until a QUIT has
     * ended the process. Every pass consumes input or closes the connection,
     * so the loop ends on every input.
     */
    method Run()
      requires Valid() && server.Valid() && bufItems == 0
      modifies this`incoming, this`buf, this`bufSize, this`bufItems, buf, this`closed, this`userName, this`willDisconnect, this`isAdmin
      modifies server`registry, server`wire, server`password, server`exited
      modifies server.registry`isAdmin, server.registry`willDisconnect, server.registry`incoming
      ensures closed || server.exited
    {
      while !closed && !server.exited
        invariant Valid() && server.Valid() && bufItems == 0
        invariant forall k :: 0 <= k < |server.registry| ==> server.registry[k] in old(server.registry) || server.registry[k] == this
        invariant buf == old(buf) || fresh(buf)
        decreases |incoming| + if closed then 0 else 1
      {
        Step();
      }
    }
  }

  /** The client of the scenarios below: its frame, the name it would take, and how the server judges that name. */
  lemma TruncatedClient()
    ensures var input := Codes("NCRbob");
      FrameEnd(input) == |input| == 6 && input[..6] == input
    ensures forall k :: 0 <= k < |"NCRbob"| ==> 0 < "NCRbob"[k] as int < 256
    ensures "NCRbob"[..3] == "NCR" && "NCRbob"[3..5] == "bo"
    ensures Judge("", "bo", []) == Accepted("bo")
  {
    FrameEndAt(Codes("NCRbob"), 6);
    assert IsName("bo");
  }

  /**
   * The reading half of run()'s first pass for a client that sends
   * "NCRbob" and then ends its stream: the connection is closed and the
   * six bytes are stored and counted, with no terminator.
   */
  method TruncatedRead() returns (server: Server, s: Session)
    ensures fresh(server) && fresh(s) && s.server == server && s.Valid() && server.Valid()
    ensures server.password == "" && server.registry == []
    ensures s.closed && s.bufItems == 6 && 6 <= s.buf.Length && s.buf[..6] == Stored(Codes("NCRbob"))
  {
    TruncatedClient();
    var input := Codes("NCRbob");
    server := new Server();
    s := new Session(server, "client", input);
    assert RemoveFirst(server.registry, s) == [];
    label Reading:
    s.ReadMessage();
    s.ReadToEnd@Reading();
  }

  /**
   * run()'s first pass as written for the same client: the handling that
   * follows the read takes the last byte for the terminator, reads NCR with
   * "bo" and performs the handshake, so a closed connection is registered
   * under the name "bo".
   */
  method TruncatedHandshake() returns (server: Server, s: Session)
    ensures s.closed && server.registry == [s] && s.userName == Some("bo")
  {
    server, s := TruncatedRead();
    assert Names(server.registry) == [];
    TruncatedClient();
    assert s.buf[..][..6] == s.buf[..6];
    TruncatedSplit("NCRbob", s.buf[..]);
    label Handling:
    s.HandleMessage();
    s.HandledJoin@Handling("bo");
  }

  /**
   * The same client under run() with the handling skipped once reading has
   * closed the connection: the connection ends nameless.
   */
  method TruncatedHandshakeChecked() returns (server: Server, s: Session)
    ensures s.closed && s.userName == None
  {
    server := new Server();
    var input := Codes("NCRbob");
    s := new Session(server, "client", input);
    TruncatedClient();
    s.StepChecked();
  }
}

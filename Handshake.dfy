/**
 * The new-connection request (NCR): its content is a user name, optionally
 * followed by the separator '\3' and a password. The server checks, in this
 * order, the password (only when one is set), the shape of the name and
 * whether the name is already registered.
 */
module Handshake {
  import opened Wrappers
  import opened JavaText
  import opened Patterns
  import opened Framing

  /** The content cut at its first separator: the name before it and, when there is one, the password after it. */
  function Credentials(content: string): (r: (string, Option<string>))
    ensures SEP !in content ==> r == (content, None)
    ensures SEP in content ==> r.1.Some? && SEP !in r.0 && content == r.0 + [SEP] + r.1.value
  {
    var i := Find(content, SEP, 0);
    if i == |content| then (content, None)
    else
      assert content == content[..i] + [SEP] + content[i + 1..];
      (content[..i], Some(content[i + 1..]))
  }

  datatype Verdict = WrongPassword | BadUserName | NameTaken | Accepted(name: string)

  /**
   * The outcome of a handshake with `content` against the server password and
   * the names already registered. A missing password counts as a mismatch.
   */
  function Judge(password: string, content: string, names: seq<Option<string>>): (v: Verdict)
    ensures var (name, pass) := Credentials(content);
      && (v == WrongPassword <==> password != "" && pass != Some(password))
      && (v == BadUserName <==> (password == "" || pass == Some(password)) && !IsName(name))
      && (v == NameTaken <==> (password == "" || pass == Some(password)) && IsName(name) && Some(name) in names)
      && (v.Accepted? <==> (password == "" || pass == Some(password)) && IsName(name) && Some(name) !in names)
      && (v.Accepted? ==> v.name == name)
  {
    var (name, pass) := Credentials(content);
    if password != "" && pass != Some(password) then WrongPassword
    else if !IsName(name) then BadUserName
    else if Some(name) in names then NameTaken
    else Accepted(name)
  }

  /** The reason sent back with NCN for each refusal. */
  function Reason(v: Verdict): string
    requires !v.Accepted?
  {
    match v
    case WrongPassword => "Incorrect password"
    case BadUserName => "Client sent bad username"
    case NameTaken => "Username has already been taken"
  }

  /** The notice the others receive when a user joins. */
  function JoinNotice(name: string): string {
    "The user \"" + name + "\" has connected to the server"
  }

  /** While no server password is set, whatever follows the separator is ignored. */
  lemma PasswordIgnoredWhenUnset(name: string, pass: string, names: seq<Option<string>>)
    requires SEP !in name
    ensures Judge("", name + [SEP] + pass, names) == Judge("", name, names)
  {
    var content := name + [SEP] + pass;
    assert content[|name|] == SEP;
    assert Find(content, SEP, 0) == |name| by {
      forall k | 0 <= k < |name| ensures content[k] != SEP {
        assert content[k] == name[k];
      }
    }
    assert content[..|name|] == name;
  }
}

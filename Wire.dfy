/**
 * What the server writes to its clients, as a log of (recipient, text)
 * records in the order the writes happen. The recipients are left abstract
 * (type parameter T, compared by identity as Java's `equals` on sockets
 * does), so the functions here describe the writes of the broadcast, the
 * disconnect and the registry removal independently of the classes that
 * perform them.
 */
module Wire {
  import opened Framing

  /** One `out.print(text)` on the output stream of `to`. */
  datatype Sent<T> = Sent(to: T, text: string)

  /** sendMessageToOthers: `m` to every registered session but `except`, in registry order. */
  function Fanout<T(==)>(reg: seq<T>, except: T, m: string): (r: seq<Sent<T>>)
    ensures |r| <= |reg|
  {
    if reg == [] then []
    else Fanout(reg[..|reg| - 1], except, m)
         + if reg[|reg| - 1] == except then [] else [Sent(reg[|reg| - 1], m)]
  }

  /**
   * The broadcast reaches exactly the other registered sessions: a record is
   * written to `s` if and only if `s` is registered and is not the sender,
   * and its text is `m`.
   */
  lemma {:induction false} FanoutReaches<T>(reg: seq<T>, except: T, m: string, s: T, t: string)
    ensures Sent(s, t) in Fanout(reg, except, m) <==> s in reg && s != except && t == m
  {
    if reg != [] {
      var init := reg[..|reg| - 1];
      FanoutReaches(init, except, m, s, t);
      assert reg == init + [reg[|reg| - 1]];
    }
  }

  /** A sender that is not registered reaches every registered session, once per registration. */
  lemma {:induction false} FanoutFromOutside<T>(reg: seq<T>, except: T, m: string)
    requires except !in reg
    ensures |Fanout(reg, except, m)| == |reg|
    ensures forall k :: 0 <= k < |reg| ==> Fanout(reg, except, m)[k] == Sent(reg[k], m)
  {
    if reg != [] {
      FanoutFromOutside(reg[..|reg| - 1], except, m);
    }
  }

  /** `m` written to each of `users` in turn. */
  function ToEach<T>(users: seq<T>, m: string): (r: seq<Sent<T>>)
    ensures |r| == |users| && forall k :: 0 <= k < |r| ==> r[k] == Sent(users[k], m)
  {
    seq(|users|, k requires 0 <= k < |users| => Sent(users[k], m))
  }

  /** The sessions at the given registry positions, in the order of the positions. */
  function Chosen<T>(reg: seq<T>, picks: seq<nat>): (r: seq<T>)
    requires forall k :: 0 <= k < |picks| ==> picks[k] < |reg|
    ensures |r| == |picks| && forall k :: 0 <= k < |r| ==> r[k] == reg[picks[k]]
  {
    seq(|picks|, k requires 0 <= k < |picks| => reg[picks[k]])
  }

  /** ArrayList.remove(Object): drops the first occurrence of `s` and keeps the order of the rest. */
  function RemoveFirst<T(==)>(reg: seq<T>, s: T): (r: seq<T>)
    ensures s !in reg ==> r == reg
    ensures forall t :: t in r ==> t in reg
  {
    if reg == [] then []
    else if reg[0] == s then reg[1..]
    else [reg[0]] + RemoveFirst(reg[1..], s)
  }

  /** The first position of a registered session. */
  function Position<T(==)>(reg: seq<T>, s: T): (i: nat)
    requires s in reg
    ensures i < |reg| && reg[i] == s && s !in reg[..i]
  {
    if reg[0] == s then 0
    else
      var i := Position(reg[1..], s);
      assert reg[..i + 1] == [reg[0]] + reg[1..][..i];
      i + 1
  }

  /**
   * Removal takes out exactly one registration of a registered session and
   * leaves the others in order: the registry with its first position holding
   * `s` cut out.
   */
  lemma {:induction false} RemoveFirstCuts<T>(reg: seq<T>, s: T)
    requires s in reg
    ensures var i := Position(reg, s); RemoveFirst(reg, s) == reg[..i] + reg[i + 1..]
  {
    if reg[0] == s {
      assert reg[..0] + reg[1..] == reg[1..];
    } else {
      var tail := reg[1..];
      assert [reg[0]] + tail == reg;
      RemoveFirstCuts(tail, s);
      var i := Position(tail, s);
      assert Position(reg, s) == i + 1;
      assert RemoveFirst(reg, s) == [reg[0]] + RemoveFirst(tail, s);
      ConsCut(reg[0], tail, i);
    }
  }

  /** Cutting a position out commutes with putting an element in front. */
  lemma ConsCut<T>(x: T, t: seq<T>, i: nat)
    requires i < |t|
    ensures [x] + (t[..i] + t[i + 1..]) == ([x] + t)[..i + 1] + ([x] + t)[i + 2..]
  {
    assert ([x] + t)[..i + 1] == [x] + t[..i];
    assert ([x] + t)[i + 2..] == t[i + 1..];
  }

  /** Removal takes one registration away and changes the count of no other session. */
  lemma {:induction false} RemoveFirstCounts<T>(reg: seq<T>, s: T)
    ensures multiset(RemoveFirst(reg, s)) == multiset(reg) - multiset{s}
  {
    if reg != [] {
      assert reg == [reg[0]] + reg[1..];
      if reg[0] != s {
        RemoveFirstCounts(reg[1..], s);
        assert RemoveFirst(reg, s) == [reg[0]] + RemoveFirst(reg[1..], s);
        SubtractOther(reg[0], multiset(reg[1..]), s);
      }
    }
  }

  /** Taking one `s` away commutes with adding an element that is not `s`. */
  lemma SubtractOther<T>(a: T, m: multiset<T>, s: T)
    requires a != s
    ensures multiset{a} + (m - multiset{s}) == (multiset{a} + m) - multiset{s}
  {
  }

  /**
   * disconnect(toOthers, toSelf): a notice to every other registered session
   * unless `toOthers` is empty, then the DSC frame to the session itself.
   */
  function DisconnectSends<T(==)>(reg: seq<T>, s: T, toOthers: string, toSelf: string): seq<Sent<T>> {
    (if toOthers == "" then [] else Fanout(reg, s, Encode("NOT", toOthers))) + [Sent(s, Encode("DSC", toSelf))]
  }

  /**
   * A disconnect ends with the DSC frame to the session itself, and every
   * write before it is the notice to another registered session.
   */
  lemma DisconnectEndsWithDsc<T>(reg: seq<T>, s: T, toOthers: string, toSelf: string, k: nat)
    requires k < |DisconnectSends(reg, s, toOthers, toSelf)|
    ensures var r := DisconnectSends(reg, s, toOthers, toSelf);
      k == |r| - 1 <==> r[k] == Sent(s, Encode("DSC", toSelf))
    ensures var r := DisconnectSends(reg, s, toOthers, toSelf);
      k < |r| - 1 ==> r[k].to in reg && r[k].to != s && r[k].text == Encode("NOT", toOthers)
  {
    var r := DisconnectSends(reg, s, toOthers, toSelf);
    if k < |r| - 1 {
      var f := Fanout(reg, s, Encode("NOT", toOthers));
      assert r[k] == f[k] && r[k] in f;
      FanoutReaches(reg, s, Encode("NOT", toOthers), r[k].to, r[k].text);
    }
  }

  /**
   * The writes of a disconnect, one by one: the DSC frame to the session
   * itself and, unless `toOthers` is empty, the notice to every other
   * registered session; with an empty `toOthers` the DSC frame is all.
   */
  lemma DisconnectSendsOf<T>(reg: seq<T>, s: T, toOthers: string, toSelf: string, m: Sent<T>)
    ensures m in DisconnectSends(reg, s, toOthers, toSelf) <==>
      m == Sent(s, Encode("DSC", toSelf)) || (toOthers != "" && m.to in reg && m.to != s && m.text == Encode("NOT", toOthers))
    ensures toOthers == "" ==> DisconnectSends(reg, s, toOthers, toSelf) == [Sent(s, Encode("DSC", toSelf))]
  {
    FanoutReaches(reg, s, Encode("NOT", toOthers), m.to, m.text);
  }

  /** A disconnect of a registered session writes only to registered sessions. */
  lemma DisconnectReachesRegistered<T>(reg: seq<T>, s: T, toOthers: string, toSelf: string)
    requires s in reg
    ensures forall m :: m in DisconnectSends(reg, s, toOthers, toSelf) ==> m.to in reg
  {
    forall m | m in DisconnectSends(reg, s, toOthers, toSelf) ensures m.to in reg {
      if m != Sent(s, Encode("DSC", toSelf)) {
        FanoutReaches(reg, s, Encode("NOT", toOthers), m.to, m.text);
      }
    }
  }

  /** The blocks of writes one after the other. */
  function Flatten<T>(blocks: seq<seq<T>>): seq<T> {
    if blocks == [] then [] else Flatten(blocks[..|blocks| - 1]) + blocks[|blocks| - 1]
  }

  /** A write of the blocks one after the other is a write of one of them. */
  lemma {:induction false} FlattenHas<T>(blocks: seq<seq<T>>, x: T)
    ensures x in Flatten(blocks) <==> exists k :: 0 <= k < |blocks| && x in blocks[k]
  {
    if blocks != [] {
      var n := |blocks| - 1;
      var front := blocks[..n];
      FlattenHas(front, x);
      assert forall k :: 0 <= k < n ==> front[k] == blocks[k];
    }
  }

  /** Every element of `a` is one of `b`, stated position by position. */
  lemma Within<T>(a: seq<T>, b: seq<T>)
    requires forall t :: t in a ==> t in b
    ensures forall k :: 0 <= k < |a| ==> a[k] in b
  {
  }

  /** Growing a prefix by one element. */
  lemma PrefixSnoc<T>(s: seq<T>, i: nat)
    requires i < |s|
    ensures s[..i + 1] == s[..i] + [s[i]] && s[..i + 1][..i] == s[..i]
  {
  }

  /** The whole prefix is the sequence. */
  lemma PrefixAll<T>(s: seq<T>)
    ensures s[..|s|] == s
  {
  }

  /** Writing to one more user of the list appends one record. */
  lemma ToEachSnoc<T>(users: seq<T>, i: nat, m: string)
    requires i < |users|
    ensures ToEach(users[..i + 1], m) == ToEach(users[..i], m) + [Sent(users[i], m)]
  {
  }

  /** Appending is associative. */
  lemma AppendAssoc<T>(a: seq<T>, b: seq<T>, c: seq<T>)
    ensures a + b + c == a + (b + c)
  {
  }
}

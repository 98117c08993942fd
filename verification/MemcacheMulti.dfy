/** Storing many values at once: all commands are sent before any reply is read, and then one reply is
    read for each key.  A value over the size limit is not sent, but its reply is awaited all the same. */
module MemcacheMulti {
  import opened MemcacheHost
  import opened MemcacheClient
  import opened Options

  const STORED := "STORED"

  /** How many commands are sent for the first n keys. */
  function Sent(sendable: seq<bool>, n: nat): (m: nat)
    requires n <= |sendable|
    ensures m <= n
  {
    if n == 0 then 0 else Sent(sendable, n - 1) + if sendable[n - 1] then 1 else 0
  }

  lemma {:induction false} SentAll(sendable: seq<bool>, n: nat)
    requires n <= |sendable|
    ensures Sent(sendable, n) == n <==> forall i :: 0 <= i < n ==> sendable[i]
  {
    if n > 0 {
      SentAll(sendable, n - 1);
    }
  }

  lemma {:induction false} SentLess(sendable: seq<bool>, i: nat, n: nat)
    requires i < n <= |sendable|
    ensures Sent(sendable, i) + (if sendable[i] then 1 else 0) <= Sent(sendable, n)
    ensures Sent(sendable, n) <= Sent(sendable, i) + (if sendable[i] then 1 else 0) + (n - i - 1)
    decreases n
  {
    if i < n - 1 {
      SentLess(sendable, i, n - 1);
    }
  }

  /** Key i was not stored: it was not sent, or its own reply says otherwise. */
  predicate NotStored(sendable: seq<bool>, replies: seq<string>, i: nat)
    requires i < |sendable| && |replies| == Sent(sendable, |sendable|)
  {
    !sendable[i] || (SentLess(sendable, i, |sendable|); replies[Sent(sendable, i)] != STORED)
  }

  /** What the loops report for key i: the reply it is given is the i-th, whoever's that is.  When there
      are no more, the wait for one ends in an exception, or, if the server has closed the connection,
      in an empty line. */
  predicate Reported(sendable: seq<bool>, replies: seq<string>, closed: bool, i: nat)
    requires i < |sendable|
  {
    !sendable[i] || (if i < |replies| then replies[i] != STORED else closed)
  }

  /** Lines as they lie on the connection, and what is behind them. */
  function Lines(lines: seq<string>, rest: string): string {
    if lines == [] then rest else lines[0] + CRLF + Lines(lines[1..], rest)
  }

  predicate AreLines(lines: seq<string>) {
    forall i :: 0 <= i < |lines| ==> '\r' !in lines[i]
  }

  /** What a read gives when i of the replies have been read. */
  lemma NextLine(lines: seq<string>, i: nat, u: string)
    requires AreLines(lines) && i <= |lines| && u == Lines(lines[i..], "")
    ensures HasLine(u) <==> i < |lines|
    ensures i < |lines| ==> u[..LineEnd(u)] == lines[i] && u[LineEnd(u) + 2..] == Lines(lines[i + 1..], "")
    ensures i == |lines| ==> u == ""
  {
    if i < |lines| {
      assert lines[i..][1..] == lines[i + 1..];
      LineOf(lines[i], Lines(lines[i + 1..], ""));
    }
  }

  /** The keys that are not sent are noted at once. */
  method NoteUnsent<K(==)>(keys: seq<K>, sendable: seq<bool>) returns (notstored: seq<K>)
    requires |keys| == |sendable|
    ensures forall k :: k in notstored <==> exists j :: 0 <= j < |keys| && keys[j] == k && !sendable[j]
  {
    notstored := [];
    for i := 0 to |keys|
      invariant forall k :: k in notstored <==> exists j :: 0 <= j < i && keys[j] == k && !sendable[j]
    {
      if !sendable[i] {
        notstored := notstored + [keys[i]];
      }
    }
  }

  /** The two loops: keys not sent are noted, then each key in turn is given the next reply.  The server
      answers each command with a line, and after that sends nothing more.  If all keys were sent, just
      the replies are taken off the connection; if not, the client waits for one too many and gives the
      connection up, although every command was answered. */
  method SetMulti<K(==)>(h: Host, keys: seq<K>, sendable: seq<bool>, ghost replies: seq<string>, closed: bool)
    returns (notstored: seq<K>)
    requires |keys| == |sendable| && |replies| == Sent(sendable, |sendable|) && AreLines(replies)
    requires h.socket != null && !h.dead && h.Unread() == Lines(replies, "")
    modifies h, h.socket
    ensures forall k :: k in notstored <==>
      exists i :: 0 <= i < |keys| && keys[i] == k && Reported(sendable, replies, closed, i)
    ensures h.dead <==> exists i :: 0 <= i < |sendable| && !sendable[i]
    ensures h.Unread() == "" && (!h.dead ==> h.socket == old(h.socket))
  {
    hide LineEnd, Lines, AreLines;
    notstored := NoteUnsent(keys, sendable);
    SentAll(sendable, |sendable|);
    assert replies[0..] == replies;
    var i := 0;
    while i < |keys|
      invariant 0 <= i <= |keys|
      invariant i <= |replies| ==> !h.dead && h.socket == old(h.socket) && h.Unread() == Lines(replies[i..], "")
      invariant i > |replies| ==> h.dead && h.socket == null && closed && h.Unread() == ""
      invariant forall k :: k in notstored <==>
        exists j :: 0 <= j < |keys| && keys[j] == k && Noted(sendable, replies, closed, i, j)
    {
      if i <= |replies| {
        NextLine(replies, i, h.Unread());
      } else {
        NoLine(h.Unread());
      }
      var line := h.ReadLine();
      if line.None? && !closed {
        break;
      }
      if line.None? || line.value != STORED {
        notstored := notstored + [keys[i]];
      }
      i := i + 1;
    }
    if i == |replies| && !h.dead {
      NextLine(replies, i, h.Unread());
    }
  }

  lemma NoLine(u: string)
    requires u == ""
    ensures !HasLine(u)
  {
  }

  /** Noted when i keys have been given their reply. */
  predicate Noted(sendable: seq<bool>, replies: seq<string>, closed: bool, i: int, j: nat)
    requires j < |sendable|
  {
    !sendable[j] || (j < i && if j < |replies| then replies[j] != STORED else closed)
  }

  /** Deleting many keys: every command is sent, and one reply is taken off the connection for each,
      whatever it says. */
  method DeleteMulti(h: Host, keys: nat, ghost replies: seq<string>) returns (rc: nat)
    requires |replies| == keys && AreLines(replies)
    requires h.socket != null && !h.dead && h.Unread() == Lines(replies, "")
    modifies h, h.socket
    ensures rc == 1 && !h.dead && h.socket == old(h.socket) && h.Unread() == ""
  {
    hide LineEnd, Lines, AreLines;
    rc := 1;
    assert replies[0..] == replies;
    for i := 0 to keys
      invariant !h.dead && h.socket == old(h.socket) && h.Unread() == Lines(replies[i..], "")
    {
      NextLine(replies, i, h.Unread());
      var line := h.ReadLine();
    }
    NextLine(replies, keys, h.Unread());
  }

  /** No key that is sent comes behind one that is not. */
  predicate UnsentLast(sendable: seq<bool>) {
    forall i, j :: 0 <= i < j < |sendable| && sendable[j] ==> sendable[i]
  }

  lemma {:induction false} SentFirst(sendable: seq<bool>, n: nat)
    requires UnsentLast(sendable) && n <= |sendable| && (n > 0 ==> sendable[n - 1])
    ensures Sent(sendable, n) == n
  {
    SentAll(sendable, n);
  }

  /** Every reply is credited to the key it belongs to, whatever the replies are, if and only if no key
      that is sent comes behind one that is not. */
  lemma CreditedIff(sendable: seq<bool>)
    ensures (forall replies: seq<string>, closed, i :: |replies| == Sent(sendable, |sendable|) && 0 <= i < |sendable| ==>
               (Reported(sendable, replies, closed, i) <==> NotStored(sendable, replies, i)))
       <==> UnsentLast(sendable)
  {
    if UnsentLast(sendable) {
      forall replies: seq<string>, closed: bool, i | |replies| == Sent(sendable, |sendable|) && 0 <= i < |sendable|
        ensures Reported(sendable, replies, closed, i) <==> NotStored(sendable, replies, i)
      {
        if sendable[i] {
          SentFirst(sendable, i + 1);
          SentLess(sendable, i, |sendable|);
        }
      }
    } else {
      var replies, i := Miscredited(sendable);
    }
  }

  /** Otherwise a refusal can be charged to a key before its own, which is then reported stored. */
  lemma Miscredited(sendable: seq<bool>) returns (replies: seq<string>, j: nat)
    requires !UnsentLast(sendable)
    ensures |replies| == Sent(sendable, |sendable|) && j < |sendable|
    ensures !Reported(sendable, replies, false, j) && NotStored(sendable, replies, j)
  {
    hide Sent;
    var i;
    i, j :| 0 <= i < j < |sendable| && sendable[j] && !sendable[i];
    SentLess(sendable, i, j);
    SentLess(sendable, j, |sendable|);
    var own := Sent(sendable, j);
    replies := seq(Sent(sendable, |sendable|), k => if k == own then "NOT_STORED" else STORED);
    assert replies[own] == "NOT_STORED" != STORED;
    assert j < |replies| ==> replies[j] == STORED;
  }

  /** The commands for some keys, all sent together. */
  function Commands(keys: seq<string>, items: seq<(nat, string)>, time: nat): string
    requires |keys| == |items|
  {
    if keys == [] then "" else SetCommand(keys[0], items[0], time) + Commands(keys[1..], items[1..], time)
  }

  /** What a server holds after all commands it is sent, and the lines it answers. */
  function ServesAll(store: Store, text: string): (Store, seq<string>)
    decreases |text|
  {
    var r := ServerSets(store, text);
    if r.None? then (store, [])
    else
      var (after, replies) := ServesAll(r.value.store, r.value.rest);
      (after, [r.value.reply] + replies)
  }

  lemma ServesOne(store: Store, key: string, item: (nat, string), time: nat, rest: string)
    requires ValidKey(key)
    ensures var (after, replies) := ServesAll(store[key := item], rest);
      ServesAll(store, SetCommand(key, item, time) + rest) == (after, ["STORED"] + replies)
  {
    hide ServerSets, SetCommand, ValidKey;
    ServerStores(store, key, item, time, rest);
  }

  /** It answers each command alike, */
  lemma {:induction false} AllAnswered(store: Store, keys: seq<string>, items: seq<(nat, string)>, time: nat)
    requires |keys| == |items| && forall i :: 0 <= i < |keys| ==> ValidKey(keys[i])
    ensures var replies := ServesAll(store, Commands(keys, items, time)).1;
      |replies| == |keys| && forall i :: 0 <= i < |replies| ==> replies[i] == "STORED"
    decreases |keys|
  {
    hide ServesAll, SetCommand, ValidKey;
    NothingServed(store);
    if keys != [] {
      var rest := Commands(keys[1..], items[1..], time);
      ServesOne(store, keys[0], items[0], time, rest);
      AllAnswered(store[keys[0] := items[0]], keys[1..], items[1..], time);
    }
  }

  /** keeps what no command is for, */
  lemma {:induction false} OthersKept(store: Store, keys: seq<string>, items: seq<(nat, string)>, time: nat, k: string)
    requires |keys| == |items| && (forall i :: 0 <= i < |keys| ==> ValidKey(keys[i])) && k !in keys
    ensures var after := ServesAll(store, Commands(keys, items, time)).0;
      (k in after <==> k in store) && (k in store ==> after[k] == store[k])
    decreases |keys|
  {
    hide ServesAll, SetCommand, ValidKey;
    NothingServed(store);
    if keys != [] {
      var rest := Commands(keys[1..], items[1..], time);
      ServesOne(store, keys[0], items[0], time, rest);
      OthersKept(store[keys[0] := items[0]], keys[1..], items[1..], time, k);
    }
  }

  /** and holds what was sent last for a key. */
  lemma {:induction false} AllStored(store: Store, keys: seq<string>, items: seq<(nat, string)>, time: nat, i: nat)
    requires |keys| == |items| && forall j :: 0 <= j < |keys| ==> ValidKey(keys[j])
    requires i < |keys| && keys[i] !in keys[i + 1..]
    ensures var after := ServesAll(store, Commands(keys, items, time)).0;
      keys[i] in after && after[keys[i]] == items[i]
    decreases |keys|
  {
    hide ServesAll, SetCommand, ValidKey;
    var rest := Commands(keys[1..], items[1..], time);
    var next := store[keys[0] := items[0]];
    ServesOne(store, keys[0], items[0], time, rest);
    if i == 0 {
      OthersKept(next, keys[1..], items[1..], time, keys[0]);
    } else {
      assert keys[1..][i - 1] == keys[i] && keys[1..][i..] == keys[i + 1..];
      AllStored(next, keys[1..], items[1..], time, i - 1);
    }
  }

  lemma NothingServed(store: Store)
    ensures ServesAll(store, "") == (store, [])
  {
  }

  /** When every value is sent, no key is reported: the server stores them all, and says so. */
  method SetAll(h: Host, keys: seq<string>, items: seq<(nat, string)>, time: nat, ghost store: Store, closed: bool)
    returns (notstored: seq<string>)
    requires |keys| == |items| && forall i :: 0 <= i < |keys| ==> ValidKey(keys[i])
    requires h.socket != null && !h.dead
    requires h.Unread() == Lines(ServesAll(store, Commands(keys, items, time)).1, "")
    modifies h, h.socket
    ensures notstored == [] && !h.dead && h.Unread() == ""
  {
    hide ServesAll, Commands, ValidKey, Lines;
    ghost var replies := ServesAll(store, Commands(keys, items, time)).1;
    AllAnswered(store, keys, items, time);
    var sendable := seq(|keys|, _ => true);
    SentAll(sendable, |keys|);
    notstored := SetMulti(h, keys, sendable, replies, closed);
    NoneIn(notstored);
  }

  lemma NoneIn(s: seq<string>)
    ensures s == [] || s[0] in s
  {
  }
}

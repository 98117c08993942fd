/** Storing and fetching over the text protocol: values are framed by their length, so what they
    contain does not matter. */
module MemcacheClient {
  import opened MemcacheHost
  import opened MemcacheValues
  import opened Options

  const CRLF := "\r\n"

  /** The characters a key may have: no blanks and no control characters. */
  predicate KeyChar(c: char) {
    '!' <= c <= '~' || '\U{80}' <= c <= '\U{ff}'
  }

  predicate ValidKey(key: string) {
    key != "" && forall i :: 0 <= i < |key| ==> KeyChar(key[i])
  }

  /** What the program's check lets pass: its pattern ends in a dollar sign, which also matches in front
      of a line feed at the end. */
  predicate AcceptedKey(key: string) {
    ValidKey(key) || ValidKey(Bare(key))
  }

  /** The key without a line feed at its end. */
  function Bare(key: string): string {
    if key != "" && key[|key| - 1] == '\n' then key[..|key| - 1] else key
  }

  lemma BareIff(key: string)
    requires AcceptedKey(key)
    ensures ValidKey(Bare(key)) && (Bare(key) == key <==> ValidKey(key))
    ensures !ValidKey(key) ==> key == Bare(key) + "\n"
  {
  }

  /** A word and then a blank before each of the others. */
  function Joined(words: seq<string>): string {
    if words == [] then ""
    else if |words| == 1 then words[0]
    else words[0] + " " + Joined(words[1..])
  }

  predicate IsSpace(c: char) {
    c == ' ' || '\t' <= c <= '\r'
  }

  /** The words of a line between stretches of white space. */
  function Words(s: string): (r: seq<string>)
    ensures s != "" && !IsSpace(s[0]) ==> r != []
  {
    if s == "" then []
    else if IsSpace(s[0]) then Words(s[1..])
    else if |s| == 1 || IsSpace(s[1]) then [[s[0]]] + Words(s[1..])
    else var rest := Words(s[1..]); [[s[0]] + rest[0]] + rest[1..]
  }

  predicate IsWord(w: string) {
    w != "" && forall i :: 0 <= i < |w| ==> !IsSpace(w[i])
  }

  lemma {:induction false} OneWord(w: string)
    requires IsWord(w)
    ensures Words(w) == [w]
  {
    if |w| == 1 {
      assert w == [w[0]] && w[1..] == "";
    } else {
      OneWord(w[1..]);
      assert w == [w[0]] + w[1..];
    }
  }

  lemma {:induction false} FirstWord(w: string, c: char, s: string)
    requires IsWord(w) && IsSpace(c)
    ensures Words(w + [c] + s) == [w] + Words(s)
  {
    var t := w + [c] + s;
    assert t[1..] == w[1..] + [c] + s;
    if |w| == 1 {
      assert t[1..] == [c] + s && ([c] + s)[1..] == s && w == [w[0]];
    } else {
      FirstWord(w[1..], c, s);
      assert w == [w[0]] + w[1..];
    }
  }

  /** Splitting a line undoes joining its words. */
  lemma {:induction false} WordsJoined(words: seq<string>)
    requires words != [] && forall i :: 0 <= i < |words| ==> IsWord(words[i])
    ensures Words(Joined(words)) == words
  {
    if |words| == 1 {
      OneWord(words[0]);
    } else {
      FirstWord(words[0], ' ', Joined(words[1..]));
      WordsJoined(words[1..]);
    }
  }

  /** A line feed behind a word is lost with the blank behind it. */
  lemma FeedLost(w: string, s: string)
    requires IsWord(w)
    ensures Words(w + "\n" + " " + s) == [w] + Words(s)
  {
    FirstWord(w, '\n', " " + s);
    assert w + "\n" + " " + s == w + ['\n'] + (" " + s);
    assert (" " + s)[1..] == s;
  }

  lemma {:induction false} JoinedPlainly(words: seq<string>)
    requires forall i :: 0 <= i < |words| ==> '\r' !in words[i]
    ensures '\r' !in Joined(words)
  {
    if |words| > 1 {
      JoinedPlainly(words[1..]);
    }
  }

  lemma KeyPlainly(key: string)
    requires ValidKey(key)
    ensures IsWord(key) && '\r' !in key
  {
  }

  lemma DecimalPlainly(n: nat)
    ensures IsWord(ToDecimal(n)) && '\r' !in ToDecimal(n)
  {
    forall i | 0 <= i < |ToDecimal(n)| ensures !IsSpace(ToDecimal(n)[i]) {
      assert IsDigit(ToDigits(n)[i]);
    }
  }

  /** A line without a carriage return, and whatever follows it. */
  lemma LineOf(line: string, rest: string)
    requires '\r' !in line
    ensures HasLine(line + CRLF + rest) && LineEnd(line + CRLF + rest) == |line|
    ensures (line + CRLF + rest)[..|line|] == line && (line + CRLF + rest)[|line| + 2..] == rest
  {
    var s := line + CRLF + rest;
    forall k | 0 <= k < |line| ensures !(s[k] == '\r' && s[k + 1] == '\n') {
      assert s[k] == line[k];
    }
    LineEndIs(s, |line|);
  }

  /** What the server holds: flags and bytes under each key. */
  type Store = map<string, (nat, string)>

  function ValueLine(key: string, flags: nat, length: nat): string {
    Joined(["VALUE", key, ToDecimal(flags), ToDecimal(length)])
  }

  function ValueBlock(key: string, item: (nat, string)): string {
    ValueLine(key, item.0, |item.1|) + CRLF + (item.1 + CRLF)
  }

  /** The block in full. */
  lemma ValueBlockIs(key: string, item: (nat, string))
    ensures ValueBlock(key, item)
         == "VALUE " + key + " " + ToDecimal(item.0) + " " + ToDecimal(|item.1|) + "\r\n" + item.1 + "\r\n"
  {
    hide ToDecimal, Joined;
    var f, n := ToDecimal(item.0), ToDecimal(|item.1|);
    JoinedFour("VALUE", key, f, n);
    var line := "VALUE" + " " + key + " " + f + " " + n;
    assert line + CRLF + (item.1 + CRLF) == line + CRLF + item.1 + CRLF;
  }

  lemma JoinedFour(a: string, b: string, c: string, d: string)
    ensures Joined([a, b, c, d]) == a + " " + b + " " + c + " " + d
  {
    assert [a, b, c, d][1..] == [b, c, d] && [b, c, d][1..] == [c, d];
    assert Joined([c, d]) == c + " " + d;
    assert Joined([b, c, d]) == b + " " + (c + " " + d);
    assert a + " " + (b + " " + (c + " " + d)) == a + " " + b + " " + c + " " + d;
  }

  /** The server's answer to a get: a block for each key it holds, then an end line. */
  function Reply(store: Store, keys: seq<string>): string {
    if keys == [] then "END" + CRLF
    else (if keys[0] in store then ValueBlock(keys[0], store[keys[0]]) else "") + Reply(store, keys[1..])
  }

  /** Reading a value line: the key, the flags and the length, if it is one. */
  function ExpectedValue(line: string): Option<(string, nat, nat)> {
    if |line| < 5 || line[..5] != "VALUE" then None
    else
      var w := Words(line);
      if |w| != 4 then None
      else
        var flags, length := FromDecimal(w[2]), FromDecimal(w[3]);
        if flags.None? || length.None? || flags.value < 0 || length.value < 0 then None
        else Some((w[1], flags.value, length.value))
  }

  /** A value line is read back, except that a line feed at the end of the key is lost. */
  lemma ValueLineRead(key: string, flags: nat, length: nat)
    requires AcceptedKey(key)
    ensures ExpectedValue(ValueLine(key, flags, length)) == Some((Bare(key), flags, length))
    ensures '\r' !in ValueLine(key, flags, length) && ValueLine(key, flags, length) != "END"
  {
    hide ToDecimal, FromDecimal, Words, Joined;
    BareIff(key);
    KeyPlainly(Bare(key));
    DecimalPlainly(flags);
    DecimalPlainly(length);
    DecimalAgain(flags);
    DecimalAgain(length);
    LineWords(key, ToDecimal(flags), ToDecimal(length));
    JoinedPlainly(["VALUE", key, ToDecimal(flags), ToDecimal(length)]);
    LineStart(["VALUE", key, ToDecimal(flags), ToDecimal(length)]);
  }

  /** The key read is the one asked for if and only if it is a proper key: one with a line feed at its
      end passes the check, and then comes back without it. */
  lemma KeyReadIff(key: string, flags: nat, length: nat)
    requires AcceptedKey(key)
    ensures ExpectedValue(ValueLine(key, flags, length)) == Some((key, flags, length)) <==> ValidKey(key)
  {
    hide ExpectedValue, ValueLine;
    ValueLineRead(key, flags, length);
    BareIff(key);
  }

  lemma LineStart(words: seq<string>)
    requires |words| > 1 && words[0] == "VALUE"
    ensures |Joined(words)| > 5 && Joined(words)[..5] == "VALUE"
  {
    assert Joined(words) == "VALUE" + (" " + Joined(words[1..]));
  }

  lemma LineWords(key: string, flags: string, length: string)
    requires IsWord(Bare(key)) && (key == Bare(key) || key == Bare(key) + "\n") && IsWord(flags) && IsWord(length)
    ensures Words(Joined(["VALUE", key, flags, length])) == ["VALUE", Bare(key), flags, length]
  {
    hide Words, Bare;
    var w, rest := Bare(key), [flags, length];
    WordsJoined(rest);
    WordsJoined(["VALUE", w, flags, length]);
    if key != w {
      ThreeJoined("VALUE", key, rest);
      FirstWord("VALUE", ' ', key + " " + Joined(rest));
      FeedLost(w, Joined(rest));
    }
  }

  lemma ThreeJoined(a: string, b: string, rest: seq<string>)
    requires |rest| == 2
    ensures Joined([a, b, rest[0], rest[1]]) == a + [' '] + (b + " " + Joined(rest))
  {
    var all := [a, b, rest[0], rest[1]];
    assert all[1..] == [b, rest[0], rest[1]] && all[1..][1..] == rest;
  }

  /** Receives a value of so many bytes and the line end behind it. */
  method ReceiveValue(h: Host, rlen: nat) returns (bytes: Option<string>)
    requires h.socket != null
    modifies h, h.socket
    ensures bytes.Some? <==> |old(h.Unread())| >= rlen + 2
    ensures bytes.Some? ==> bytes.value == old(h.Unread())[..rlen] && h.Unread() == old(h.Unread())[rlen + 2..]
    ensures h.socket == old(h.socket)
  {
    var buf := h.Recv(rlen + 2);
    if buf.None? { return None; }
    return Some(buf.value[..rlen]);
  }

  /** What the first line of an answer is for keys held, and what comes after it. */
  function FrontLine(store: Store, keys: seq<string>): string
    requires forall i :: 0 <= i < |keys| ==> keys[i] in store
  {
    if keys == [] then "END" else ValueLine(keys[0], store[keys[0]].0, |store[keys[0]].1|)
  }

  function Behind(store: Store, keys: seq<string>, tail: string): string
    requires forall i :: 0 <= i < |keys| ==> keys[i] in store
  {
    if keys == [] then tail else store[keys[0]].1 + CRLF + (Reply(store, keys[1..]) + tail)
  }

  lemma Regrouped(line: string, bytes: string, rest: string, tail: string)
    ensures line + CRLF + (bytes + CRLF) + rest + tail == line + CRLF + (bytes + CRLF + (rest + tail))
  {
    assert line + CRLF + (bytes + CRLF) + rest + tail == line + CRLF + ((bytes + CRLF) + (rest + tail));
  }

  lemma ReplyIs(store: Store, keys: seq<string>, tail: string)
    requires forall i :: 0 <= i < |keys| ==> keys[i] in store
    ensures Reply(store, keys) + tail == FrontLine(store, keys) + CRLF + Behind(store, keys, tail)
  {
    hide ValueLine;
    if keys != [] {
      Regrouped(FrontLine(store, keys), store[keys[0]].1, Reply(store, keys[1..]), tail);
      assert Reply(store, keys) == ValueBlock(keys[0], store[keys[0]]) + Reply(store, keys[1..]);
    }
  }

  /** The first line of an answer is read, and the rest is what comes after it. */
  lemma ReplyFront(store: Store, keys: seq<string>, tail: string)
    requires forall i :: 0 <= i < |keys| ==> AcceptedKey(keys[i]) && keys[i] in store
    ensures var u, line := Reply(store, keys) + tail, FrontLine(store, keys);
      && HasLine(u) && LineEnd(u) == |line| && u[..|line|] == line && u[|line| + 2..] == Behind(store, keys, tail)
  {
    hide ValueLine, Behind, Reply, LineEnd;
    ReplyIs(store, keys, tail);
    if keys != [] {
      ValueLineRead(keys[0], store[keys[0]].0, |store[keys[0]].1|);
    }
    LineOf(FrontLine(store, keys), Behind(store, keys, tail));
  }

  lemma BehindIs(bytes: string, rest: string)
    ensures |bytes + CRLF + rest| >= |bytes| + 2
    ensures (bytes + CRLF + rest)[..|bytes|] == bytes && (bytes + CRLF + rest)[|bytes| + 2..] == rest
  {
  }

  lemma EndLine()
    ensures ExpectedValue("END").None?
  {
  }

  /** The keys that the server holds, in the order asked for. */
  function Present(store: Store, keys: seq<string>): seq<string> {
    if keys == [] then []
    else (if keys[0] in store then [keys[0]] else []) + Present(store, keys[1..])
  }

  lemma {:induction false} PresentKeys(store: Store, keys: seq<string>)
    ensures Reply(store, Present(store, keys)) == Reply(store, keys)
    ensures forall k :: k in Present(store, keys) <==> k in keys && k in store
  {
    hide ValueBlock;
    if keys != [] {
      PresentKeys(store, keys[1..]);
      var p := Present(store, keys);
      if keys[0] in store {
        assert p[0] == keys[0] && p[1..] == Present(store, keys[1..]);
      } else {
        assert p == Present(store, keys[1..]);
      }
      assert forall k :: k in keys <==> k == keys[0] || k in keys[1..];
    }
  }

  /** Fetching one key when the server's answer is next on the connection: the value held, if any, and
      exactly the answer is taken. */
  method Get<P(!new)>(h: Host, k: Codec<P>, ghost store: Store, ghost key: string, ghost tail: string)
    returns (v: Option<Value<P>>)
    requires h.socket != null && AcceptedKey(key)
    requires h.Unread() == Reply(store, [key]) + tail
    modifies h, h.socket
    ensures v == if key in store then Received(k, store[key].0, store[key].1) else None
    ensures h.Unread() == tail && h.socket == old(h.socket)
  {
    hide Received, ValueLine, ExpectedValue, Reply, Present, LineEnd;
    ghost var keys := if key in store then [key] else [];
    PresentOne(store, key);
    ReplyFront(store, keys, tail);
    EndLine();
    var line := h.ReadLine();
    var expected := ExpectedValue(line.value);
    if expected.None? {
      if key in store {
        ValueLineRead(key, store[key].0, |store[key].1|);
      }
      return None;
    }
    var rkey, end;
    rkey, v, end := NextValue(h, k, store, keys, line.value, tail);
    assert keys[1..] == [];
  }

  /** A value whose line was read: its bytes, and the line after it. */
  method NextValue<P(!new)>(h: Host, k: Codec<P>, ghost store: Store, ghost keys: seq<string>, line: string,
                            ghost tail: string)
    returns (key: string, v: Option<Value<P>>, next: string)
    requires h.socket != null && keys != [] && forall i :: 0 <= i < |keys| ==> AcceptedKey(keys[i]) && keys[i] in store
    requires line == FrontLine(store, keys) && h.Unread() == Behind(store, keys, tail)
    modifies h, h.socket
    ensures key == Bare(keys[0]) && v == Received(k, store[keys[0]].0, store[keys[0]].1)
    ensures next == FrontLine(store, keys[1..]) && h.Unread() == Behind(store, keys[1..], tail)
    ensures h.socket == old(h.socket)
  {
    hide Received, ValueLine, ExpectedValue, Reply, LineEnd;
    ValueLineRead(keys[0], store[keys[0]].0, |store[keys[0]].1|);
    BehindIs(store[keys[0]].1, Reply(store, keys[1..]) + tail);
    ReplyFront(store, keys[1..], tail);
    hide FrontLine, Behind;
    var (rkey, flags, rlen) := ExpectedValue(line).value;
    var bytes := ReceiveValue(h, rlen);
    assert h.Unread() == Reply(store, keys[1..]) + tail;
    var l := h.ReadLine();
    return rkey, Received(k, flags, bytes.value), l.value;
  }

  lemma PresentOne(store: Store, key: string)
    ensures Reply(store, if key in store then [key] else []) == Reply(store, [key])
  {
    PresentKeys(store, [key]);
    assert [key][1..] == [];
  }

  /** Distinct keys on the server belong to distinct keys of the caller. */
  predicate Mapped<K(==)>(keys: seq<string>, origin: map<string, K>) {
    && (forall i :: 0 <= i < |keys| ==> ValidKey(keys[i]) && keys[i] in origin)
    && (forall i, j :: 0 <= i < |keys| && 0 <= j < |keys| && origin[keys[i]] == origin[keys[j]] ==> keys[i] == keys[j])
  }

  /** Fetching many keys from one server gives what fetching each alone does, under the caller's keys. */
  method GetMulti<P(!new), K(==)>(h: Host, k: Codec<P>, ghost store: Store, ghost keys: seq<string>,
                                  origin: map<string, K>, ghost tail: string)
    returns (r: map<K, Option<Value<P>>>)
    requires h.socket != null && Mapped(keys, origin)
    requires h.Unread() == Reply(store, keys) + tail
    modifies h, h.socket
    ensures forall key :: key in keys && key in store ==>
      origin[key] in r && r[origin[key]] == Received(k, store[key].0, store[key].1)
    ensures forall o :: o in r ==> exists key :: key in keys && key in store && origin[key] == o
    ensures h.Unread() == tail && h.socket == old(h.socket)
  {
    hide Received, Reply, Present, LineEnd, Behind, FrontLine;
    ghost var held := Present(store, keys);
    PresentKeys(store, keys);
    assert forall j :: 0 <= j < |held| ==> held[j] in keys && held[j] in store;
    ReplyFront(store, held, tail);
    r := map[];
    var l := h.ReadLine();
    var line := l.value;
    ghost var i := 0;
    assert held[0..] == held;
    while line != "" && line != "END"
      invariant 0 <= i <= |held| && h.socket == old(h.socket)
      invariant line == FrontLine(store, held[i..]) && h.Unread() == Behind(store, held[i..], tail)
      invariant forall j :: 0 <= j < i ==>
        origin[held[j]] in r && r[origin[held[j]]] == Received(k, store[held[j]].0, store[held[j]].1)
      invariant forall o :: o in r ==> exists j :: 0 <= j < i && origin[held[j]] == o
      decreases |held| - i
    {
      FrontIs(store, held[i..]);
      assert held[i..][0] == held[i] && held[i..][1..] == held[i + 1..];
      BareIff(held[i]);
      var rkey, v;
      rkey, v, line := NextValue(h, k, store, held[i..], line, tail);
      r := r[origin[rkey] := v];
      i := i + 1;
    }
    FrontIs(store, held[i..]);
    BehindNone(store, tail);
    assert held[|held|..] == [];
    forall key | key in keys && key in store
      ensures origin[key] in r && r[origin[key]] == Received(k, store[key].0, store[key].1)
    {
      var j :| 0 <= j < |held| && held[j] == key;
    }
  }

  lemma FrontIs(store: Store, keys: seq<string>)
    requires forall i :: 0 <= i < |keys| ==> AcceptedKey(keys[i]) && keys[i] in store
    ensures FrontLine(store, keys) != "" && (FrontLine(store, keys) == "END" <==> keys == [])
  {
    hide ValueLine;
    if keys != [] {
      ValueLineRead(keys[0], store[keys[0]].0, |store[keys[0]].1|);
      NotEmpty(keys[0], store[keys[0]].0, |store[keys[0]].1|);
    }
  }

  lemma BehindNone(store: Store, tail: string)
    ensures Behind(store, [], tail) == tail
  {
  }

  lemma NotEmpty(key: string, flags: nat, length: nat)
    ensures ValueLine(key, flags, length) != ""
  {
  }

  /** The command that stores a value's flags and bytes under a key. */
  function SetCommand(key: string, item: (nat, string), time: nat): string {
    Joined(["set", key, ToDecimal(item.0), ToDecimal(time), ToDecimal(|item.1|)]) + CRLF + (item.1 + CRLF)
  }

  /** The command in full. */
  lemma SetCommandIs(key: string, item: (nat, string), time: nat)
    ensures SetCommand(key, item, time)
         == "set " + key + " " + ToDecimal(item.0) + " " + ToDecimal(time) + " " + ToDecimal(|item.1|) + "\r\n"
            + item.1 + "\r\n"
  {
    hide ToDecimal, Joined;
    var f, t, n := ToDecimal(item.0), ToDecimal(time), ToDecimal(|item.1|);
    JoinedFive("set", key, f, t, n);
    Regrouped("set " + key + " " + f + " " + t + " " + n, item.1, "", "");
    assert item.1 + CRLF + "" == item.1 + CRLF;
  }

  lemma JoinedFive(a: string, b: string, c: string, d: string, e: string)
    ensures Joined([a, b, c, d, e]) == a + " " + b + " " + c + " " + d + " " + e
  {
    JoinedFour(b, c, d, e);
    assert [a, b, c, d, e][1..] == [b, c, d, e];
    assert a + " " + (b + " " + c + " " + d + " " + e) == a + " " + b + " " + c + " " + d + " " + e;
  }

  /** What a server holds after a command, the line it answers, and the bytes behind the command. */
  datatype Served = Served(store: Store, reply: string, rest: string)

  /** What a server of the text protocol makes of the next set command, and of the bytes after it. */
  function ServerSets(store: Store, text: string): (r: Option<Served>)
    ensures r.Some? ==> |r.value.rest| < |text|
  {
    if !HasLine(text) then None
    else
      var words, rest := Words(text[..LineEnd(text)]), text[LineEnd(text) + 2..];
      if |words| != 5 || words[0] != "set" then None
      else
        var flags, length := FromDecimal(words[2]), FromDecimal(words[4]);
        if flags.None? || length.None? || flags.value < 0 || length.value < 0 || |rest| < length.value + 2 then None
        else
          var item: (nat, string) := (flags.value, rest[..length.value]);
          var next: Store := store[words[1] := item];
          Some(Served(next, "STORED", rest[length.value + 2..]))
  }

  /** The server stores exactly what was sent, and takes exactly the command off the stream, whatever
      the value contains. */
  lemma ServerStores(store: Store, key: string, item: (nat, string), time: nat, rest: string)
    requires ValidKey(key)
    ensures ServerSets(store, SetCommand(key, item, time) + rest) 
         == Some(Served(store[key := item], "STORED", rest))
  {
    hide ToDecimal, FromDecimal, Words, LineEnd;
    var words := ["set", key, ToDecimal(item.0), ToDecimal(time), ToDecimal(|item.1|)];
    KeyPlainly(key);
    DecimalPlainly(item.0);
    DecimalPlainly(time);
    DecimalPlainly(|item.1|);
    DecimalAgain(item.0);
    DecimalAgain(|item.1|);
    WordsJoined(words);
    JoinedPlainly(words);
    var line := Joined(words);
    hide Joined;
    Regrouped(line, item.1, "", rest);
    LineOf(line, item.1 + CRLF + rest);
    BehindIs(item.1, rest);
    assert SetCommand(key, item, time) + rest == line + CRLF + (item.1 + CRLF + rest);
  }

  /** A value that fits and is set is what a get of its key then decodes, and every other key keeps its own. */
  lemma SetThenGet<P(!new)>(k: Codec<P>, l: Limits, v: Value<P>, store: Store, key: string, time: nat)
    requires k.Lawful() && Fits(k, l, v) && ValidKey(key)
    ensures StoreInfo(k, l, v).Some?
    ensures var text := SetCommand(key, StoreInfo(k, l, v).value, time);
      && ServerSets(store, text).Some?
      && var after := ServerSets(store, text).value.store;
         && key in after && Received(k, after[key].0, after[key].1) == Some(v)
         && forall other :: other != key ==>
              (other in after <==> other in store) && (other in store ==> after[other] == store[other])
  {
    hide StoreInfo, Received, ServerSets, SetCommand, Fits;
    ValueAgain(k, l, v);
    var item := StoreInfo(k, l, v).value;
    ServerStores(store, key, item, time, "");
    assert SetCommand(key, item, time) + "" == SetCommand(key, item, time);
  }
}

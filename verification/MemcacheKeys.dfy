/** The keys of a caller and those sent to a server: each is turned into text and given a prefix, and a
    dictionary leads back from the text to the caller's key. */
module MemcacheKeys {
  import opened MemcacheHost
  import opened MemcacheValues
  import opened MemcacheClient
  import opened Options

  /** The key check, for a key that a prefix will be put in front of; a limit of 0 is none. */
  predicate Checked(key: string, extra: nat, limit: nat) {
    AcceptedKey(key) && (limit != 0 ==> |key| + extra <= limit)
  }

  /** The program's pattern matches the first n characters: all of them allowed, and behind them the key
      ends, if not with a line feed. */
  predicate Matches(key: string, n: int) {
    && 1 <= n <= |key| && (key[n..] == "" || key[n..] == "\n")
    && forall i :: 0 <= i < n ==> 0x21 <= key[i] as int <= 0x7e || 0x80 <= key[i] as int <= 0xff
  }

  /** A key passes if and only if the pattern matches and the length with the prefix keeps the limit. */
  lemma CheckedIff(key: string, extra: nat, limit: nat)
    ensures Checked(key, extra, limit) <==> (limit == 0 || |key| + extra <= limit) && exists n :: Matches(key, n)
  {
    if AcceptedKey(key) {
      assert Matches(key, if ValidKey(key) then |key| else |key| - 1);
    }
    if n :| Matches(key, n) {
      assert n < |key| ==> key[n] == key[n..][0] && n == |key| - 1;
      assert ValidKey(if n == |key| then key else Bare(key));
    }
  }

  /** The prefix and all keys pass the check. */
  predicate AllChecked<K>(keys: seq<K>, str: K -> string, prefix: string, limit: nat) {
    (prefix != "" ==> Checked(prefix, 0, limit))
    && forall i :: 0 <= i < |keys| ==> Checked(str(keys[i]), |prefix|, limit)
  }

  function Prefixed<K>(keys: seq<K>, str: K -> string, prefix: string): (r: seq<string>)
    ensures |r| == |keys| && forall i :: 0 <= i < |keys| ==> r[i] == prefix + str(keys[i])
  {
    if keys == [] then []
    else Prefixed(keys[..|keys| - 1], str, prefix) + [prefix + str(keys[|keys| - 1])]
  }

  /** The way back: of two keys with the same text, the later one. */
  function Origins<K>(keys: seq<K>, str: K -> string, prefix: string): map<string, K> {
    if keys == [] then map[]
    else
      var last := keys[|keys| - 1];
      Origins(keys[..|keys| - 1], str, prefix)[prefix + str(last) := last]
  }

  /** The keys for one server, and the way back; none if a key is refused. */
  method MapAndPrefixKeys<K>(keys: seq<K>, str: K -> string, prefix: string, limit: nat)
    returns (r: Option<(seq<string>, map<string, K>)>)
    ensures r.Some? <==> AllChecked(keys, str, prefix, limit)
    ensures r.Some? ==> r.value == (Prefixed(keys, str, prefix), Origins(keys, str, prefix))
  {
    hide Checked;
    if prefix != "" && !Checked(prefix, 0, limit) { return None; }
    var serverKeys: seq<string>, prefixedToOrigKey: map<string, K> := [], map[];
    for i := 0 to |keys|
      invariant forall j :: 0 <= j < i ==> Checked(str(keys[j]), |prefix|, limit)
      invariant serverKeys == Prefixed(keys[..i], str, prefix)
      invariant prefixedToOrigKey == Origins(keys[..i], str, prefix)
    {
      if !Checked(str(keys[i]), |prefix|, limit) { return None; }
      assert keys[..i + 1][..i] == keys[..i];
      serverKeys := serverKeys + [prefix + str(keys[i])];
      prefixedToOrigKey := prefixedToOrigKey[prefix + str(keys[i]) := keys[i]];
    }
    assert keys[..|keys|] == keys;
    return Some((serverKeys, prefixedToOrigKey));
  }

  /** Every text leads back to a key that has it. */
  lemma {:induction false} OriginsLead<K>(keys: seq<K>, str: K -> string, prefix: string)
    ensures var m := Origins(keys, str, prefix);
      && (forall i :: 0 <= i < |keys| ==> prefix + str(keys[i]) in m)
      && (forall s :: s in m ==> prefix + str(m[s]) == s && m[s] in keys)
  {
    if keys != [] {
      OriginsLead(keys[..|keys| - 1], str, prefix);
    }
  }

  /** The dictionary and the keys meet what fetching many keys asks for if and only if every text sent is
      a proper key. */
  lemma MappedIff<K>(keys: seq<K>, str: K -> string, prefix: string)
    ensures Mapped(Prefixed(keys, str, prefix), Origins(keys, str, prefix))
      <==> forall i :: 0 <= i < |keys| ==> ValidKey(prefix + str(keys[i]))
  {
    hide ValidKey;
    OriginsLead(keys, str, prefix);
  }

  /** Keys that pass the check are proper if and only if neither they nor the prefix end in a line feed. */
  lemma ProperIff(key: string, prefix: string)
    requires AcceptedKey(key) && (prefix != "" ==> AcceptedKey(prefix))
    ensures ValidKey(prefix + key) <==> Bare(prefix) == prefix && Bare(key) == key
  {
    BareIff(key);
    if prefix != "" {
      BareIff(prefix);
      assert prefix + key == prefix[..|prefix| - 1] + [prefix[|prefix| - 1]] + key;
      assert (prefix + key)[|prefix| - 1] == prefix[|prefix| - 1];
    }
    assert (prefix + key)[|prefix + key| - 1] == key[|key| - 1];
  }

  /** Every key of the caller is the one that its text leads back to. */
  ghost predicate AllOwn<K>(keys: seq<K>, str: K -> string, prefix: string) {
    forall i :: 0 <= i < |keys| ==>
      var s := prefix + str(keys[i]);
      s in Origins(keys, str, prefix) && Origins(keys, str, prefix)[s] == keys[i]
  }

  /** That is so if and only if no two different ones have the same text, as the number 1 and the text
      of it have. */
  lemma OwnIff<K>(keys: seq<K>, str: K -> string, prefix: string)
    ensures AllOwn(keys, str, prefix)
      <==> forall i, j :: 0 <= i < |keys| && 0 <= j < |keys| && str(keys[i]) == str(keys[j]) ==> keys[i] == keys[j]
  {
    hide Origins;
    OriginsLead(keys, str, prefix);
    var m := Origins(keys, str, prefix);
    if forall i, j :: 0 <= i < |keys| && 0 <= j < |keys| && str(keys[i]) == str(keys[j]) ==> keys[i] == keys[j] {
      forall i | 0 <= i < |keys| ensures prefix + str(keys[i]) in m && m[prefix + str(keys[i])] == keys[i] {
        var o := m[prefix + str(keys[i])];
        SameText(prefix, str(o), str(keys[i]));
      }
    }
  }

  lemma SameText(prefix: string, s: string, t: string)
    requires prefix + s == prefix + t
    ensures s == t
  {
    assert (prefix + s)[|prefix|..] == s && (prefix + t)[|prefix|..] == t;
  }

  /** Fetching many keys: each key that its text leads back to has its value if the server holds one, and
      no other key is in the result. */
  method GetMultiKeys<P(!new), K(==)>(h: Host, k: Codec<P>, ghost store: Store, keys: seq<K>, str: K -> string,
                                      prefix: string, limit: nat, ghost tail: string)
    returns (r: Option<map<K, Option<Value<P>>>>)
    requires h.socket != null && h.Unread() == Reply(store, Prefixed(keys, str, prefix)) + tail
    requires forall i :: 0 <= i < |keys| ==> ValidKey(prefix + str(keys[i]))
    modifies h, h.socket
    ensures r.Some? <==> AllChecked(keys, str, prefix, limit)
    ensures r.Some? ==> forall i :: 0 <= i < |keys| ==>
      var s := prefix + str(keys[i]);
      && s in Origins(keys, str, prefix)
      && (keys[i] in r.value <==> s in store && Origins(keys, str, prefix)[s] == keys[i])
      && (keys[i] in r.value ==> r.value[keys[i]] == Received(k, store[s].0, store[s].1))
    ensures r.Some? ==> h.Unread() == tail && h.socket == old(h.socket)
  {
    hide ValidKey, Received, Reply, Origins;
    var mapped := MapAndPrefixKeys(keys, str, prefix, limit);
    if mapped.None? { return None; }
    var (serverKeys, origins) := mapped.value;
    MappedIff(keys, str, prefix);
    OriginsLead(keys, str, prefix);
    var m := GetMulti(h, k, store, serverKeys, origins, tail);
    forall i | 0 <= i < |keys|
      ensures var s := prefix + str(keys[i]);
        (keys[i] in m <==> s in store && origins[s] == keys[i])
        && (keys[i] in m ==> m[keys[i]] == Received(k, store[s].0, store[s].1))
    {
      var s := prefix + str(keys[i]);
      assert serverKeys[i] == s;
      if keys[i] in m {
        var key :| key in serverKeys && key in store && origins[key] == keys[i];
        assert prefix + str(origins[key]) == key;
      }
    }
    return Some(m);
  }
}

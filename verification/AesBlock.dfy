/** The program of the block cipher: lists of bytes changed in place, proved against the functions
    of AesCipher. */
module AesBlock {
  import opened AesTables
  import opened Galois
  import opened AesState
  import opened AesCipher
  import opened Options

  method SubstituteBytes(state: array<bv8>, isInv: bool)
    requires state.Length == 16
    modifies state
    ensures state[..] == SubBytes(old(state[..]), isInv)
  {
    hide SBox, InvSBox;
    for i := 0 to 16
      invariant forall k :: 0 <= k < i ==> state[k] == Substitute(old(state[k]), isInv)
      invariant forall k :: i <= k < 16 ==> state[k] == old(state[k])
    {
      state[i] := if isInv then InvSBox(state[i]) else SBox(state[i]);
    }
  }

  /** The row s is the given one turned n times. */
  predicate RowTurned(s: Word, row: Word, n: nat, inv: bool)
    requires n < 4
  {
    && s[0] == row[Turned(0, n, inv)] && s[1] == row[Turned(1, n, inv)]
    && s[2] == row[Turned(2, n, inv)] && s[3] == row[Turned(3, n, inv)]
  }

  lemma TurnedNot(row: Word, inv: bool)
    ensures RowTurned(row, row, 0, inv)
  {
  }

  lemma TurnedOnce(s: Word, row: Word, n: nat)
    requires n < 3
    ensures RowTurned(s, row, n, false) ==> RowTurned([s[1], s[2], s[3], s[0]], row, n + 1, false)
    ensures RowTurned(s, row, n, true) ==> RowTurned([s[3], s[0], s[1], s[2]], row, n + 1, true)
  {
  }

  method ShiftRow(state: array<bv8>, statePointer: nat, nbr: nat, isInv: bool)
    requires statePointer + 4 <= state.Length && nbr < 4
    modifies state
    ensures RowTurned(state[statePointer..statePointer + 4], old(state[statePointer..statePointer + 4]), nbr, isInv)
    ensures forall k :: 0 <= k < state.Length && !(statePointer <= k < statePointer + 4) ==>
      state[k] == old(state[k])
  {
    hide RowTurned;
    var p := statePointer;
    ghost var row: Word := state[p..p + 4];
    TurnedNot(row, isInv);
    for i := 0 to nbr
      invariant RowTurned(state[p..p + 4], row, i, isInv)
      invariant forall k :: 0 <= k < state.Length && !(p <= k < p + 4) ==> state[k] == old(state[k])
    {
      ghost var s: Word := state[p..p + 4];
      TurnedOnce(s, row, i);
      if isInv {
        state[p], state[p + 1], state[p + 2], state[p + 3] := state[p + 3], state[p], state[p + 1], state[p + 2];
        assert state[p..p + 4] == [s[3], s[0], s[1], s[2]];
      } else {
        state[p], state[p + 1], state[p + 2], state[p + 3] := state[p + 1], state[p + 2], state[p + 3], state[p];
        assert state[p..p + 4] == [s[1], s[2], s[3], s[0]];
      }
    }
  }

  /** Byte c of row r, with the rows turned. */
  lemma TurnedByte(t: State, s: State, r: nat, inv: bool, c: nat)
    requires r < 4 && c < 4 && RowTurned(t[4 * r..4 * r + 4], s[4 * r..4 * r + 4], r, inv)
    ensures t[4 * r + c] == s[Source(4 * r + c, inv)]
  {
    hide Source, Turned;
    SourceTurned(c, r, inv);
    assert t[4 * r..4 * r + 4][c] == t[4 * r + c];
    assert s[4 * r..4 * r + 4][Turned(c, r, inv)] == s[4 * r + Turned(c, r, inv)];
  }

  method TurnRows(state: array<bv8>, isInv: bool)
    requires state.Length == 16
    modifies state
    ensures state[..] == ShiftRows(old(state[..]), isInv)
  {
    hide Turned, Source, RowTurned;
    ghost var s: State := state[..];
    for i := 0 to 4
      invariant forall k :: 0 <= k < 4 * i ==> state[k] == s[Source(k, isInv)]
      invariant forall k :: 4 * i <= k < 16 ==> state[k] == s[k]
    {
      assert state[4 * i..4 * i + 4] == s[4 * i..4 * i + 4];
      ShiftRow(state, 4 * i, i, isInv);
      assert state[..][4 * i..4 * i + 4] == state[4 * i..4 * i + 4];
      forall k | 4 * i <= k < 4 * i + 4 ensures state[k] == s[Source(k, isInv)] {
        TurnedByte(state[..], s, i, isInv, k - 4 * i);
      }
    }
  }

  /** The coefficients of a mixed column. */
  function Coefficients(inv: bool): seq<bv8> {
    if inv then [14, 9, 13, 11] else [2, 1, 1, 3]
  }

  method MixedByte(a: bv8, b: bv8, c: bv8, d: bv8, mult: seq<bv8>, ghost inv: bool) returns (r: bv8)
    requires mult == Coefficients(inv)
    ensures r == Dot(a, b, c, d, inv)
  {
    hide Galois.Mul;
    var p := Multiply(a, mult[0]);
    var q := Multiply(b, mult[1]);
    var s := Multiply(c, mult[2]);
    var t := Multiply(d, mult[3]);
    r := Add(Add(Add(p, q), s), t);
  }

  method MixColumn(column: array<bv8>, isInv: bool)
    requires column.Length == 4
    modifies column
    ensures column[0] == old(Dot(column[0], column[3], column[2], column[1], isInv))
    ensures column[1] == old(Dot(column[1], column[0], column[3], column[2], isInv))
    ensures column[2] == old(Dot(column[2], column[1], column[0], column[3], isInv))
    ensures column[3] == old(Dot(column[3], column[2], column[1], column[0], isInv))
  {
    hide Dot, Coefficients;
    var mult: seq<bv8> := Coefficients(isInv);
    var cpy := column[..];
    column[0] := MixedByte(cpy[0], cpy[3], cpy[2], cpy[1], mult, isInv);
    column[1] := MixedByte(cpy[1], cpy[0], cpy[3], cpy[2], mult, isInv);
    column[2] := MixedByte(cpy[2], cpy[1], cpy[0], cpy[3], mult, isInv);
    column[3] := MixedByte(cpy[3], cpy[2], cpy[1], cpy[0], mult, isInv);
  }

  /** The state with its first n columns mixed. */
  ghost predicate MixedUpTo(now: State, before: State, n: nat, inv: bool)
    requires n <= 4
  {
    forall k :: 0 <= k < 16 ==> now[k] == if k % 4 < n then MixColumns(before, inv)[k] else before[k]
  }

  lemma MixedColumn(s: State, i: nat, inv: bool)
    requires i < 4
    ensures MixColumns(s, inv)[i] == Dot(s[i], s[i + 12], s[i + 8], s[i + 4], inv)
    ensures MixColumns(s, inv)[i + 4] == Dot(s[i + 4], s[i], s[i + 12], s[i + 8], inv)
    ensures MixColumns(s, inv)[i + 8] == Dot(s[i + 8], s[i + 4], s[i], s[i + 12], inv)
    ensures MixColumns(s, inv)[i + 12] == Dot(s[i + 12], s[i + 8], s[i + 4], s[i], inv)
  {
    hide Dot;
  }

  lemma MixedNext(before: State, now: State, next: State, i: nat, inv: bool)
    requires i < 4 && MixedUpTo(now, before, i, inv)
    requires next == now[i := MixColumns(before, inv)[i]][i + 4 := MixColumns(before, inv)[i + 4]]
                        [i + 8 := MixColumns(before, inv)[i + 8]][i + 12 := MixColumns(before, inv)[i + 12]]
    ensures MixedUpTo(next, before, i + 1, inv)
  {
    hide MixColumns;
  }

  lemma MixedAll(now: State, before: State, inv: bool)
    requires MixedUpTo(now, before, 4, inv)
    ensures now == MixColumns(before, inv)
  {
    hide MixColumns;
  }

  method MixAllColumns(state: array<bv8>, isInv: bool)
    requires state.Length == 16
    modifies state
    ensures state[..] == MixColumns(old(state[..]), isInv)
  {
    hide Dot, MixColumns, MixedUpTo;
    NothingMixed(state[..], isInv);
    for i := 0 to 4
      invariant MixedUpTo(state[..], old(state[..]), i, isInv)
    {
      MixOneColumn(state, i, isInv, old(state[..]));
    }
    MixedAll(state[..], old(state[..]), isInv);
  }

  lemma NothingMixed(s: State, inv: bool)
    ensures MixedUpTo(s, s, 0, inv)
  {
  }

  /** The loop body: a column is taken out of the rows, mixed and put back. */
  method MixOneColumn(state: array<bv8>, i: nat, isInv: bool, ghost before: State)
    requires state.Length == 16 && i < 4
    requires MixedUpTo(state[..], before, i, isInv)
    modifies state
    ensures MixedUpTo(state[..], before, i + 1, isInv)
  {
    hide Dot, MixColumns;
    ghost var now := state[..];
    assert now[i] == before[i] && now[i + 4] == before[i + 4] && now[i + 8] == before[i + 8]
      && now[i + 12] == before[i + 12];
    var column := new bv8[4] [state[i], state[i + 4], state[i + 8], state[i + 12]];
    MixColumn(column, isInv);
    MixedColumn(before, i, isInv);
    state[i], state[i + 4], state[i + 8], state[i + 12] := column[0], column[1], column[2], column[3];
    MixedNext(before, now, state[..], i, isInv);
  }

  method AddKey(state: array<bv8>, roundKey: array<bv8>)
    requires state.Length == 16 && roundKey.Length == 16 && state != roundKey
    modifies state
    ensures state[..] == AddRoundKey(old(state[..]), roundKey[..])
  {
    for i := 0 to 16
      invariant forall k :: 0 <= k < i ==> state[k] == Add(old(state[k]), roundKey[k])
      invariant forall k :: i <= k < 16 ==> state[k] == old(state[k])
    {
      state[i] := state[i] ^ roundKey[i];
    }
  }

  method KeyCore(word: Word, iteration: nat) returns (w: array<bv8>)
    requires 1 <= iteration <= 10
    ensures fresh(w) && w.Length == 4 && w[..] == Core(word, iteration)
  {
    hide SBox, Rcon;
    var rotated := word[1..] + word[..1];
    w := new bv8[4] [rotated[0], rotated[1], rotated[2], rotated[3]];
    for i := 0 to 4
      invariant forall k :: 0 <= k < i ==> w[k] == SBox(rotated[k])
      invariant forall k :: i <= k < 4 ==> w[k] == rotated[k]
    {
      w[i] := SBox(w[i]);
    }
    RconTable(iteration);
    w[0] := Add(w[0], RCON[iteration]);
  }

  /** The first n words of a list of bytes are those of the key schedule. */
  ghost predicate Scheduling(expanded: Bytes, key: Bytes, nk: nat, n: nat)
    requires nk > 0 && |key| >= 4 * nk && |expanded| >= 4 * n
  {
    forall i :: 0 <= i < n ==> expanded[4 * i..4 * i + 4] == KeyWord(key, nk, i)
  }

  lemma KeyCopied(expanded: Bytes, key: Bytes, nk: nat)
    requires nk > 0 && |key| >= 4 * nk && |expanded| >= 4 * nk
    requires expanded[..4 * nk] == key[..4 * nk]
    ensures Scheduling(expanded, key, nk, nk)
  {
    forall i | 0 <= i < nk ensures expanded[4 * i..4 * i + 4] == KeyWord(key, nk, i) {
      assert expanded[4 * i..4 * i + 4] == expanded[..4 * nk][4 * i..4 * i + 4];
      assert key[4 * i..4 * i + 4] == key[..4 * nk][4 * i..4 * i + 4];
    }
  }

  /** Writing the next word of the schedule. */
  lemma WordScheduled(was: Bytes, now: Bytes, key: Bytes, nk: nat, n: nat)
    requires KeySize(nk) && |key| >= 4 * nk && nk <= n && |was| == |now| >= 4 * n + 4
    requires Scheduling(was, key, nk, n)
    requires now[..4 * n] == was[..4 * n] && now[4 * n..4 * n + 4] == KeyWord(key, nk, n)
    ensures Scheduling(now, key, nk, n + 1)
  {
    hide KeyWord;
    forall i | 0 <= i < n + 1 ensures now[4 * i..4 * i + 4] == KeyWord(key, nk, i) {
      if i < n {
        assert now[4 * i..4 * i + 4] == now[..4 * n][4 * i..4 * i + 4];
        assert was[4 * i..4 * i + 4] == was[..4 * n][4 * i..4 * i + 4];
      }
    }
  }

  lemma Multiples4(n: nat, iteration: nat)
    requires 4 * iteration - 4 < n <= 4 * iteration
    ensures (4 * n) % 16 == 0 <==> n == 4 * iteration
    ensures n % 4 == 0 <==> n == 4 * iteration
  {
  }

  lemma Multiples6(n: nat, iteration: nat)
    requires 6 * iteration - 6 < n <= 6 * iteration
    ensures (4 * n) % 24 == 0 <==> n == 6 * iteration
    ensures n % 6 == 0 <==> n == 6 * iteration
  {
  }

  lemma Multiples8(n: nat, iteration: nat)
    requires 8 * iteration - 8 < n <= 8 * iteration
    ensures (4 * n) % 32 == 0 <==> n == 8 * iteration
    ensures n % 8 == 0 <==> n == 8 * iteration
    ensures (4 * n) % 32 == 16 <==> n % 8 == 4
  {
  }

  /** Whole key lengths come round at the multiples of the key length only. */
  lemma Multiples(nk: nat, n: nat, next: nat, iteration: nat)
    requires KeySize(nk) && next == iteration * nk && next - nk < n <= next
    requires n < 4 * (nk + 7)
    ensures (4 * n) % (4 * nk) == 0 <==> n == next
    ensures n % nk == 0 <==> n == next
    ensures nk == 8 ==> ((4 * n) % 32 == 16 <==> n % 8 == 4)
    ensures n == next ==> iteration <= 10
  {
    if nk == 4 {
      Multiples4(n, iteration);
    } else if nk == 6 {
      Multiples6(n, iteration);
    } else {
      Multiples8(n, iteration);
    }
  }

  lemma {:induction false} IterationCounts(nk: nat, iteration: nat)
    requires KeySize(nk) && iteration > 0
    ensures iteration * nk >= nk
    ensures Iteration(iteration * nk, nk) == iteration
    decreases iteration
  {
    if iteration > 1 {
      IterationCounts(nk, iteration - 1);
      assert iteration * nk - nk == (iteration - 1) * nk;
    }
  }

  /** The temporary word of the schedule: the previous one, put through the core when a key length
      is complete, and for long keys through the S-box half way. */
  method NextTemporary(previous: Word, key: Bytes, size: nat, currentSize: nat, rconIteration: nat)
    returns (t: array<bv8>, next: nat)
    requires KeySize(size / 4) && size % 4 == 0 && currentSize % 4 == 0
    requires currentSize / 4 < 4 * (size / 4 + 7) && size <= currentSize
    requires rconIteration > 0
    requires (rconIteration - 1) * (size / 4) < currentSize / 4 <= rconIteration * (size / 4)
    ensures fresh(t) && t.Length == 4 && t[..] == Scheduled(previous, size / 4, currentSize / 4)
    ensures next == if currentSize / 4 == rconIteration * (size / 4) then rconIteration + 1 else rconIteration
  {
    hide SBox, Core, Iteration;
    ghost var nk, n := size / 4, currentSize / 4;
    assert (rconIteration - 1) * nk == rconIteration * nk - nk;
    Multiples(nk, n, rconIteration * nk, rconIteration);
    IterationCounts(nk, rconIteration);
    t := new bv8[4] [previous[0], previous[1], previous[2], previous[3]];
    assert t[..] == previous;
    next := rconIteration;
    if currentSize % size == 0 {
      t := KeyCore(t[..], rconIteration);
      next := next + 1;
    }
    if size == 32 && currentSize % size == 16 {
      for l := 0 to 4
        invariant forall k :: 0 <= k < l ==> t[k] == SBox(previous[k])
        invariant forall k :: l <= k < 4 ==> t[k] == previous[k]
      {
        t[l] := SBox(t[l]);
      }
    }
  }

  /** The four bytes of the next word, each the sum of the byte one key length back and of t. */
  method AppendWord(expandedKey: array<bv8>, t: array<bv8>, size: nat, start: nat)
    requires 4 <= size <= start && start + 4 <= expandedKey.Length && t.Length == 4 && t != expandedKey
    modifies expandedKey
    ensures expandedKey[..start] == old(expandedKey[..start])
    ensures expandedKey[start..start + 4] == AddWord(old(expandedKey[start - size..start - size + 4]), t[..])
  {
    hide Add;
    var currentSize := start;
    for m := 0 to 4
      invariant currentSize == start + m
      invariant expandedKey[..start] == old(expandedKey[..start])
      invariant forall k :: 0 <= k < m ==> expandedKey[start + k] == Add(old(expandedKey[start - size + k]), t[k])
    {
      assert expandedKey[currentSize - size] == expandedKey[..start][currentSize - size];
      expandedKey[currentSize] := Add(expandedKey[currentSize - size], t[m]);
      currentSize := currentSize + 1;
    }
    assert expandedKey[start..start + 4]
      == [expandedKey[start], expandedKey[start + 1], expandedKey[start + 2], expandedKey[start + 3]];
    ghost var earlier := old(expandedKey[start - size..start - size + 4]);
    assert earlier[0] == old(expandedKey[start - size]) && earlier[1] == old(expandedKey[start - size + 1]);
    assert earlier[2] == old(expandedKey[start - size + 2]) && earlier[3] == old(expandedKey[start - size + 3]);
  }

  /** One turn of the expansion loop. */
  method ExpandWord(expandedKey: array<bv8>, key: Bytes, size: nat, currentSize: nat, rconIteration: nat)
    returns (next: nat)
    requires KeySize(size / 4) && size % 4 == 0 && |key| >= size && currentSize % 4 == 0
    requires size <= currentSize && currentSize + 4 <= expandedKey.Length
    requires currentSize / 4 < 4 * (size / 4 + 7)
    requires rconIteration > 0
    requires (rconIteration - 1) * (size / 4) < currentSize / 4 <= rconIteration * (size / 4)
    requires Scheduling(expandedKey[..], key, size / 4, currentSize / 4)
    modifies expandedKey
    ensures Scheduling(expandedKey[..], key, size / 4, currentSize / 4 + 1)
    ensures next == if currentSize / 4 == rconIteration * (size / 4) then rconIteration + 1 else rconIteration
  {
    hide Scheduled, AddWord;
    ghost var nk, n := size / 4, currentSize / 4;
    ghost var was := expandedKey[..];
    Looked(was, key, nk, n);
    assert expandedKey[currentSize - 4..currentSize] == was[4 * (n - 1)..4 * (n - 1) + 4];
    assert expandedKey[currentSize - size..currentSize - size + 4] == was[4 * (n - nk)..4 * (n - nk) + 4];
    var t;
    t, next := NextTemporary(expandedKey[currentSize - 4..currentSize], key, size, currentSize, rconIteration);
    AppendWord(expandedKey, t, size, currentSize);
    assert expandedKey[..][4 * n..4 * n + 4] == expandedKey[currentSize..currentSize + 4];
    assert expandedKey[..][..4 * n] == expandedKey[..currentSize];
    assert was[..4 * n] == old(expandedKey[..currentSize]);
    WordScheduled(was, expandedKey[..], key, nk, n);
  }

  lemma Looked(expanded: Bytes, key: Bytes, nk: nat, n: nat)
    requires KeySize(nk) && |key| >= 4 * nk && nk <= n && |expanded| >= 4 * n
    requires Scheduling(expanded, key, nk, n)
    ensures expanded[4 * (n - 1)..4 * (n - 1) + 4] == KeyWord(key, nk, n - 1)
    ensures expanded[4 * (n - nk)..4 * (n - nk) + 4] == KeyWord(key, nk, n - nk)
    ensures KeyWord(key, nk, n) == AddWord(KeyWord(key, nk, n - nk), Scheduled(KeyWord(key, nk, n - 1), nk, n))
  {
    hide AddWord, Scheduled;
  }

  method ExpandKey(key: Bytes, size: nat, expandedKeySize: nat) returns (expandedKey: array<bv8>)
    requires KeySize(size / 4) && size % 4 == 0 && |key| >= size
    requires size <= expandedKeySize <= 16 * (Rounds(size / 4) + 1) && expandedKeySize % 4 == 0
    ensures fresh(expandedKey) && expandedKey.Length == expandedKeySize
    ensures Scheduling(expandedKey[..], key, size / 4, expandedKeySize / 4)
  {
    hide Scheduling;
    ghost var nk := size / 4;
    expandedKey := new bv8[expandedKeySize](_ => 0);
    for j := 0 to size
      invariant expandedKey[..j] == key[..j]
    {
      expandedKey[j] := key[j];
    }
    assert expandedKey[..][..4 * nk] == key[..4 * nk];
    KeyCopied(expandedKey[..], key, nk);
    var currentSize, rconIteration := size, 1;
    while currentSize < expandedKeySize
      invariant size <= currentSize <= expandedKeySize && currentSize % 4 == 0 && rconIteration > 0
      invariant (rconIteration - 1) * nk < currentSize / 4 <= rconIteration * nk
      invariant Scheduling(expandedKey[..], key, nk, currentSize / 4)
    {
      ghost var was := rconIteration;
      assert (was + 1) * nk == was * nk + nk;
      rconIteration := ExpandWord(expandedKey, key, size, currentSize, rconIteration);
      currentSize := currentSize + 4;
    }
  }

  /** Sixteen bytes of the expanded key, as a state. */
  function KeyAt(expanded: Bytes, p: nat): State
    requires p + 16 <= |expanded|
  {
    seq(16, i requires 0 <= i < 16 => expanded[p + 4 * (i % 4) + i / 4])
  }

  lemma RoundKeyAt(expanded: Bytes, key: Bytes, nk: nat, r: nat)
    requires nk > 0 && |key| >= 4 * nk && |expanded| >= 16 * r + 16
    requires Scheduling(expanded, key, nk, 4 * r + 4)
    ensures KeyAt(expanded, 16 * r) == RoundKey(key, nk, r)
  {
    hide KeyWord;
    var k := KeyAt(expanded, 16 * r);
    forall i | 0 <= i < 16 ensures k[i] == RoundKey(key, nk, r)[i] {
      var w := 4 * r + i % 4;
      assert expanded[4 * w..4 * w + 4] == KeyWord(key, nk, w);
      assert expanded[4 * w + i / 4] == expanded[4 * w..4 * w + 4][i / 4];
    }
  }

  method CreateRoundKey(expandedKey: array<bv8>, roundKeyPointer: nat) returns (roundKey: array<bv8>)
    requires roundKeyPointer + 16 <= expandedKey.Length
    ensures fresh(roundKey) && roundKey.Length == 16
    ensures roundKey[..] == KeyAt(expandedKey[..], roundKeyPointer)
  {
    roundKey := new bv8[16](_ => 0);
    for i := 0 to 4
      invariant forall k :: 0 <= k < 16 && k % 4 < i ==> roundKey[k] == KeyAt(expandedKey[..], roundKeyPointer)[k]
    {
      for j := 0 to 4
        invariant forall k :: 0 <= k < 16 && (k % 4 < i || (k % 4 == i && k / 4 < j)) ==>
          roundKey[k] == KeyAt(expandedKey[..], roundKeyPointer)[k]
      {
        roundKey[j * 4 + i] := expandedKey[roundKeyPointer + i * 4 + j];
      }
    }
  }

  method RoundForward(state: array<bv8>, roundKey: array<bv8>)
    requires state.Length == 16 && roundKey.Length == 16 && state != roundKey
    modifies state
    ensures state[..] == Round(old(state[..]), roundKey[..])
  {
    hide SubBytes, ShiftRows, MixColumns, AddRoundKey;
    SubstituteBytes(state, false);
    TurnRows(state, false);
    MixAllColumns(state, false);
    AddKey(state, roundKey);
  }

  method RoundBackward(state: array<bv8>, roundKey: array<bv8>)
    requires state.Length == 16 && roundKey.Length == 16 && state != roundKey
    modifies state
    ensures state[..] == InvRound(old(state[..]), roundKey[..])
  {
    hide SubBytes, ShiftRows, MixColumns, AddRoundKey;
    TurnRows(state, true);
    SubstituteBytes(state, true);
    AddKey(state, roundKey);
    MixAllColumns(state, true);
  }

  /** The key of round r, read off the expanded key. */
  method NextRoundKey(expandedKey: array<bv8>, r: nat, ghost key: Bytes, ghost nk: nat) returns (k: array<bv8>)
    requires KeySize(nk) && |key| >= 4 * nk && r <= Rounds(nk)
    requires expandedKey.Length == 16 * (Rounds(nk) + 1)
    requires Scheduling(expandedKey[..], key, nk, 4 * (Rounds(nk) + 1))
    ensures fresh(k) && k.Length == 16 && k[..] == RoundKey(key, nk, r)
  {
    hide KeyWord, KeyAt, RoundKey;
    k := CreateRoundKey(expandedKey, 16 * r);
    RoundKeyAt(expandedKey[..], key, nk, r);
  }

  method RunForward(state: array<bv8>, expandedKey: array<bv8>, nbrRounds: nat, ghost key: Bytes, ghost nk: nat)
    requires state.Length == 16 && state != expandedKey
    requires KeySize(nk) && |key| >= 4 * nk && nbrRounds == Rounds(nk)
    requires expandedKey.Length == 16 * (Rounds(nk) + 1)
    requires Scheduling(expandedKey[..], key, nk, 4 * (Rounds(nk) + 1))
    modifies state
    ensures state[..] == Main(key, nk, old(state[..]))
  {
    hide SubBytes, ShiftRows, Round, AddRoundKey, RoundKey, Scheduling;
    var k := NextRoundKey(expandedKey, 0, key, nk);
    AddKey(state, k);
    var i := 1;
    while i < nbrRounds
      invariant 1 <= i <= nbrRounds
      invariant state[..] == Forward(key, nk, old(state[..]), i - 1)
    {
      k := NextRoundKey(expandedKey, i, key, nk);
      RoundForward(state, k);
      i := i + 1;
    }
    SubstituteBytes(state, false);
    TurnRows(state, false);
    k := NextRoundKey(expandedKey, nbrRounds, key, nk);
    AddKey(state, k);
  }

  method RunBackward(state: array<bv8>, expandedKey: array<bv8>, nbrRounds: nat, ghost key: Bytes, ghost nk: nat)
    requires state.Length == 16 && state != expandedKey
    requires KeySize(nk) && |key| >= 4 * nk && nbrRounds == Rounds(nk)
    requires expandedKey.Length == 16 * (Rounds(nk) + 1)
    requires Scheduling(expandedKey[..], key, nk, 4 * (Rounds(nk) + 1))
    modifies state
    ensures state[..] == InvMain(key, nk, old(state[..]))
  {
    hide SubBytes, ShiftRows, InvRound, AddRoundKey, RoundKey, Scheduling;
    var k := NextRoundKey(expandedKey, nbrRounds, key, nk);
    AddKey(state, k);
    var i := nbrRounds - 1;
    while i > 0
      invariant 0 <= i < nbrRounds
      invariant state[..] == Backward(key, nk, old(state[..]), i + 1)
    {
      k := NextRoundKey(expandedKey, i, key, nk);
      RoundBackward(state, k);
      i := i - 1;
    }
    TurnRows(state, true);
    SubstituteBytes(state, true);
    k := NextRoundKey(expandedKey, 0, key, nk);
    AddKey(state, k);
  }

  /** Copies 16 bytes between the order of a block and the order of a state. */
  method Remap(from: array<bv8>, to: array<bv8>)
    requires from.Length >= 16 && to.Length == 16 && from != to
    modifies to
    ensures to[..] == Transposed(from[..16])
  {
    for i := 0 to 4
      invariant forall k :: 0 <= k < 16 && k % 4 < i ==> to[k] == from[4 * (k % 4) + k / 4]
    {
      for j := 0 to 4
        invariant forall k :: 0 <= k < 16 && (k % 4 < i || (k % 4 == i && k / 4 < j)) ==>
          to[k] == from[4 * (k % 4) + k / 4]
      {
        to[i + j * 4] := from[i * 4 + j];
      }
    }
  }

  /** The number of rounds for a key of so many bytes, or none if the size is not supported. */
  function RoundsFor(size: nat): Option<nat> {
    if size == 16 then Some(10) else if size == 24 then Some(12) else if size == 32 then Some(14) else None
  }

  method EncryptBlock(iput: array<bv8>, key: Bytes, size: nat) returns (r: Option<array<bv8>>)
    requires iput.Length >= 16 && |key| >= size
    ensures r.None? <==> !(size == 16 || size == 24 || size == 32)
    ensures r.Some? ==> fresh(r.value) && r.value.Length == 16
    ensures r.Some? ==> r.value[..] == Encrypt(key, size / 4, iput[..16])
  {
    hide Transposed, Main, Scheduling;
    var output := new bv8[16](_ => 0);
    var block := new bv8[16](_ => 0);
    var nbrRounds := RoundsFor(size);
    if nbrRounds.None? { return None; }
    Remap(iput, block);
    var expandedKey := ExpandKey(key, size, 16 * (nbrRounds.value + 1));
    RunForward(block, expandedKey, nbrRounds.value, key, size / 4);
    Remap(block, output);
    assert block[..16] == block[..];
    return Some(output);
  }

  method DecryptBlock(iput: array<bv8>, key: Bytes, size: nat) returns (r: Option<array<bv8>>)
    requires iput.Length >= 16 && |key| >= size
    ensures r.None? <==> !(size == 16 || size == 24 || size == 32)
    ensures r.Some? ==> fresh(r.value) && r.value.Length == 16
    ensures r.Some? ==> r.value[..] == Decrypt(key, size / 4, iput[..16])
  {
    hide Transposed, InvMain, Scheduling;
    var output := new bv8[16](_ => 0);
    var block := new bv8[16](_ => 0);
    var nbrRounds := RoundsFor(size);
    if nbrRounds.None? { return None; }
    Remap(iput, block);
    var expandedKey := ExpandKey(key, size, 16 * (nbrRounds.value + 1));
    RunBackward(block, expandedKey, nbrRounds.value, key, size / 4);
    Remap(block, output);
    assert block[..16] == block[..];
    return Some(output);
  }
}

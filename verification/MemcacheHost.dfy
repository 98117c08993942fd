/** The connection to a memcached server: lines and blocks read from a stream that arrives in pieces of
    any size, through a buffer that keeps what was read too much. */
module MemcacheHost {
  import opened Options

  /** A connected socket: the bytes the server will have sent in all, and how the network cuts them:
      each receive gives at least one byte while there are any, and no more than asked for. */
  class Socket {
    var stream: string
    var cuts: seq<nat>

    constructor (stream: string, cuts: seq<nat>)
      ensures this.stream == stream
    {
      this.stream, this.cuts := stream, cuts;
    }

    method Recv(bufsize: nat) returns (data: string)
      requires bufsize > 0
      modifies this
      ensures data + stream == old(stream) && |data| <= bufsize
      ensures data == "" <==> old(stream) == ""
    {
      var n := if cuts == [] then bufsize else cuts[0];
      if cuts != [] {
        cuts := cuts[1..];
      }
      n := if n == 0 then 1 else if n > bufsize then bufsize else n;
      n := if n > |stream| then |stream| else n;
      data := stream[..n];
      stream := stream[n..];
      assert data + stream == old(stream);
    }
  }

  /** Where the first line ends, or the length if no line is complete. */
  function LineEnd(s: string): (i: nat)
    ensures i <= |s|
    ensures i + 2 <= |s| || i == |s|
  {
    if |s| < 2 then |s|
    else if s[0] == '\r' && s[1] == '\n' then 0
    else 1 + LineEnd(s[1..])
  }

  predicate HasLine(s: string) {
    LineEnd(s) + 2 <= |s|
  }

  /** A line end is a carriage return and a line feed, and the first such pair. */
  lemma {:induction false} LineEndFirst(s: string)
    ensures HasLine(s) ==> s[LineEnd(s)] == '\r' && s[LineEnd(s) + 1] == '\n'
    ensures forall k :: 0 <= k < LineEnd(s) && k + 1 < |s| ==> !(s[k] == '\r' && s[k + 1] == '\n')
  {
    if |s| >= 2 && !(s[0] == '\r' && s[1] == '\n') {
      var t := s[1..];
      LineEndFirst(t);
      forall k | 0 <= k < LineEnd(s) && k + 1 < |s| ensures !(s[k] == '\r' && s[k + 1] == '\n') {
        if k > 0 {
          assert s[k] == t[k - 1] && s[k + 1] == t[k];
        }
      }
    }
  }

  /** The first line end is determined by its two bytes and there being none before. */
  lemma LineEndIs(s: string, i: nat)
    requires i + 2 <= |s| && s[i] == '\r' && s[i + 1] == '\n'
    requires forall k :: 0 <= k < i ==> !(s[k] == '\r' && s[k + 1] == '\n')
    ensures LineEnd(s) == i
  {
    hide LineEnd;
    LineEndFirst(s);
  }

  /** More bytes after a complete line do not move its end. */
  lemma LineEndPrefix(s: string, t: string)
    requires HasLine(s)
    ensures LineEnd(s + t) == LineEnd(s)
  {
    LineEndFirst(s);
    LineEndIs(s + t, LineEnd(s));
  }

  class Host {
    var socket: Socket?
    var buffer: string
    var dead: bool

    constructor (s: Socket)
      ensures socket == s && buffer == "" && !dead
    {
      socket, buffer, dead := s, "", false;
    }

    /** The bytes not given out yet: those in the buffer and those still to come. */
    function Unread(): string
      reads this, socket
    {
      buffer + if socket == null then "" else socket.stream
    }

    method MarkDead()
      modifies this
      ensures dead && socket == null && buffer == old(buffer)
    {
      dead := true;
      socket := null;
    }

    /** The next line: what it is depends on the unread bytes alone, not on how they arrive. */
    method ReadLine() returns (r: Option<string>)
      modifies this, socket
      ensures r.Some? <==> HasLine(old(Unread()))
      ensures r.Some? ==> r.value == old(Unread())[..LineEnd(old(Unread()))]
      ensures r.Some? ==> Unread() == old(Unread())[LineEnd(old(Unread())) + 2..]
      ensures r.Some? ==> socket == old(socket) && dead == old(dead)
      ensures r.None? ==> dead && socket == null && buffer == old(buffer)
    {
      hide LineEnd;
      ghost var all := Unread();
      var buf := buffer;
      while !HasLine(buf)
        invariant buffer == old(buffer) && dead == old(dead) && socket == old(socket)
        invariant buf + (if socket == null then "" else socket.stream) == all
        decreases if socket == null then 0 else |socket.stream|
      {
        var data := "";
        if socket != null {
          data := socket.Recv(4096);
        }
        if data == "" {
          assert buf == all;
          MarkDead();
          return None;
        }
        buf := buf + data;
      }
      var index := LineEnd(buf);
      LineEndPrefix(buf, if socket == null then "" else socket.stream);
      buffer := buf[index + 2..];
      assert Unread() == all[index + 2..];
      return Some(buf[..index]);
    }

    /** A block of so many bytes, on a live connection. */
    method Recv(rlen: nat) returns (r: Option<string>)
      requires socket != null
      modifies this, socket
      ensures r.Some? <==> |old(Unread())| >= rlen
      ensures r.Some? ==> r.value == old(Unread())[..rlen] && Unread() == old(Unread())[rlen..]
      ensures socket == old(socket) && dead == old(dead)
      ensures r.None? ==> buffer == old(buffer)
    {
      ghost var all := Unread();
      var buf := buffer;
      while |buf| < rlen
        invariant buffer == old(buffer) && dead == old(dead) && socket == old(socket)
        invariant buf + socket.stream == all
        decreases |socket.stream|
      {
        var foo := socket.Recv(if rlen - |buf| > 4096 then rlen - |buf| else 4096);
        buf := buf + foo;
        if foo == "" { return None; }
      }
      buffer := buf[rlen..];
      assert Unread() == all[rlen..];
      return Some(buf[..rlen]);
    }
  }

  /** A client's reads, and what they give on a stream, by the stream alone. */
  datatype Read = Line | Block(n: nat)

  datatype Outcome = Outcome(results: seq<string>, rest: string, ok: bool)

  function Result(op: Read, s: string): Option<(string, string)> {
    match op
    case Line => if HasLine(s) then Some((s[..LineEnd(s)], s[LineEnd(s) + 2..])) else None
    case Block(n) => if |s| >= n then Some((s[..n], s[n..])) else None
  }

  function Results(ops: seq<Read>, s: string): Outcome {
    if ops == [] then Outcome([], s, true)
    else
      var r := Result(ops[0], s);
      if r.None? then Outcome([], s, false)
      else
        var o := Results(ops[1..], r.value.1);
        Outcome([r.value.0] + o.results, o.rest, o.ok)
  }

  method ReadOne(h: Host, op: Read) returns (r: Option<string>)
    requires h.socket != null
    modifies h, h.socket
    ensures var u := Result(op, old(h.Unread()));
      && (r.Some? <==> u.Some?)
      && (r.Some? ==> r.value == u.value.0 && h.Unread() == u.value.1 && h.socket == old(h.socket))
  {
    hide LineEnd;
    match op {
      case Line => r := h.ReadLine();
      case Block(n) => r := h.Recv(n);
    }
  }

  /** Any mix of reads on a live connection gives the results of the stream, however it was cut. */
  method ReadAll(h: Host, ops: seq<Read>) returns (results: seq<string>, ok: bool)
    requires h.socket != null
    modifies h, h.socket
    ensures results == Results(ops, old(h.Unread())).results && ok == Results(ops, old(h.Unread())).ok
    ensures ok ==> h.Unread() == Results(ops, old(h.Unread())).rest && h.socket == old(h.socket)
    decreases |ops|
  {
    hide Result;
    if ops == [] { return [], true; }
    var r := ReadOne(h, ops[0]);
    if r.None? { return [], false; }
    var more;
    more, ok := ReadAll(h, ops[1..]);
    results := [r.value] + more;
  }

  /** The bytes that a read takes from the stream. */
  function Taken(op: Read, result: string): string {
    if op.Line? then result + "\r\n" else result
  }

  function AllTaken(ops: seq<Read>, results: seq<string>): string
    requires |ops| == |results|
  {
    if ops == [] then "" else Taken(ops[0], results[0]) + AllTaken(ops[1..], results[1..])
  }

  lemma TakenOne(op: Read, s: string)
    requires Result(op, s).Some?
    ensures var r := Result(op, s).value;
      Taken(op, r.0) + r.1 == s
  {
    LineEndFirst(s);
    hide LineEnd;
  }

  lemma Regroup(a: string, b: string, c: string, s: string, t: string)
    requires b + c == t && a + t == s
    ensures a + b + c == s
  {
    assert a + b + c == a + (b + c);
  }

  /** Results, line ends and what is left make up the stream again: no byte is lost, doubled or moved. */
  lemma {:induction false} NothingLost(ops: seq<Read>, s: string)
    requires Results(ops, s).ok
    ensures |Results(ops, s).results| == |ops|
    ensures AllTaken(ops, Results(ops, s).results) + Results(ops, s).rest == s
  {
    hide Result, Taken;
    if ops != [] {
      var r := Result(ops[0], s).value;
      NothingLost(ops[1..], r.1);
      TakenOne(ops[0], s);
      var o := Results(ops[1..], r.1);
      var all := Results(ops, s).results;
      assert all == [r.0] + o.results && all[1..] == o.results;
      Regroup(Taken(ops[0], r.0), AllTaken(ops[1..], o.results), o.rest, s, r.1);
    }
  }
}

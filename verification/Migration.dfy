/** The user migration pipeline: the main thread batches the users, workers send the batches to the
    import service, and a writer puts the replies back into the order of the input.  The threads
    share two queues; every interleaving of their steps is a run of this transition system. */
module Migration {
  import opened Options

  type Id = string

  datatype User = User(id: Id, username: string)

  /** The service's answer for one user: its error, which may count as false, and its other fields. */
  datatype Value = Value(text: string, truthy: bool)
  datatype Reply = Reply(error: Option<Value>, rest: map<string, string>)

  /** An empty answer counts as none. */
  predicate IsEmpty(r: Reply) {
    r.error.None? && r.rest == map[]
  }

  /** An error that counts as false is not written. */
  function Cleaned(r: Reply): Reply
    requires r.error.Some?
  {
    if r.error.value.truthy then r else r.(error := None)
  }

  type Batch = seq<User>
  type Answer = map<Id, Reply>

  const BATCH := 20

  datatype Token = Name(username: string) | Colon | Body(reply: Reply) | Comma | Newline

  /** The input, what the service answers for each user, and the number of workers. */
  datatype Config = Config(users: seq<User>, reply: Id -> Reply, workers: nat)

  datatype State = State(
    read: nat, current: Batch, flushed: bool,
    q: seq<Batch>, working: seq<Option<Batch>>,
    writeQ: seq<Answer>, results: Answer, start: nat, output: seq<Token>, crashed: bool)

  datatype Step =
    | Read
    | Flush
    | Take(worker: nat)
    | Finish(worker: nat)
    | Write

  function Init(c: Config): State {
    State(0, [], false, [], seq(c.workers, _ => None), [], map[], 0, [], false)
  }

  predicate Enabled(c: Config, s: State, step: Step) {
    match step
    case Read => s.read < |c.users|
    case Flush => s.read == |c.users| && !s.flushed
    case Take(w) => w < |s.working| && s.working[w].None? && s.q != []
    case Finish(w) => w < |s.working| && s.working[w].Some?
    case Write => s.start < |c.users| && !s.crashed
  }

  function Answered(c: Config, b: Batch): Answer {
    map u | u in b :: u.id := c.reply(u.id)
  }

  /** The results once a waiting answer is merged in. */
  function Merged(s: State): Answer {
    if s.writeQ == [] then s.results else s.results + s.writeQ[0]
  }

  /** One turn of the writer's loop: a waiting answer is merged in, and if the next user's reply is
      there, it is taken out and written. */
  function Written(c: Config, s: State): State
    requires s.start < |c.users|
  {
    var results := Merged(s);
    var writeQ := if s.writeQ == [] then [] else s.writeQ[1..];
    var user := c.users[s.start];
    if user.id !in results then s.(results := results, writeQ := writeQ)
    else
      var reply := results[user.id];
      var t := s.(results := results - {user.id}, writeQ := writeQ);
      if IsEmpty(reply) then t
      else if reply.error.None? then t.(output := s.output + [Name(user.username), Colon], crashed := true)
      else t.(output := s.output + Entry(c, s.start, reply), start := s.start + 1)
  }

  /** What is written for user k. */
  function Entry(c: Config, k: nat, reply: Reply): seq<Token>
    requires k < |c.users| && reply.error.Some?
  {
    [Name(c.users[k].username), Colon, Body(Cleaned(reply))]
    + if k == |c.users| - 1 then [Newline] else [Comma, Newline]
  }

  function Apply(c: Config, s: State, step: Step): State
    requires Enabled(c, s, step)
  {
    match step
    case Read =>
      var batch := s.current + [c.users[s.read]];
      if |batch| == BATCH then s.(read := s.read + 1, current := [], q := s.q + [batch])
      else s.(read := s.read + 1, current := batch)
    case Flush =>
      if s.current != [] then s.(flushed := true, current := [], q := s.q + [s.current])
      else s.(flushed := true)
    case Take(w) => s.(q := s.q[1..], working := s.working[w := Some(s.q[0])])
    case Finish(w) =>
      s.(working := s.working[w := None], writeQ := s.writeQ + [Answered(c, s.working[w].value)])
    case Write => Written(c, s)
  }

  /** The states of a run, and the steps between them. */
  ghost predicate Run(c: Config, states: seq<State>, steps: seq<Step>) {
    && |states| == |steps| + 1
    && states[0] == Init(c)
    && forall i :: 0 <= i < |steps| ==>
      Enabled(c, states[i], steps[i]) && states[i + 1] == Apply(c, states[i], steps[i])
  }

  // Where the users are: how often an id is found in each place.

  function In(b: Batch, x: Id): nat {
    if b == [] then 0 else (if b[0].id == x then 1 else 0) + In(b[1..], x)
  }

  function InQueue(q: seq<Batch>, x: Id): nat {
    if q == [] then 0 else In(q[0], x) + InQueue(q[1..], x)
  }

  function Held(o: Option<Batch>, x: Id): nat {
    if o.None? then 0 else In(o.value, x)
  }

  function InWorkers(w: seq<Option<Batch>>, x: Id): nat {
    if w == [] then 0 else Held(w[0], x) + InWorkers(w[1..], x)
  }

  function InAnswer(a: Answer, x: Id): nat {
    if x in a then 1 else 0
  }

  function InAnswers(q: seq<Answer>, x: Id): nat {
    if q == [] then 0 else InAnswer(q[0], x) + InAnswers(q[1..], x)
  }

  /** How often an id is found anywhere: not read yet, being batched, queued, with a worker, answered,
      among the results, and written. */
  function Everywhere(c: Config, s: State, x: Id): nat
    requires s.read <= |c.users| && s.start <= |c.users|
  {
    In(c.users[s.read..], x) + In(s.current, x) + InQueue(s.q, x) + InWorkers(s.working, x)
    + InAnswers(s.writeQ, x) + InAnswer(s.results, x) + In(c.users[..s.start], x)
  }

  predicate Distinct(users: seq<User>) {
    forall i, j :: 0 <= i < j < |users| ==> users[i].id != users[j].id
  }

  /** Every reply has an error field, as the service's answers do, and those made up for a failed call. */
  predicate Complete(c: Config) {
    forall u :: u in c.users ==> c.reply(u.id).error.Some?
  }

  /** What is written for the first k users. */
  function Rendered(c: Config, k: nat): seq<Token>
    requires Complete(c) && k <= |c.users|
  {
    if k == 0 then [] else Rendered(c, k - 1) + Entry(c, k - 1, c.reply(c.users[k - 1].id))
  }

  predicate FromService(c: Config, a: Answer) {
    forall i :: i in a ==> a[i] == c.reply(i)
  }

  /** Replies come from the service, whatever they are. */
  ghost predicate Honest(c: Config, s: State) {
    && s.read <= |c.users| && s.start <= |c.users|
    && (forall i :: 0 <= i < |s.writeQ| ==> FromService(c, s.writeQ[i]))
    && FromService(c, s.results)
  }

  /** No user is lost or doubled, and the output is that of the users before the next one. */
  ghost predicate Inv(c: Config, s: State)
    requires Complete(c)
  {
    && Honest(c, s)
    && (forall x :: Everywhere(c, s, x) == In(c.users, x))
    && !s.crashed && s.output == Rendered(c, s.start)
    && |s.working| == c.workers && |s.current| < BATCH
    && (s.flushed ==> s.read == |c.users| && s.current == [])
  }

  lemma {:induction false} InAppend(a: Batch, b: Batch, x: Id)
    ensures In(a + b, x) == In(a, x) + In(b, x)
  {
    if a == [] {
      assert a + b == b;
    } else {
      assert (a + b)[1..] == a[1..] + b;
      InAppend(a[1..], b, x);
    }
  }

  lemma {:induction false} InQueueAppend(q: seq<Batch>, b: Batch, x: Id)
    ensures InQueue(q + [b], x) == InQueue(q, x) + In(b, x)
  {
    if q == [] {
      assert q + [b] == [b];
    } else {
      assert (q + [b])[1..] == q[1..] + [b];
      InQueueAppend(q[1..], b, x);
    }
  }

  lemma {:induction false} InAnswersAppend(q: seq<Answer>, a: Answer, x: Id)
    ensures InAnswers(q + [a], x) == InAnswers(q, x) + InAnswer(a, x)
  {
    if q == [] {
      assert q + [a] == [a];
    } else {
      assert (q + [a])[1..] == q[1..] + [a];
      InAnswersAppend(q[1..], a, x);
    }
  }

  lemma {:induction false} InWorkersUpdate(w: seq<Option<Batch>>, i: nat, o: Option<Batch>, x: Id)
    requires i < |w|
    ensures InWorkers(w[i := o], x) + Held(w[i], x) == InWorkers(w, x) + Held(o, x)
  {
    var v := w[i := o];
    if i == 0 {
      assert v[1..] == w[1..];
    } else {
      assert v[1..] == w[1..][i - 1 := o] && v[0] == w[0];
      InWorkersUpdate(w[1..], i - 1, o, x);
    }
  }

  lemma {:induction false} InMember(b: Batch, x: Id)
    ensures In(b, x) > 0 <==> exists u :: u in b && u.id == x
  {
    if b != [] {
      InMember(b[1..], x);
      assert forall u :: u in b <==> u == b[0] || u in b[1..];
    }
  }

  /** Distinct users are found once. */
  lemma {:induction false} DistinctOnce(b: Batch, x: Id)
    requires Distinct(b)
    ensures In(b, x) <= 1
  {
    if b != [] {
      DistinctOnce(b[1..], x);
      InMember(b[1..], b[0].id);
    }
  }

  /** The keys of an answer are the users of its batch, if each is there once. */
  lemma AnsweredOnce(c: Config, b: Batch, x: Id)
    requires In(b, x) <= 1
    ensures InAnswer(Answered(c, b), x) == In(b, x)
  {
    InMember(b, x);
  }

  lemma SplitUsers(users: seq<User>, k: nat, x: Id)
    requires k < |users|
    ensures In(users[k..], x) == In([users[k]], x) + In(users[k + 1..], x)
    ensures In(users[..k + 1], x) == In(users[..k], x) + In([users[k]], x)
    ensures In([users[k]], x) == if users[k].id == x then 1 else 0
  {
    assert users[k..] == [users[k]] + users[k + 1..];
    assert users[..k + 1] == users[..k] + [users[k]];
    InAppend([users[k]], users[k + 1..], x);
    InAppend(users[..k], [users[k]], x);
    assert In([users[k]], x) == (if users[k].id == x then 1 else 0) + In([], x);
  }

  lemma Nothing(x: Id)
    ensures In([], x) == 0 && Held(None, x) == 0 && InQueue([], x) == 0 && InAnswers([], x) == 0
  {
  }

  lemma ReadKeeps(c: Config, s: State)
    requires Complete(c) && Inv(c, s) && Enabled(c, s, Read)
    ensures Inv(c, Apply(c, s, Read))
  {
    hide In, InQueue, InWorkers, InAnswers, InAnswer, Rendered, Complete, FromService;
    var u := c.users[s.read];
    var t := Apply(c, s, Read);
    forall x ensures Everywhere(c, t, x) == In(c.users, x) {
      assert Everywhere(c, s, x) == In(c.users, x);
      SplitUsers(c.users, s.read, x);
      InAppend(s.current, [u], x);
      InQueueAppend(s.q, s.current + [u], x);
      Nothing(x);
    }
  }

  lemma FlushKeeps(c: Config, s: State)
    requires Complete(c) && Inv(c, s) && Enabled(c, s, Flush)
    ensures Inv(c, Apply(c, s, Flush))
  {
    hide In, InQueue, InWorkers, InAnswers, InAnswer, Rendered, Complete, FromService;
    var t := Apply(c, s, Flush);
    forall x ensures Everywhere(c, t, x) == In(c.users, x) {
      assert Everywhere(c, s, x) == In(c.users, x);
      InQueueAppend(s.q, s.current, x);
      Nothing(x);
    }
  }

  lemma TakeKeeps(c: Config, s: State, w: nat)
    requires Complete(c) && Inv(c, s) && Enabled(c, s, Take(w))
    ensures Inv(c, Apply(c, s, Take(w)))
  {
    hide In, InWorkers, InAnswers, InAnswer, Rendered, Complete, FromService;
    var t := Apply(c, s, Take(w));
    forall x ensures Everywhere(c, t, x) == In(c.users, x) {
      assert Everywhere(c, s, x) == In(c.users, x);
      InWorkersUpdate(s.working, w, Some(s.q[0]), x);
    }
  }

  lemma {:induction false} HeldBelow(w: seq<Option<Batch>>, i: nat, x: Id)
    requires i < |w|
    ensures Held(w[i], x) <= InWorkers(w, x)
  {
    if i > 0 {
      HeldBelow(w[1..], i - 1, x);
    }
  }

  lemma FinishKeeps(c: Config, s: State, w: nat)
    requires Complete(c) && Distinct(c.users) && Inv(c, s) && Enabled(c, s, Finish(w))
    ensures Inv(c, Apply(c, s, Finish(w)))
  {
    hide In, InQueue, InWorkers, InAnswers, InAnswer, Rendered, Complete;
    var b := s.working[w].value;
    var t := Apply(c, s, Finish(w));
    forall x ensures Everywhere(c, t, x) == In(c.users, x) {
      assert Everywhere(c, s, x) == In(c.users, x);
      DistinctOnce(c.users, x);
      HeldBelow(s.working, w, x);
      AnsweredOnce(c, b, x);
      InAnswersAppend(s.writeQ, Answered(c, b), x);
      InWorkersUpdate(s.working, w, None, x);
    }
  }

  /** Merging an answer into the results keeps every id once. */
  lemma MergeKeeps(c: Config, s: State)
    requires Complete(c) && Distinct(c.users) && Inv(c, s) && s.writeQ != []
    ensures Inv(c, s.(writeQ := s.writeQ[1..], results := s.results + s.writeQ[0]))
  {
    hide In, InQueue, InWorkers, Rendered, Complete;
    var t := s.(writeQ := s.writeQ[1..], results := s.results + s.writeQ[0]);
    forall x ensures Everywhere(c, t, x) == In(c.users, x) {
      assert Everywhere(c, s, x) == In(c.users, x);
      DistinctOnce(c.users, x);
    }
  }

  /** Writing the next user moves it from the results to the output. */
  lemma EntryKeeps(c: Config, s: State, t: State)
    requires Complete(c) && Inv(c, s) && s.start < |c.users| && c.users[s.start].id in s.results
    requires var k := c.users[s.start].id;
      c.reply(k).error.Some? ==>
        t == s.(results := s.results - {k}, output := s.output + Entry(c, s.start, c.reply(k)), start := s.start + 1)
    ensures var k := c.users[s.start].id;
      s.results[k] == c.reply(k) && c.reply(k).error.Some? && Inv(c, t)
  {
    assert c.users[s.start] in c.users;
    var k := c.users[s.start].id;
    assert c.reply(k).error.Some?;
    RenderedMore(c, s.start);
    hide In, InQueue, InWorkers, InAnswers, InAnswer, Entry, Complete, Rendered;
    forall x ensures Everywhere(c, t, x) == In(c.users, x) {
      assert Everywhere(c, s, x) == In(c.users, x);
      SplitUsers(c.users, s.start, x);
      TakenOut(s.results, k, x);
    }
  }

  lemma TakenOut(a: Answer, k: Id, x: Id)
    requires k in a
    ensures InAnswer(a, x) == InAnswer(a - {k}, x) + if k == x then 1 else 0
  {
  }

  lemma RenderedMore(c: Config, k: nat)
    requires Complete(c) && k < |c.users|
    ensures c.users[k] in c.users && c.reply(c.users[k].id).error.Some?
    ensures Rendered(c, k + 1) == Rendered(c, k) + Entry(c, k, c.reply(c.users[k].id))
  {
    assert c.users[k] in c.users;
    hide Entry;
  }

  lemma WriteKeeps(c: Config, s: State)
    requires Complete(c) && Distinct(c.users) && Inv(c, s) && Enabled(c, s, Write)
    ensures Inv(c, Apply(c, s, Write))
  {
    hide Inv, Complete, Entry;
    var t := s;
    if s.writeQ != [] {
      MergeKeeps(c, s);
      t := s.(writeQ := s.writeQ[1..], results := s.results + s.writeQ[0]);
    }
    if c.users[s.start].id in t.results {
      var k := c.users[s.start].id;
      RenderedMore(c, s.start);
      EntryKeeps(c, t,
        t.(results := t.results - {k}, output := t.output + Entry(c, s.start, c.reply(k)), start := s.start + 1));
    }
  }

  /** Every step of every thread keeps the invariant. */
  lemma StepKeeps(c: Config, s: State, step: Step)
    requires Complete(c) && Distinct(c.users) && Inv(c, s) && Enabled(c, s, step)
    ensures Inv(c, Apply(c, s, step))
  {
    hide Inv, Complete, Apply, Enabled;
    match step
    case Read => ReadKeeps(c, s);
    case Flush => FlushKeeps(c, s);
    case Take(w) => TakeKeeps(c, s, w);
    case Finish(w) => FinishKeeps(c, s, w);
    case Write => WriteKeeps(c, s);
  }

  lemma {:induction false} IdleWorkers(n: nat, x: Id)
    ensures InWorkers(seq(n, _ => None), x) == 0
  {
    if n > 0 {
      assert seq(n, _ => Option<Batch>.None)[1..] == seq(n - 1, _ => None);
      IdleWorkers(n - 1, x);
    }
  }

  lemma InitInv(c: Config)
    requires Complete(c)
    ensures Inv(c, Init(c))
  {
    var s := Init(c);
    forall x ensures Everywhere(c, s, x) == In(c.users, x) {
      IdleWorkers(c.workers, x);
      Nothing(x);
      assert c.users[0..] == c.users;
    }
  }

  /** The invariant holds in every state of every run, however the threads interleave. */
  lemma {:induction false} RunInv(c: Config, states: seq<State>, steps: seq<Step>, i: nat)
    requires Complete(c) && Distinct(c.users) && Run(c, states, steps) && i < |states|
    ensures Inv(c, states[i])
  {
    hide Inv, Complete, Apply, Enabled, Init;
    if i == 0 {
      InitInv(c);
    } else {
      RunInv(c, states, steps, i - 1);
      StepKeeps(c, states[i - 1], steps[i - 1]);
      assert states[i - 1 + 1] == Apply(c, states[i - 1], steps[i - 1]);
    }
  }

  lemma InOf(b: Batch, k: nat)
    requires k < |b|
    ensures In(b, b[k].id) >= 1
  {
    InMember(b, b[k].id);
    assert b[k] in b;
  }

  /** At every moment each user is in exactly one place, once. */
  lemma OnePlace(c: Config, states: seq<State>, steps: seq<Step>, i: nat, k: nat)
    requires Complete(c) && Distinct(c.users) && Run(c, states, steps) && i < |states| && k < |c.users|
    ensures states[i].read <= |c.users| && states[i].start <= |c.users|
    ensures Everywhere(c, states[i], c.users[k].id) == 1
  {
    hide Everywhere, Run;
    RunInv(c, states, steps, i);
    DistinctOnce(c.users, c.users[k].id);
    InOf(c.users, k);
  }

  // The text

  /** What stands in the output for user i, from token p on: the name, a colon, the reply without an
      error that counts as false, a comma unless it is the last user, and a new line. */
  ghost predicate TokensFor(c: Config, output: seq<Token>, i: nat, p: nat)
    requires i < |c.users|
  {
    var reply := c.reply(c.users[i].id);
    && p + 4 <= |output| && output[p] == Name(c.users[i].username) && output[p + 1] == Colon
    && output[p + 2].Body? && reply.error.Some?
    && output[p + 2].reply.rest == reply.rest
    && output[p + 2].reply.error == (if reply.error.value.truthy then reply.error else None)
    && if i == |c.users| - 1 then output[p + 3] == Newline
       else p + 5 <= |output| && output[p + 3] == Comma && output[p + 4] == Newline
  }

  /** The text is that of the users in order, five tokens for each and four for the last user of the
      input, and nothing else. */
  lemma {:induction false} RenderedTokens(c: Config, k: nat)
    requires Complete(c) && k <= |c.users|
    ensures |Rendered(c, k)| == if k == |c.users| > 0 then 5 * k - 1 else 5 * k
    ensures forall i :: 0 <= i < k ==> TokensFor(c, Rendered(c, k), i, 5 * i)
  {
    if k > 0 {
      RenderedTokens(c, k - 1);
      var before, now := Rendered(c, k - 1), Rendered(c, k);
      assert c.users[k - 1] in c.users;
      assert now[..|before|] == before;
      hide Rendered;
      forall i | 0 <= i < k ensures TokensFor(c, now, i, 5 * i) {
        if i < k - 1 {
          assert TokensFor(c, before, i, 5 * i);
          TokensStay(c, before, now, i, 5 * i);
        }
      }
    }
  }

  lemma TokensStay(c: Config, before: seq<Token>, now: seq<Token>, i: nat, p: nat)
    requires i < |c.users| && TokensFor(c, before, i, p) && before <= now
    ensures TokensFor(c, now, i, p)
  {
  }

  /** In every run the writer has written the first users of the input, in order, each once, and has
      written them all when it ends. */
  lemma OutputInOrder(c: Config, states: seq<State>, steps: seq<Step>, i: nat)
    requires Complete(c) && Distinct(c.users) && Run(c, states, steps) && i < |states|
    ensures var s := states[i];
      && s.start <= |c.users|
      && |s.output| == (if s.start == |c.users| > 0 then 5 * s.start - 1 else 5 * s.start)
      && forall k :: 0 <= k < s.start ==> TokensFor(c, s.output, k, 5 * k)
  {
    RunInv(c, states, steps, i);
    RenderedTokens(c, states[i].start);
  }

  // Progress

  function Busy(w: seq<Option<Batch>>): nat {
    if w == [] then 0 else (if w[0].Some? then 1 else 0) + Busy(w[1..])
  }

  lemma {:induction false} BusyUpdate(w: seq<Option<Batch>>, i: nat, o: Option<Batch>)
    requires i < |w|
    ensures Busy(w[i := o]) + (if w[i].Some? then 1 else 0) == Busy(w) + (if o.Some? then 1 else 0)
  {
    var v := w[i := o];
    if i == 0 {
      assert v[1..] == w[1..];
    } else {
      assert v[1..] == w[1..][i - 1 := o] && v[0] == w[0];
      BusyUpdate(w[1..], i - 1, o);
    }
  }

  /** The work still to do. */
  function Work(c: Config, s: State): nat
    requires s.read <= |c.users| && s.start <= |c.users|
  {
    4 * (|c.users| - s.read) + (if s.flushed then 0 else 4) + 3 * |s.q| + 2 * Busy(s.working)
    + |s.writeQ| + (|c.users| - s.start)
  }

  /** A step does some of the work or, when the writer finds nothing, changes nothing. */
  lemma StepWorks(c: Config, s: State, step: Step)
    requires Complete(c) && Distinct(c.users) && Inv(c, s) && Enabled(c, s, step)
    ensures Inv(c, Apply(c, s, step))
    ensures Apply(c, s, step) == s || Work(c, Apply(c, s, step)) < Work(c, s)
    ensures Apply(c, s, step) == s ==> step == Write
  {
    StepKeeps(c, s, step);
    hide Everywhere, Rendered, Entry, Answered;
    match step
    case Read =>
    case Flush =>
    case Take(w) => BusyUpdate(s.working, w, Some(s.q[0]));
    case Finish(w) => BusyUpdate(s.working, w, None);
    case Write => assert c.users[s.start] in c.users;
  }

  /** How many of the first i steps of a run changed anything. */
  function Changes(states: seq<State>, i: nat): nat
    requires i < |states|
  {
    if i == 0 then 0 else Changes(states, i - 1) + if states[i] != states[i - 1] then 1 else 0
  }

  lemma {:induction false} AllIdle(n: nat)
    ensures Busy(seq(n, _ => None)) == 0
  {
    if n > 0 {
      assert seq(n, _ => Option<Batch>.None)[1..] == seq(n - 1, _ => None);
      AllIdle(n - 1);
    }
  }

  /** In every run, of any length, the threads together take at most five steps a user and four more
      that change anything; all others are turns of the writer that find nothing. */
  lemma {:induction false} ChangesBounded(c: Config, states: seq<State>, steps: seq<Step>, i: nat)
    requires Complete(c) && Distinct(c.users) && Run(c, states, steps) && i < |states|
    ensures states[i].read <= |c.users| && states[i].start <= |c.users|
    ensures Changes(states, i) + Work(c, states[i]) <= 5 * |c.users| + 4
  {
    RunInv(c, states, steps, i);
    hide Inv, Complete, Apply, Enabled;
    if i == 0 {
      AllIdle(c.workers);
    } else {
      hide Work;
      ChangesBounded(c, states, steps, i - 1);
      RunInv(c, states, steps, i - 1);
      StepWorks(c, states[i - 1], steps[i - 1]);
      assert states[i - 1 + 1] == Apply(c, states[i - 1], steps[i - 1]);
    }
  }

  /** The workers have finished. */
  predicate AllAnswered(c: Config, s: State) {
    s.read == |c.users| && s.flushed && s.q == [] && forall w :: 0 <= w < |s.working| ==> s.working[w].None?
  }

  lemma {:induction false} NoneBusy(w: seq<Option<Batch>>, x: Id)
    requires forall i :: 0 <= i < |w| ==> w[i].None?
    ensures InWorkers(w, x) == 0
  {
    if w != [] {
      NoneBusy(w[1..], x);
    }
  }

  /** Once the workers have finished, no turn of the writer is idle, */
  lemma WriterWorks(c: Config, s: State)
    requires Complete(c) && Distinct(c.users) && Inv(c, s) && AllAnswered(c, s) && s.start < |c.users|
    ensures Inv(c, Apply(c, s, Write)) && AllAnswered(c, Apply(c, s, Write))
    ensures Work(c, Apply(c, s, Write)) < Work(c, s)
  {
    var x := c.users[s.start].id;
    if s.writeQ == [] {
      InOf(c.users, s.start);
      assert Everywhere(c, s, x) == In(c.users, x);
      NoneBusy(s.working, x);
      WrittenBefore(c, s.start);
      Nothing(x);
    }
    hide Everywhere, In, InWorkers, Rendered;
    StepWorks(c, s, Write);
  }

  /** A user is not among those before it. */
  lemma WrittenBefore(c: Config, k: nat)
    requires Distinct(c.users) && k < |c.users|
    ensures In(c.users[..k], c.users[k].id) == 0
  {
    InMember(c.users[..k], c.users[k].id);
  }

  function Turns(c: Config, s: State, n: nat): State
    decreases n
  {
    if n == 0 || s.start >= |c.users| || s.crashed then s else Turns(c, Written(c, s), n - 1)
  }

  /** so it ends within as many turns as there are waiting answers and unwritten users. */
  lemma {:induction false} WriterEnds(c: Config, s: State, n: nat)
    requires Complete(c) && Distinct(c.users) && Inv(c, s) && AllAnswered(c, s)
    requires n >= |s.writeQ| + |c.users| - s.start
    ensures Turns(c, s, n).start == |c.users|
    decreases n
  {
    hide Everywhere, Rendered, Complete, Distinct;
    if s.start < |c.users| {
      WriterWorks(c, s);
      WriterEnds(c, Apply(c, s, Write), n - 1);
    }
  }

  /** Until everything is written some thread can do work: the pipeline never deadlocks. */
  lemma SomeoneWorks(c: Config, s: State) returns (step: Step)
    requires Complete(c) && Distinct(c.users) && Inv(c, s) && c.workers > 0 && s.start < |c.users|
    ensures Enabled(c, s, step) && Inv(c, Apply(c, s, step))
    ensures Work(c, Apply(c, s, step)) < Work(c, s)
  {
    hide Everywhere, Rendered, Work, Apply, Complete, Distinct;
    if s.read < |c.users| {
      step := Read;
    } else if !s.flushed {
      step := Flush;
    } else if exists w :: 0 <= w < |s.working| && s.working[w].Some? {
      var w :| 0 <= w < |s.working| && s.working[w].Some?;
      step := Finish(w);
    } else if s.q != [] {
      step := Take(0);
    } else {
      step := Write;
      WriterWorks(c, s);
    }
    if step != Write {
      StepWorks(c, s, step);
    }
  }

  /** From every state of a run the pipeline can go on to the end. */
  lemma {:induction false} RunOn(c: Config, states: seq<State>, steps: seq<Step>)
    returns (more: seq<State>, others: seq<Step>)
    requires Complete(c) && Distinct(c.users) && c.workers > 0 && Run(c, states, steps)
    requires Inv(c, states[|steps|])
    ensures Run(c, states + more, steps + others) && (states + more)[|steps + others|].start == |c.users|
    decreases Work(c, states[|steps|])
  {
    hide Everywhere, Rendered, Work, Apply, Enabled, Complete, Distinct, Init;
    var s := states[|steps|];
    if s.start == |c.users| {
      more, others := [], [];
      assert states + more == states && steps + others == steps;
    } else {
      var step := SomeoneWorks(c, s);
      var t := Apply(c, s, step);
      more, others := RunOn(c, states + [t], steps + [step]);
      assert states + [t] + more == states + ([t] + more);
      assert steps + [step] + others == steps + ([step] + others);
      more, others := [t] + more, [step] + others;
    }
  }

  // Replies without an error field

  lemma StepHonest(c: Config, s: State, step: Step)
    requires Honest(c, s) && Enabled(c, s, step)
    ensures Honest(c, Apply(c, s, step))
    ensures var t := Apply(c, s, step);
      t.start > s.start ==> t.start == s.start + 1 && c.reply(c.users[s.start].id).error.Some?
  {
    hide Entry, Written;
    if step == Write {
      WriteHonest(c, s);
    }
  }

  lemma MergeHonest(c: Config, s: State, i: Id)
    requires Honest(c, s)
    ensures FromService(c, Merged(s)) && FromService(c, Merged(s) - {i})
    ensures s.writeQ != [] ==> forall k :: 0 <= k < |s.writeQ[1..]| ==> FromService(c, s.writeQ[1..][k])
  {
    if s.writeQ != [] {
      assert FromService(c, s.writeQ[0]);
    }
  }

  lemma WriteHonest(c: Config, s: State)
    requires Honest(c, s) && s.start < |c.users|
    ensures Honest(c, Written(c, s))
    ensures Written(c, s).start > s.start ==>
      Written(c, s).start == s.start + 1 && c.reply(c.users[s.start].id).error.Some?
  {
    var i := c.users[s.start].id;
    MergeHonest(c, s, i);
    assert i in Merged(s) ==> Merged(s)[i] == c.reply(i);
    hide Entry, FromService;
  }

  /** The writer never gets past a user whose reply has no error field: it waits for ever on an empty
      reply, and stops on any other. */
  lemma {:induction false} StuckAt(c: Config, states: seq<State>, steps: seq<Step>, i: nat, k: nat)
    requires Run(c, states, steps) && i < |states| && k < |c.users| && c.reply(c.users[k].id).error.None?
    ensures Honest(c, states[i]) && states[i].start <= k
  {
    hide Apply, Enabled;
    if i > 0 {
      StuckAt(c, states, steps, i - 1, k);
      StepHonest(c, states[i - 1], steps[i - 1]);
      assert states[i - 1 + 1] == Apply(c, states[i - 1], steps[i - 1]);
    }
  }

  /** The migration of distinct users can end if and only if every reply has an error field. */
  ghost predicate CanEnd(c: Config) {
    exists states: seq<State>, steps: seq<Step> :: Run(c, states, steps) && states[|steps|].start == |c.users|
  }

  lemma EndsOnlyIf(c: Config)
    requires CanEnd(c)
    ensures Complete(c)
  {
    hide Init, Apply, Enabled;
    var states: seq<State>, steps: seq<Step> :| Run(c, states, steps) && states[|steps|].start == |c.users|;
    forall u | u in c.users ensures c.reply(u.id).error.Some? {
      var k :| 0 <= k < |c.users| && c.users[k] == u;
      if c.reply(u.id).error.None? {
        StuckAt(c, states, steps, |steps|, k);
      }
    }
  }

  lemma EndsIff(c: Config)
    requires Distinct(c.users) && c.workers > 0
    ensures CanEnd(c) <==> Complete(c)
  {
    hide Run, Distinct, Complete;
    if CanEnd(c) {
      EndsOnlyIf(c);
    }
    if Complete(c) {
      InitInv(c);
      FirstState(c);
      var more, others := RunOn(c, [Init(c)], []);
      assert Run(c, [Init(c)] + more, [] + others);
    }
  }

  lemma FirstState(c: Config)
    ensures Run(c, [Init(c)], [])
  {
  }
}

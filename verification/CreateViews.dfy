/** Replacing a database's design document in stages, on a server others may write to at any moment.
    Each step of the script is one request; stopping after any step is a crash. */
module CreateViews {
  import opened ViewDiff
  import opened Options

  /** The live document and the two temporary ones. */
  datatype Name = Live | Old | New

  datatype Doc = Doc(rev: nat, body: Body)

  /** The server: the documents that exist, and a revision above every one it has given out. */
  datatype Server = Server(docs: map<Name, Doc>, next: nat)

  datatype Response = NotFound | Conflict | Done(server: Server)

  /** Writes a document over the revision named, or a new one when none is. */
  function Put(s: Server, n: Name, rev: Option<nat>, body: Body): Response {
    if (if n in s.docs then Some(s.docs[n].rev) else None) == rev
    then Done(Server(s.docs[n := Doc(s.next, body)], s.next + 1)) else Conflict
  }

  function Delete(s: Server, n: Name, rev: nat): Response {
    if n in s.docs && s.docs[n].rev == rev then Done(Server(s.docs - {n}, s.next + 1)) else Conflict
  }

  /** Copies a document to a name where there is none. */
  function Copy(s: Server, from: Name, to: Name): Response {
    if from !in s.docs then NotFound else Put(s, to, None, s.docs[from].body)
  }

  datatype Stage =
    | Reading | Saving | Fetching | Staging | Refetching | Querying | Publishing | Dropping | Clearing
    | Finished | Failed

  /** The script's variables: the body and revision read, the request, and the temporary documents. */
  datatype Script = Script(stage: Stage, request: Body, rev: Option<nat>, noView: bool,
                           saved: Option<Doc>, staged: Option<Doc>)

  /** The definitions wanted, whether differences are ignored, whether the first read fails with some
      other error, and whether the text of a conflict happens to contain the digits 404. */
  datatype Config = Config(wanted: Wanted, ignore: bool, unreadable: bool, misread: bool)

  const START := Script(Reading, Blank(), None, false, None, None)

  function ReadBody(c: Config, s: Server): Body {
    if Live in s.docs && !c.unreadable then s.docs[Live].body else Blank()
  }

  function Fail(p: Script): Script {
    p.(stage := Failed)
  }

  /** The request has views, but none whose index could be queried: looking up the first one raises an
      exception. */
  predicate EmptyViews(b: Body) {
    b.views == Some(map[])
  }

  /** One request of the script. */
  function Next(c: Config, p: Script, s: Server): (Script, Server) {
    match p.stage
    case Reading =>
      var plan := Planned(ReadBody(c, s), c.wanted, c.ignore);
      if plan.Refused? then (Fail(p), s)
      else if plan.Nothing? then (p.(stage := Finished), s)
      else
        var rev := if Live in s.docs && !c.unreadable then Some(s.docs[Live].rev) else None;
        (p.(stage := Saving, request := plan.body, rev := rev), s)
    case Saving =>
      (match Copy(s, Live, Old)
       case NotFound => (p.(stage := Staging, noView := true), s)
       case Conflict => if c.misread then (p.(stage := Staging, noView := true), s) else (Fail(p), s)
       case Done(t) => (p.(stage := Fetching), t))
    case Fetching =>
      if Old in s.docs then (p.(stage := Staging, saved := Some(s.docs[Old])), s)
      else (p.(stage := Staging, noView := true), s)
    case Staging =>
      (match Put(s, New, None, p.request)
       case Done(t) => (p.(stage := Refetching), t)
       case _ => (Fail(p), s))
    case Refetching =>
      if New in s.docs then (p.(stage := Querying, staged := Some(s.docs[New])), s) else (Fail(p), s)
    case Querying => if EmptyViews(p.request) then (Fail(p), s) else (p.(stage := Publishing), s)
    case Publishing => Publish(p, s)
    case Dropping =>
      if p.noView then (p.(stage := Clearing), s)
      else if p.saved.None? then (Fail(p), s)
      else
        (match Delete(s, Old, p.saved.value.rev)
         case Done(t) => (p.(stage := Clearing), t)
         case _ => (Fail(p), s))
    case Clearing =>
      if p.staged.None? then (Fail(p), s)
      else
        (match Delete(s, New, p.staged.value.rev)
         case Done(t) => (p.(stage := Finished), t)
         case _ => (Fail(p), s))
    case Finished => (p, s)
    case Failed => (p, s)
  }

  /** The one request that touches the live document: over the revision first read, which is an error
      when none was, or as a copy when there was no document. */
  function Publish(p: Script, s: Server): (Script, Server) {
    if p.staged.None? || (!p.noView && p.rev.None?) then (Fail(p), s)
    else
      match if p.noView then Copy(s, New, Live) else Put(s, Live, p.rev, p.staged.value.body)
      case Done(t) => (p.(stage := Dropping), t)
      case _ => (Fail(p), s)
  }

  /** What others may do between two steps: write or delete the live document, any number of times.
      A document they write has a new revision. */
  predicate Others(s: Server, t: Server) {
    && t.next >= s.next
    && (forall n :: n != Live ==> (n in t.docs <==> n in s.docs))
    && (forall n :: n != Live && n in s.docs ==> t.docs[n] == s.docs[n])
    && (Live in t.docs ==> (Live in s.docs && t.docs[Live] == s.docs[Live]) || s.next <= t.docs[Live].rev < t.next)
  }

  predicate Sound(s: Server) {
    forall n :: n in s.docs ==> s.docs[n].rev < s.next
  }

  /** A run: before each step of the script, others have changed the server from `before` to `at`. */
  datatype Moment = Moment(script: Script, before: Server, at: Server)

  ghost predicate Run(c: Config, initial: Server, run: seq<Moment>) {
    && Sound(initial) && run != []
    && run[0].script == START && run[0].before == initial
    && (forall i :: 0 <= i < |run| ==> Others(run[i].before, run[i].at))
    && (forall i :: 0 < i < |run| ==> (run[i].script, run[i].before) == Next(c, run[i - 1].script, run[i - 1].at))
  }

  /** Nobody else writes. */
  ghost predicate Alone(run: seq<Moment>) {
    forall i :: 0 <= i < |run| ==> run[i].at == run[i].before
  }

  /** What was read at the start of a run, if anything. */
  function Seen(c: Config, run: seq<Moment>): Option<Doc>
    requires run != []
  {
    var s := run[0].at;
    if Live in s.docs && !c.unreadable then Some(s.docs[Live]) else None
  }

  /** What the script knows: the revision it holds is that of the document it read, and wherever that
      revision is still there, so is that document. */
  predicate Knows(seen: Option<Doc>, p: Script, s: Server) {
    && Sound(s)
    && (p.stage != Reading && p.rev.Some? ==> seen.Some? && seen.value.rev == p.rev.value)
    && (seen.Some? ==> seen.value.rev < s.next)
    && (seen.Some? && Live in s.docs && s.docs[Live].rev == seen.value.rev ==> s.docs[Live] == seen.value)
    && (p.stage == Refetching ==> New in s.docs && s.docs[New].body == p.request)
    && (p.stage in {Querying, Publishing} ==>
          p.staged.Some? && New in s.docs && s.docs[New] == p.staged.value && p.staged.value.body == p.request)
    && (p.stage == Dropping || p.stage == Clearing ==> p.staged.Some? && New in s.docs && s.docs[New] == p.staged.value)
    && (p.stage in {Staging, Refetching, Querying, Publishing, Dropping} && !p.noView ==>
          p.saved.Some? && Old in s.docs && s.docs[Old] == p.saved.value)
    && (p.stage == Fetching ==> Old in s.docs)
  }

  lemma NextKnows(c: Config, seen: Option<Doc>, p: Script, s: Server)
    requires Knows(seen, p, s) && p.stage != Reading
    ensures Knows(seen, Next(c, p, s).0, Next(c, p, s).1)
  {
    hide Planned;
  }

  lemma OthersKnow(seen: Option<Doc>, p: Script, s: Server, t: Server)
    requires Knows(seen, p, s) && Others(s, t) && p.stage != Reading
    ensures Knows(seen, p, t)
  {
  }

  lemma ReadingKnows(c: Config, p: Script, s: Server)
    requires p == START && Sound(s)
    ensures var seen := if Live in s.docs && !c.unreadable then Some(s.docs[Live]) else None;
      Knows(seen, Next(c, p, s).0, Next(c, p, s).1)
  {
    hide Planned;
  }

  /** Through every run, in every state before and after others' writes. */
  lemma {:induction false} RunKnows(c: Config, initial: Server, run: seq<Moment>, i: nat)
    requires Run(c, initial, run) && 0 < i < |run|
    ensures Knows(Seen(c, run), run[i].script, run[i].before)
    ensures Knows(Seen(c, run), run[i].script, run[i].at)
    ensures run[i].script.stage != Reading
  {
    hide Next, Knows, Others;
    var m := run[i - 1];
    assert (run[i].script, run[i].before) == Next(c, m.script, m.at);
    if i == 1 {
      FirstSound(run[0].before, run[0].at);
      ReadingKnows(c, m.script, m.at);
      NotReading(c, m.script, m.at);
    } else {
      RunKnows(c, initial, run, i - 1);
      NextKnows(c, Seen(c, run), m.script, m.at);
      NotReading(c, m.script, m.at);
    }
    OthersKnow(Seen(c, run), run[i].script, run[i].before, run[i].at);
  }

  lemma FirstSound(s: Server, t: Server)
    requires Sound(s) && Others(s, t)
    ensures Sound(t)
  {
  }

  lemma NotReading(c: Config, p: Script, s: Server)
    ensures Next(c, p, s).0.stage != Reading
  {
    hide Planned;
  }

  function LiveIn(s: Server): Option<Doc> {
    if Live in s.docs then Some(s.docs[Live]) else None
  }

  /** The script changes the live document in one step only, over exactly the document it first read or
      where there is none, and makes it the whole request: what others have written is not overwritten,
      and the document is never taken away. */
  lemma ChangesOnlyWhatWasRead(c: Config, initial: Server, run: seq<Moment>, i: nat)
    requires Run(c, initial, run) && i < |run|
    ensures var m := run[i];
      var after := Next(c, m.script, m.at).1;
      LiveIn(after) != LiveIn(m.at) ==>
        && m.script.stage == Publishing
        && (Live in m.at.docs ==> Seen(c, run) == Some(m.at.docs[Live]))
        && Live in after.docs && after.docs[Live].body == m.script.request
  {
    hide Planned;
    if i > 0 {
      RunKnows(c, initial, run, i);
    }
  }

  /** The plan of a run, from what its first step read. */
  function PlanOf(c: Config, run: seq<Moment>): Plan
    requires run != []
  {
    Planned(ReadBody(c, run[0].at), c.wanted, c.ignore)
  }

  /** It is the plan for the live document as it was then; when there was none, or it could not be read,
      for an empty one in JavaScript. */
  lemma PlanFromRead(c: Config, run: seq<Moment>)
    requires run != []
    ensures var s := run[0].at;
      var read := if Live in s.docs && !c.unreadable then s.docs[Live].body else Body(None, None, "javascript");
      IsPlan(PlanOf(c, run), read, c.wanted, c.ignore)
  {
    hide Planned, IsPlan;
    PlannedIs(ReadBody(c, run[0].at), c.wanted, c.ignore);
  }

  lemma {:induction false} SameRequest(c: Config, initial: Server, run: seq<Moment>, i: nat)
    requires Run(c, initial, run) && 0 < i < |run| && PlanOf(c, run).Request?
    ensures run[i].script.request == PlanOf(c, run).body
  {
    hide Planned, Others;
    assert (run[i].script, run[i].before) == Next(c, run[i - 1].script, run[i - 1].at);
    if i > 1 {
      SameRequest(c, initial, run, i - 1);
      NotReadingAt(c, initial, run, i - 1);
    }
  }

  lemma NotReadingAt(c: Config, initial: Server, run: seq<Moment>, i: nat)
    requires Run(c, initial, run) && 0 < i < |run|
    ensures run[i].script.stage != Reading
  {
    hide Next, Others;
    assert (run[i].script, run[i].before) == Next(c, run[i - 1].script, run[i - 1].at);
    NotReading(c, run[i - 1].script, run[i - 1].at);
  }

  /** With nobody else writing, at every crash point the live document is the one there was or the whole
      new one, and never missing if there was one. */
  lemma {:induction false} OldOrNew(c: Config, initial: Server, run: seq<Moment>, i: nat)
    requires Run(c, initial, run) && Alone(run) && i < |run|
    ensures LiveIn(run[i].before) == LiveIn(initial) ||
      (PlanOf(c, run).Request? && Live in run[i].before.docs && run[i].before.docs[Live].body == PlanOf(c, run).body)
  {
    hide Next, Planned, Others;
    if i > 0 {
      OldOrNew(c, initial, run, i - 1);
      var m := run[i - 1];
      assert (run[i].script, run[i].before) == Next(c, m.script, m.at);
      ChangesOnlyWhatWasRead(c, initial, run, i - 1);
      if LiveIn(run[i].before) != LiveIn(m.at) {
        RequestAtPublish(c, initial, run, i - 1);
      }
    }
  }

  lemma RequestAtPublish(c: Config, initial: Server, run: seq<Moment>, i: nat)
    requires Run(c, initial, run) && i < |run| && run[i].script.stage == Publishing
    ensures PlanOf(c, run).Request? && run[i].script.request == PlanOf(c, run).body
  {
    hide Planned, Others, Next;
    Going(c, initial, run, i);
    SameRequest(c, initial, run, i);
  }

  /** Only a request is carried out. */
  lemma {:induction false} Going(c: Config, initial: Server, run: seq<Moment>, i: nat)
    requires Run(c, initial, run) && i < |run|
    ensures run[i].script.stage !in {Reading, Finished, Failed} ==> PlanOf(c, run).Request?
    ensures i > 0 ==> run[i].script.stage != Reading
  {
    hide Planned, Others;
    if i > 0 {
      Going(c, initial, run, i - 1);
      assert (run[i].script, run[i].before) == Next(c, run[i - 1].script, run[i - 1].at);
    }
  }

  /** The temporary documents are gone once the script has dropped them. */
  predicate Tidied(p: Script, s: Server) {
    && (p.stage == Finished ==> New !in s.docs)
    && (p.stage in {Clearing, Finished} && !p.noView ==> Old !in s.docs)
  }

  lemma NextTidied(c: Config, p: Script, s: Server)
    requires Tidied(p, s) && p.stage != Reading
    ensures Tidied(Next(c, p, s).0, Next(c, p, s).1)
  {
    hide Planned;
  }

  /** A run that has carried a request to the end leaves neither temporary document, except that one
      named like the saved copy stays if the script took there to be no live document. */
  lemma {:induction false} Cleared(c: Config, initial: Server, run: seq<Moment>, i: nat)
    requires Run(c, initial, run) && i < |run| && PlanOf(c, run).Request?
    ensures Tidied(run[i].script, run[i].before) && Tidied(run[i].script, run[i].at)
  {
    hide Planned, Next;
    if i > 0 {
      var m := run[i - 1];
      Cleared(c, initial, run, i - 1);
      Going(c, initial, run, i - 1);
      assert (run[i].script, run[i].before) == Next(c, m.script, m.at);
      if i > 1 {
        NextTidied(c, m.script, m.at);
      } else {
        FirstTidied(c, m.at);
      }
    }
  }

  lemma FirstTidied(c: Config, s: Server)
    requires Planned(ReadBody(c, s), c.wanted, c.ignore).Request?
    ensures Tidied(Next(c, START, s).0, Next(c, START, s).1)
  {
    hide Planned;
  }

  /** What the copy request finds that makes the script take there to be no document: none, or a saved
      copy left behind and a conflict whose text reads like a missing document. */
  predicate CopyMisses(c: Config, s: Server) {
    Live !in s.docs || (Old in s.docs && c.misread)
  }

  lemma CopyNext(c: Config, p: Script, s: Server)
    requires p.stage == Saving && !p.noView
    ensures var q := Next(c, p, s).0;
      || q.stage == Failed
      || (q.stage == Fetching && !CopyMisses(c, s) && !q.noView)
      || (q.stage == Staging && CopyMisses(c, s) && q.noView)
  {
    hide Planned;
  }

  lemma NoViewStays(c: Config, p: Script, s: Server)
    requires p.stage !in {Reading, Saving, Finished, Failed} && (p.stage == Fetching ==> Old in s.docs)
    ensures var q := Next(c, p, s).0;
      q.noView == p.noView && q.stage !in {Reading, Saving}
  {
    hide Planned;
  }

  /** The second request, the copy, decides for the rest of the run. */
  lemma {:induction false} NoViewIff(c: Config, initial: Server, run: seq<Moment>, i: nat)
    requires Run(c, initial, run) && 1 < i < |run| && run[i].script.stage !in {Finished, Failed}
    ensures run[i].script.noView <==> CopyMisses(c, run[1].at)
    ensures run[i].script.stage !in {Reading, Saving}
  {
    hide Planned, Others, Next, CopyMisses;
    var m := run[i - 1];
    assert (run[i].script, run[i].before) == Next(c, m.script, m.at);
    Stays(c, m.script, m.at);
    if i == 2 {
      assert (run[1].script, run[1].before) == Next(c, run[0].script, run[0].at);
      FirstStage(c, run[0].at);
      CopyNext(c, m.script, m.at);
    } else {
      NoViewIff(c, initial, run, i - 1);
      RunKnows(c, initial, run, i - 1);
      NoViewStays(c, m.script, m.at);
    }
  }

  lemma Stays(c: Config, p: Script, s: Server)
    ensures p.stage in {Finished, Failed} ==> Next(c, p, s).0 == p
  {
    hide Planned;
  }

  lemma FirstStage(c: Config, s: Server)
    ensures var q := Next(c, START, s).0;
      q.stage in {Saving, Finished, Failed} && !q.noView
  {
    hide Planned;
  }

  /** A deletion by others is undone by the script if and only if the copy request, on the server as it
      was then, found no document or was taken to have found none. */
  lemma DeletionUndoneIff(c: Config, initial: Server, run: seq<Moment>, i: nat)
    requires Run(c, initial, run) && i < |run| && run[i].script.stage == Publishing
    requires Live !in run[i].at.docs
    ensures i > 1
    ensures Live in Next(c, run[i].script, run[i].at).1.docs <==> CopyMisses(c, run[1].at)
  {
    hide Planned, Others, CopyMisses;
    PublishingLate(c, initial, run, i);
    RunKnows(c, initial, run, i);
    NoViewIff(c, initial, run, i);
  }

  lemma PublishingLate(c: Config, initial: Server, run: seq<Moment>, i: nat)
    requires Run(c, initial, run) && i < |run| && run[i].script.stage == Publishing
    ensures i > 1
  {
    hide Planned, Others, Next;
    if i == 1 {
      assert (run[1].script, run[1].before) == Next(c, run[0].script, run[0].at);
      FirstStage(c, run[0].at);
    }
  }

  /** The script alone, for n steps. */
  function Solo(c: Config, p: Script, s: Server, n: nat): (Script, Server)
    decreases n
  {
    if n == 0 then (p, s) else var (q, t) := Next(c, p, s); Solo(c, q, t, n - 1)
  }

  lemma SoloStep(c: Config, p: Script, s: Server, n: nat)
    requires n > 0
    ensures Solo(c, p, s, n) == Solo(c, Next(c, p, s).0, Next(c, p, s).1, n - 1)
  {
    hide Next;
  }

  lemma {:induction false} SoloStays(c: Config, p: Script, s: Server, n: nat)
    requires p.stage == Finished || p.stage == Failed
    ensures Solo(c, p, s, n) == (p, s)
    decreases n
  {
    if n > 0 {
      SoloStays(c, p, s, n - 1);
    }
  }

  /** From the staging step on, with no staged document in the way, the script alone comes to the end,
      unless the live document is not the one read or the request has an empty set of views. */
  lemma SoloStaging(c: Config, p: Script, s: Server)
    requires p.stage == Staging && New !in s.docs
    requires !p.noView ==> p.saved.Some? && Old in s.docs && s.docs[Old] == p.saved.value && Live in s.docs
    ensures var (q, t) := Solo(c, p, s, 6);
      && (q.stage == Finished || q.stage == Failed)
      && (q.stage == Finished <==> !EmptyViews(p.request) && Publishable(p, s))
      && (q.stage != Finished ==> LiveIn(t) == LiveIn(s) && New in t.docs && (!p.noView ==> Old in t.docs))
      && (q.stage == Finished ==> Live in t.docs && t.docs[Live].body == p.request && New !in t.docs)
      && (q.stage == Finished ==> (Old in t.docs <==> p.noView && Old in s.docs))
  {
    hide Planned, Solo;
    var (p1, s1) := Next(c, p, s);
    SoloStep(c, p, s, 6);
    var (p2, s2) := Next(c, p1, s1);
    SoloStep(c, p1, s1, 5);
    var (p3, s3) := Next(c, p2, s2);
    SoloStep(c, p2, s2, 4);
    if p3.stage == Failed {
      SoloStays(c, p3, s3, 3);
    } else {
      SoloPublishing(c, p3, s3);
    }
  }

  predicate Publishable(p: Script, s: Server) {
    if p.noView then Live !in s.docs else Live in s.docs && p.rev == Some(s.docs[Live].rev)
  }

  lemma SoloPublishing(c: Config, p: Script, s: Server)
    requires p.stage == Publishing && p.staged.Some? && New in s.docs && s.docs[New] == p.staged.value
    requires !p.noView ==> p.saved.Some? && Old in s.docs && s.docs[Old] == p.saved.value && Live in s.docs
    ensures var (q, t) := Solo(c, p, s, 3);
      && (q.stage == Finished || q.stage == Failed)
      && (q.stage == Finished <==> Publishable(p, s))
      && (q.stage != Finished ==> LiveIn(t) == LiveIn(s) && New in t.docs && (!p.noView ==> Old in t.docs))
      && (q.stage == Finished ==> Live in t.docs && t.docs[Live].body == p.staged.value.body && New !in t.docs)
      && (q.stage == Finished ==> (Old in t.docs <==> p.noView && Old in s.docs))
  {
    hide Planned, Solo;
    var (p1, s1) := Next(c, p, s);
    SoloStep(c, p, s, 3);
    if p1.stage == Failed {
      SoloStays(c, p1, s1, 2);
    } else {
      var (p2, s2) := Next(c, p1, s1);
      SoloStep(c, p1, s1, 2);
      var (p3, s3) := Next(c, p2, s2);
      SoloStep(c, p2, s2, 1);
      SoloStays(c, p3, s3, 0);
    }
  }

  /** No temporary document was left behind where the script needs the name, and the first read worked
      if there was a document. */
  predicate Unblocked(c: Config, s: Server) {
    New !in s.docs && (Live in s.docs ==> Old !in s.docs && !c.unreadable)
  }

  /** The script alone, asked to change something, comes to the end if and only if no temporary document
      blocks it, the first read worked if there was a document, and the request has no empty set of
      views. */
  lemma CompletesIff(c: Config, s: Server)
    requires Planned(ReadBody(c, s), c.wanted, c.ignore).Request?
    ensures var (q, t) := Solo(c, START, s, 9);
      var body := Planned(ReadBody(c, s), c.wanted, c.ignore).body;
      && (q.stage == Finished <==> Unblocked(c, s) && !EmptyViews(body))
      && (q.stage == Finished ==> Live in t.docs && New !in t.docs && (Live in s.docs ==> Old !in t.docs))
      && (q.stage == Finished ==> t.docs[Live].body == body)
      && (q.stage != Finished ==> LiveIn(t) == LiveIn(s))
      && (Unblocked(c, s) && q.stage != Finished ==>
            q.stage == Failed && New in t.docs && (Live in s.docs ==> Old in t.docs))
  {
    hide Planned, Solo;
    var (p1, s1) := Next(c, START, s);
    SoloStep(c, START, s, 9);
    var (p2, s2) := Next(c, p1, s1);
    SoloStep(c, p1, s1, 8);
    if p2.stage == Failed {
      SoloStays(c, p2, s2, 7);
    } else if p2.stage == Staging {
      SoloStarted(c, p2, s2);
    } else {
      var (p3, s3) := Next(c, p2, s2);
      SoloStep(c, p2, s2, 7);
      if New !in s3.docs {
        SoloStaging(c, p3, s3);
      } else {
        SoloBlocked(c, p3, s3, 6);
      }
    }
  }

  lemma SoloBlocked(c: Config, p: Script, s: Server, n: nat)
    requires p.stage == Staging && New in s.docs && n > 0
    ensures Solo(c, p, s, n) == (Fail(p), s)
  {
    hide Solo;
    SoloStep(c, p, s, n);
    SoloStays(c, Fail(p), s, n - 1);
  }

  /** Taking there to be no document, one step is saved. */
  lemma SoloStarted(c: Config, p: Script, s: Server)
    requires p.stage == Staging && p.noView
    ensures var (q, t) := Solo(c, p, s, 7);
      && (q.stage == Finished || q.stage == Failed)
      && (q.stage == Finished <==> New !in s.docs && Live !in s.docs && !EmptyViews(p.request))
      && (q.stage != Finished ==> LiveIn(t) == LiveIn(s) && New in t.docs)
      && (q.stage == Finished ==> Live in t.docs && t.docs[Live].body == p.request && New !in t.docs)
  {
    hide Solo, Next;
    if New in s.docs {
      SoloBlocked(c, p, s, 7);
    } else {
      SoloStaging(c, p, s);
      SoloMore(c, p, s, 6);
    }
  }

  lemma {:induction false} SoloMore(c: Config, p: Script, s: Server, n: nat)
    requires Solo(c, p, s, n).0.stage == Finished || Solo(c, p, s, n).0.stage == Failed
    ensures Solo(c, p, s, n + 1) == Solo(c, p, s, n)
    decreases n
  {
    if n == 0 {
      SoloStays(c, p, s, 1);
    } else {
      SoloMore(c, Next(c, p, s).0, Next(c, p, s).1, n - 1);
    }
  }

  /** What the empty set of views comes from: the document read, if no views are wanted, and otherwise
      wanting none where there are none or differences are ignored. */
  lemma EmptyRequestIff(read: Body, w: Wanted, ignore: bool)
    requires Planned(read, w, ignore).Request?
    ensures EmptyViews(Planned(read, w, ignore).body) <==>
      if w.views.None? then read.views == Some(map[])
      else w.views.value == map[] && (ignore || Known(read.views) == map[])
  {
    if w.views.Some? {
      var m := Merged(read.views, w.views.value, ignore);
      assert m.Keys == if ignore then w.views.value.Keys else w.views.value.Keys + Known(read.views).Keys;
      assert m == map[] <==> m.Keys == {};
      assert w.views.value == map[] <==> w.views.value.Keys == {};
      assert Known(read.views) == map[] <==> Known(read.views).Keys == {};
    }
  }

  /** A request with an empty set of views is never carried out: the script leaves its temporary
      documents behind, and with them every later run fails as well. */
  lemma EmptyViewsBlock(c: Config, s: Server)
    requires Planned(ReadBody(c, s), c.wanted, c.ignore).Request?
    requires EmptyViews(Planned(ReadBody(c, s), c.wanted, c.ignore).body) && Unblocked(c, s)
    ensures var (q, t) := Solo(c, START, s, 9);
      && q.stage == Failed && LiveIn(t) == LiveIn(s)
      && New in t.docs && (Live in s.docs ==> Old in t.docs)
      && Solo(c, START, t, 9).0.stage != Finished && LiveIn(Solo(c, START, t, 9).1) == LiveIn(s)
  {
    hide Planned, Solo;
    CompletesIff(c, s);
    CompletesIff(c, Solo(c, START, s, 9).1);
  }

  lemma WitnessPlan()
    ensures Planned(Body(Some(map[]), None, ""), Wanted(None, Some(map["i" := "x"])), false)
      == Request(Body(Some(map[]), Some(map["i" := "x"]), ""))
  {
    assert "i" in map["i" := "x"] && "i" !in Known(None);
  }

  /** Such a run: an index is to be added to a document whose set of views is empty. */
  lemma EmptyViewsWitness()
    ensures var c := Config(Wanted(None, Some(map["i" := "x"])), false, false, false);
      var s := Server(map[Live := Doc(0, Body(Some(map[]), None, ""))], 1);
      var (q, t) := Solo(c, START, s, 9);
      && Planned(ReadBody(c, s), c.wanted, c.ignore) == Request(Body(Some(map[]), Some(map["i" := "x"]), ""))
      && Unblocked(c, s) && q.stage == Failed && LiveIn(t) == LiveIn(s) && New in t.docs && Old in t.docs
  {
    var c := Config(Wanted(None, Some(map["i" := "x"])), false, false, false);
    var s := Server(map[Live := Doc(0, Body(Some(map[]), None, ""))], 1);
    WitnessPlan();
    hide Solo, Planned;
    EmptyViewsBlock(c, s);
  }

  /** When others delete the document right after the first read, the script puts it back, unless its
      request has an empty set of views. */
  lemma DeletionUndone(c: Config, s: Server, gone: Server)
    requires Live in s.docs && Planned(ReadBody(c, s), c.wanted, c.ignore).Request?
    requires Sound(s) && gone == Server(s.docs - {Live}, s.next + 1) && New !in s.docs
    ensures Others(s, gone)
    ensures var p := Next(c, START, s).0;
      var (q, t) := Solo(c, p, gone, 8);
      && (q.stage == Finished <==> !EmptyViews(Planned(ReadBody(c, s), c.wanted, c.ignore).body))
      && (Live in t.docs <==> q.stage == Finished)
  {
    hide Planned, Solo;
    var p := Next(c, START, s).0;
    SoloStep(c, p, gone, 8);
    SoloStarted(c, Next(c, p, gone).0, gone);
  }
}

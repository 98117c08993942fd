/** The difference between the views on a server and those wanted, and what is requested from it. */
module ViewDiff {
  import opened Options

  type Views = map<string, string>

  datatype Change = Change(before: string, after: string)

  /** The actions; an empty one is left out of the result, which has then fewer entries. */
  datatype Diff = Diff(create: Views, update: map<string, Change>, delete: Views) {
    predicate IsEmpty() {
      create == map[] && update == map[] && delete == map[]
    }
  }

  function Known(existing: Option<Views>): Views {
    if existing.Some? then existing.value else map[]
  }

  /** What the difference is: every name falls under one action or is the same on both sides. */
  ghost predicate IsDiff(d: Diff, existing: Views, wanted: Views) {
    && (forall k :: k in d.create <==> k in wanted && k !in existing)
    && (forall k :: k in d.update <==> k in wanted && k in existing && wanted[k] != existing[k])
    && (forall k :: k in d.delete <==> k in existing && k !in wanted)
    && (forall k :: k in d.create ==> d.create[k] == wanted[k])
    && (forall k :: k in d.update ==> d.update[k] == Change(existing[k], wanted[k]))
    && (forall k :: k in d.delete ==> d.delete[k] == existing[k])
  }

  /** Carrying a difference out. */
  function Patched(existing: Views, d: Diff): Views {
    map k | k in existing.Keys + d.create.Keys && k !in d.delete ::
      if k in d.create then d.create[k] else if k in d.update then d.update[k].after else existing[k]
  }

  /** Carried out on the existing views, the difference gives exactly those wanted; it is empty if and
      only if nothing differs; and it is the only one. */
  lemma DiffPatches(d: Diff, existing: Views, wanted: Views)
    requires IsDiff(d, existing, wanted)
    ensures Patched(existing, d) == wanted
    ensures d.IsEmpty() <==> existing == wanted
  {
    var p := Patched(existing, d);
    assert forall k :: k in p <==> k in wanted;
    if d.IsEmpty() {
      assert forall k :: k in existing <==> k in wanted;
    }
    if existing == wanted {
      assert d.create.Keys == {} && d.update.Keys == {} && d.delete.Keys == {};
    }
  }

  lemma DiffUnique(d: Diff, e: Diff, existing: Views, wanted: Views)
    requires IsDiff(d, existing, wanted) && IsDiff(e, existing, wanted)
    ensures d == e
  {
    assert d.create.Keys == e.create.Keys && d.update.Keys == e.update.Keys && d.delete.Keys == e.delete.Keys;
  }

  /** The program's loops over the wanted and over the existing names. */
  method DiffView(existing: Option<Views>, wanted: Option<Views>) returns (d: Diff)
    requires existing.Some? ==> wanted.Some?
    ensures IsDiff(d, Known(existing), Known(wanted))
  {
    var create, update, delete: Views := map[], map[], map[];
    if wanted.Some? {
      var items := wanted.value.Keys;
      while items != {}
        invariant items <= wanted.value.Keys
        invariant forall k :: k in create <==> k in wanted.value && k !in items && k !in Known(existing)
        invariant forall k :: k in update <==>
          k in wanted.value && k !in items && k in Known(existing) && wanted.value[k] != Known(existing)[k]
        invariant forall k :: k in create ==> create[k] == wanted.value[k]
        invariant forall k :: k in update ==> update[k] == Change(Known(existing)[k], wanted.value[k])
      {
        var key :| key in items;
        if existing.Some? && key in existing.value {
          if wanted.value[key] != existing.value[key] {
            update := update[key := Change(existing.value[key], wanted.value[key])];
          }
        } else {
          create := create[key := wanted.value[key]];
        }
        items := items - {key};
      }
    }
    if existing.Some? {
      delete := map k | k in existing.value && k !in wanted.value :: existing.value[k];
    }
    d := Diff(create, update, delete);
  }

  /** A design document without its identity: its two kinds of definitions and the rest. */
  datatype Body = Body(views: Option<Views>, indexes: Option<Views>, rest: string)

  /** The definitions wanted for a database. */
  datatype Wanted = Wanted(views: Option<Views>, indexes: Option<Views>)

  datatype Plan = Refused | Nothing | Request(body: Body)

  /** The document before any was read. */
  function Blank(): Body {
    Body(None, None, "javascript")
  }

  function Differs(existing: Option<Views>, wanted: Views): bool {
    Known(existing) != wanted
  }

  predicate Updates(existing: Option<Views>, wanted: Views) {
    exists k :: k in wanted && k in Known(existing) && wanted[k] != Known(existing)[k]
  }

  predicate Deletes(existing: Option<Views>, wanted: Views) {
    exists k :: k in Known(existing) && k !in wanted
  }

  /** Views on the server and not wanted are kept unless differences are to be ignored. */
  function Merged(existing: Option<Views>, wanted: Views, ignore: bool): Views {
    if ignore then wanted
    else map k | k in wanted.Keys + Known(existing).Keys :: if k in wanted then wanted[k] else Known(existing)[k]
  }

  /** What is requested, given what was read. */
  function Planned(read: Body, w: Wanted, ignore: bool): Plan {
    if w.views.Some? && !ignore && Updates(read.views, w.views.value) then Refused
    else if w.indexes.Some? && !ignore && Deletes(read.indexes, w.indexes.value) then Refused
    else
      var views := if w.views.Some? then Some(Merged(read.views, w.views.value, ignore)) else read.views;
      var indexes := if w.indexes.Some? then w.indexes else read.indexes;
      if (w.views.Some? && Differs(read.views, w.views.value))
         || (w.indexes.Some? && Differs(read.indexes, w.indexes.value))
      then Request(Body(views, indexes, read.rest)) else Nothing
  }

  /** The views to request: none if one would change without the flag. */
  method RequestViews(existing: Option<Views>, wanted: Views, ignore: bool) returns (r: Option<Views>, differs: bool)
    ensures r.None? <==> !ignore && Updates(existing, wanted)
    ensures r.Some? ==> r.value == Merged(existing, wanted, ignore)
    ensures differs == Differs(existing, wanted)
  {
    var d := DiffView(existing, Some(wanted));
    DiffPatches(d, Known(existing), wanted);
    differs := !d.IsEmpty();
    if d.update != map[] && !ignore {
      var k :| k in d.update;
      assert Updates(existing, wanted);
      return None, differs;
    }
    r := Some(wanted);
    if d.delete != map[] && !ignore {
      r := Some(wanted + d.delete);
    }
  }

  method RequestIndexes(existing: Option<Views>, wanted: Views, ignore: bool) returns (ok: bool, differs: bool)
    ensures ok <==> ignore || !Deletes(existing, wanted)
    ensures differs == Differs(existing, wanted)
  {
    var d := DiffView(existing, Some(wanted));
    DiffPatches(d, Known(existing), wanted);
    differs := !d.IsEmpty();
    ok := ignore || d.delete == map[];
    if !ok {
      var k :| k in d.delete;
      assert Deletes(existing, wanted);
    }
  }

  /** When a plan is refused, when there is nothing to do, and what is requested otherwise. */
  ghost predicate IsPlan(p: Plan, read: Body, w: Wanted, ignore: bool) {
    var updates := exists k :: k in Known(w.views) && k in Known(read.views) && Known(w.views)[k] != Known(read.views)[k];
    var deletes := w.indexes.Some? && exists k :: k in Known(read.indexes) && k !in w.indexes.value;
    var same := (w.views.Some? ==> w.views.value == Known(read.views))
             && (w.indexes.Some? ==> w.indexes.value == Known(read.indexes));
    && (p.Refused? <==> !ignore && (updates || deletes))
    && (p.Nothing? <==> !p.Refused? && same)
    && (p.Request? ==>
          && p.body.rest == read.rest
          && p.body.indexes == (if w.indexes.Some? then w.indexes else read.indexes)
          && (w.views.None? ==> p.body.views == read.views)
          && (w.views.Some? ==> p.body.views.Some? && forall k ::
                && (k in w.views.value ==> k in p.body.views.value && p.body.views.value[k] == w.views.value[k])
                && (k !in w.views.value ==>
                      (k in p.body.views.value <==> !ignore && k in Known(read.views)) &&
                      (k in p.body.views.value ==> p.body.views.value[k] == Known(read.views)[k]))))
  }

  lemma PlannedIs(read: Body, w: Wanted, ignore: bool)
    ensures IsPlan(Planned(read, w, ignore), read, w, ignore)
  {
  }

  /** There is only one such plan. */
  lemma PlanUnique(p: Plan, q: Plan, read: Body, w: Wanted, ignore: bool)
    requires IsPlan(p, read, w, ignore) && IsPlan(q, read, w, ignore)
    ensures p == q
  {
    if p.Request? && w.views.Some? {
      var m, n := p.body.views.value, q.body.views.value;
      assert forall k :: k in m <==> k in n;
      assert m == n;
    }
  }

  /** The program's computation of the request; the kept views are put into the definition too. */
  method MakeRequest(read: Body, w: Wanted, ignore: bool) returns (p: Plan, after: Wanted)
    ensures p == Planned(read, w, ignore)
    ensures IsPlan(p, read, w, ignore)
    ensures p.Request? && w.views.Some? ==> after.views == p.body.views
    ensures after.indexes == w.indexes
  {
    PlannedIs(read, w, ignore);
    hide Updates, Deletes, Merged, Differs;
    var needPut := false;
    var request := read;
    after := w;
    if w.views.Some? {
      var views, differs := RequestViews(read.views, w.views.value, ignore);
      if views.None? { return Refused, after; }
      after := after.(views := views);
      request := request.(views := views);
      needPut := differs;
    }
    if w.indexes.Some? {
      var ok, differs := RequestIndexes(read.indexes, w.indexes.value, ignore);
      if !ok { return Refused, after; }
      request := request.(indexes := w.indexes);
      needPut := needPut || differs;
    }
    p := if needPut then Request(request) else Nothing;
  }

  /** Without the flag no existing view is changed or dropped and no existing index is dropped, and
      everything wanted is in the request. */
  lemma RequestKeeps(read: Body, w: Wanted, ignore: bool)
    requires Planned(read, w, ignore).Request?
    ensures var b := Planned(read, w, ignore).body;
      && (!ignore ==>
            forall k :: k in Known(read.views) ==> k in Known(b.views) && Known(b.views)[k] == Known(read.views)[k])
      && (!ignore ==> forall k :: k in Known(read.indexes) ==> k in Known(b.indexes))
      && (forall k :: k in Known(w.views) ==> k in Known(b.views) && Known(b.views)[k] == Known(w.views)[k])
      && (w.indexes.Some? ==> b.indexes == w.indexes)
  {
  }

  /** An existing index, though, keeps its definition without the flag if and only if no wanted one
      differs: there is no refusal for that. */
  lemma IndexesKeptIff(read: Body, w: Wanted)
    requires Planned(read, w, false).Request?
    ensures var b := Planned(read, w, false).body;
      (forall k :: k in Known(read.indexes) ==> k in Known(b.indexes) && Known(b.indexes)[k] == Known(read.indexes)[k])
      <==> w.indexes.None? || !Updates(read.indexes, w.indexes.value)
  {
  }

  /** Such a request. */
  lemma IndexChanges()
    ensures var read, w := Body(None, Some(map["i" := "old"]), ""), Wanted(None, Some(map["i" := "new"]));
      Planned(read, w, false) == Request(Body(None, Some(map["i" := "new"]), ""))
  {
    assert "i" in map["i" := "old"] && map["i" := "old"]["i"] != map["i" := "new"]["i"];
  }

  /** Once the request is on the server, asking again changes nothing if and only if no view was kept
      that is not wanted: such a view makes every run write the document again. */
  lemma AgainNothing(read: Body, w: Wanted, ignore: bool)
    requires Planned(read, w, ignore).Request?
    ensures var b := Planned(read, w, ignore).body;
      Planned(b, w, ignore).Nothing? <==> ignore || w.views.None? || !Deletes(read.views, w.views.value)
  {
    var b := Planned(read, w, ignore).body;
    if w.views.Some? {
      var m := Merged(read.views, w.views.value, ignore);
      assert Known(b.views) == m;
      if !ignore && Deletes(read.views, w.views.value) {
        var k :| k in Known(read.views) && k !in w.views.value;
        assert k in m;
      } else {
        assert m == w.views.value;
      }
    }
  }
}

/** Going through a whole database page by page: the cursor of the revision bump, and the purge. */
module Paging {

  /** The keys of a database in the server's order, as ranks above 0; 0 stands for the empty start key. */
  predicate Keys(ids: seq<nat>) {
    (forall i :: 0 <= i < |ids| ==> ids[i] > 0) && forall i, j :: 0 <= i < j < |ids| ==> ids[i] < ids[j]
  }

  /** The server's answer: the first keys from `start` on, no more than the limit. */
  function Page(ids: seq<nat>, start: nat, limit: nat): seq<nat> {
    if ids == [] || limit == 0 then []
    else if ids[0] < start then Page(ids[1..], start, limit)
    else [ids[0]] + Page(ids[1..], start, limit - 1)
  }

  function Flat(batches: seq<seq<nat>>): seq<nat> {
    if batches == [] then [] else Flat(batches[..|batches| - 1]) + batches[|batches| - 1]
  }

  lemma {:induction false} PageSkips(ids: seq<nat>, start: nat, limit: nat, k: nat)
    requires k <= |ids| && limit > 0
    requires forall i :: 0 <= i < k ==> ids[i] < start
    ensures Page(ids, start, limit) == Page(ids[k..], start, limit)
  {
    if k == 0 {
      assert ids[0..] == ids;
    } else {
      PageSkips(ids[1..], start, limit, k - 1);
      assert ids[1..][k - 1..] == ids[k..];
    }
  }

  lemma {:induction false} PageTakes(ids: seq<nat>, start: nat, limit: nat)
    requires forall i :: 0 <= i < |ids| ==> start <= ids[i]
    ensures Page(ids, start, limit) == ids[..if limit < |ids| then limit else |ids|]
  {
    if ids != [] && limit > 0 {
      assert start <= ids[0];
      PageTakes(ids[1..], start, limit - 1);
    }
  }

  lemma PageFrom(ids: seq<nat>, start: nat, limit: nat, k: nat)
    requires Keys(ids) && k <= |ids| && limit > 0
    requires forall i :: 0 <= i < k ==> ids[i] < start
    requires k < |ids| ==> start <= ids[k]
    ensures Page(ids, start, limit) == ids[k..if k + limit < |ids| then k + limit else |ids|]
  {
    PageSkips(ids, start, limit, k);
    KeysFrom(ids, k, start);
    hide Page, Keys;
    PageTakes(ids[k..], start, limit);
  }

  lemma KeysFrom(ids: seq<nat>, k: nat, start: nat)
    requires Keys(ids) && k <= |ids| && (k < |ids| ==> start <= ids[k])
    ensures Keys(ids[k..]) && forall i :: 0 <= i < |ids[k..]| ==> start <= ids[k..][i]
  {
  }

  /** The rows of a page, without the first if the cursor stands on it; the cursor moves to the last. */
  method Collect(rows: seq<nat>, startKey: nat) returns (docs: seq<nat>, next: nat)
    ensures docs == if startKey != 0 && rows != [] then rows[1..] else rows
    ensures next == if docs == [] then startKey else docs[|docs| - 1]
  {
    docs, next := [], startKey;
    var firstRow := startKey != 0;
    for i := 0 to |rows|
      invariant firstRow == (i == 0 && startKey != 0)
      invariant docs == if startKey != 0 && i > 0 then rows[1..i] else rows[..i]
      invariant next == if docs == [] then startKey else docs[|docs| - 1]
    {
      if firstRow {
        firstRow := false;
      } else {
        docs := docs + [rows[i]];
        next := rows[i];
      }
    }
  }

  function Cursor(ids: seq<nat>, done: nat): nat
    requires done <= |ids|
  {
    if done == 0 then 0 else ids[done - 1]
  }

  function Upto(done: nat, batchSize: nat, n: nat): nat {
    var end := if done == 0 then batchSize + 1 else done + batchSize;
    if end < n then end else n
  }

  /** The new rows of a page: those right behind what is done. */
  lemma NewRows(ids: seq<nat>, done: nat, batchSize: nat)
    requires Keys(ids) && done <= |ids|
    ensures var start := Cursor(ids, done);
      var rows := Page(ids, start, batchSize + 1);
      && done <= Upto(done, batchSize, |ids|)
      && (if start != 0 && rows != [] then rows[1..] else rows) == ids[done..Upto(done, batchSize, |ids|)]
  {
    PageFrom(ids, Cursor(ids, done), batchSize + 1, if done == 0 then 0 else done - 1);
  }

  lemma CursorAt(ids: seq<nat>, done: nat)
    requires Keys(ids) && done <= |ids|
    ensures Cursor(ids, done) == 0 <==> done == 0
    ensures done > 0 ==> Cursor(ids, done) == ids[done - 1]
  {
  }

  /** The revision bump posts every document once, in key order, for every number of documents and
      every batch size but 0; with that it would stop after the first document. */
  method BumpRev(ids: seq<nat>, batchSize: nat) returns (posted: seq<seq<nat>>, rowsUpdated: nat)
    requires Keys(ids)
    ensures Flat(posted) == if batchSize > 0 || ids == [] then ids else ids[..1]
    ensures rowsUpdated == |Flat(posted)|
    ensures forall i :: 0 <= i < |posted| ==> 0 < |posted[i]| <= batchSize + 1
  {
    hide *;
    NoneYet(ids);
    var startKey := 0;
    posted, rowsUpdated := [], 0;
    while true
      invariant rowsUpdated <= |ids| && Flat(posted) == ids[..rowsUpdated]
      invariant startKey == Cursor(ids, rowsUpdated)
      invariant batchSize == 0 ==> rowsUpdated <= 1
      invariant forall i :: 0 <= i < |posted| ==> 0 < |posted[i]| <= batchSize + 1
      decreases |ids| - rowsUpdated
    {
      var docs;
      docs, startKey := NextPage(ids, rowsUpdated, startKey, batchSize);
      if |docs| == 0 {
        break;
      }
      Posted(posted, docs);
      posted := posted + [docs];
      rowsUpdated := rowsUpdated + |docs|;
      CursorAt(ids, rowsUpdated);
    }
  }

  lemma NoneYet(ids: seq<nat>)
    ensures Flat([]) == [] && Cursor(ids, 0) == 0
  {
  }

  /** The request for a page and the rows of it that are new. */
  method NextPage(ids: seq<nat>, done: nat, startKey: nat, batchSize: nat) returns (docs: seq<nat>, next: nat)
    requires Keys(ids) && done <= |ids| && startKey == Cursor(ids, done)
    ensures docs != [] ==> next == docs[|docs| - 1]
    ensures |docs| <= |ids| - done && docs == ids[done..done + |docs|]
    ensures ids[..done + |docs|] == ids[..done] + docs
    ensures |docs| <= batchSize + 1 && (batchSize == 0 ==> done + |docs| <= 1 || docs == [])
    ensures docs == [] && (batchSize > 0 || done == 0) ==> done == |ids|
  {
    NewRows(ids, done, batchSize);
    CursorAt(ids, done);
    hide Keys, Page, Cursor;
    var rows := Page(ids, startKey, batchSize + 1);
    docs, next := Collect(rows, startKey);
  }

  lemma Posted(posted: seq<seq<nat>>, docs: seq<nat>)
    ensures Flat(posted + [docs]) == Flat(posted) + docs
  {
    assert (posted + [docs])[..|posted|] == posted;
  }

  /** The database without the documents that a bulk request marks as deleted. */
  function Without(ids: seq<nat>, gone: seq<nat>): seq<nat> {
    if ids == [] then []
    else if ids[0] in gone then Without(ids[1..], gone)
    else [ids[0]] + Without(ids[1..], gone)
  }

  lemma {:induction false} WithoutNone(ids: seq<nat>, gone: seq<nat>)
    requires forall i :: 0 <= i < |ids| ==> ids[i] !in gone
    ensures Without(ids, gone) == ids
  {
    if ids != [] {
      assert ids[0] !in gone;
      WithoutNone(ids[1..], gone);
    }
  }

  lemma {:induction false} WithoutFront(ids: seq<nat>, gone: seq<nat>, k: nat)
    requires k <= |ids|
    requires forall i :: 0 <= i < k ==> ids[i] in gone
    requires forall i :: k <= i < |ids| ==> ids[i] !in gone
    ensures Without(ids, gone) == ids[k..]
  {
    if k == 0 {
      WithoutNone(ids, gone);
    } else {
      assert ids[0] in gone;
      WithoutFront(ids[1..], gone, k - 1);
    }
  }

  /** A database on the server. */
  class Database {
    var ids: seq<nat>

    /** The first documents, no more than the limit. */
    method AllDocs(limit: nat) returns (rows: seq<nat>)
      ensures rows == Page(ids, 0, limit)
    {
      rows := Page(ids, 0, limit);
    }

    method BulkDelete(docs: seq<nat>)
      modifies this
      ensures ids == Without(old(ids), docs)
    {
      ids := Without(ids, docs);
    }

    /** Deletes a page of documents at a time until a page comes back empty.  Every document is deleted
        once, in key order, and none is left; every batch but the last is a full page. */
    method Purge(limit: nat) returns (batches: seq<seq<nat>>)
      requires Keys(ids) && limit > 0
      modifies this
      ensures ids == [] && Flat(batches) == old(ids)
      ensures forall i :: 0 <= i < |batches| ==> 0 < |batches[i]| <= limit
      ensures forall i :: 0 <= i < |batches| - 1 ==> |batches[i]| == limit
    {
      hide Keys, Page, Without, Flat;
      batches := [];
      NoneYet([]);
      while true
        invariant Keys(ids) && Flat(batches) + ids == old(ids)
        invariant forall i :: 0 <= i < |batches| ==> 0 < |batches[i]| <= limit
        invariant forall i :: 0 <= i < |batches| - 1 ==> |batches[i]| == limit
        invariant ids != [] && batches != [] ==> |batches[|batches| - 1]| == limit
        decreases |ids|
      {
        var docs := AllDocs(limit);
        FrontPage(ids, limit);
        if |docs| == 0 {
          break;
        }
        Posted(batches, docs);
        Regrouped(Flat(batches), docs, ids, old(ids));
        batches := batches + [docs];
        BulkDelete(docs);
      }
    }
  }

  lemma Regrouped(done: seq<nat>, docs: seq<nat>, ids: seq<nat>, all: seq<nat>)
    requires done + ids == all && |docs| <= |ids| && docs == ids[..|docs|]
    ensures done + docs + ids[|docs|..] == all
  {
    assert ids == docs + ids[|docs|..];
  }

  /** The first page, and what is left without it. */
  lemma FrontPage(ids: seq<nat>, limit: nat)
    requires Keys(ids) && limit > 0
    ensures var docs := Page(ids, 0, limit);
      && |docs| <= |ids| && docs == ids[..|docs|] && |docs| <= limit && (|docs| < limit ==> |docs| == |ids|)
      && Without(ids, docs) == ids[|docs|..] && Keys(ids[|docs|..])
  {
    PageFrom(ids, 0, limit, 0);
    var docs := Page(ids, 0, limit);
    KeysFrom(ids, |docs|, 0);
    FrontApart(ids, |docs|);
    hide Page, Keys;
    WithoutFront(ids, docs, |docs|);
  }

  lemma FrontApart(ids: seq<nat>, k: nat)
    requires Keys(ids) && k <= |ids|
    ensures forall i :: 0 <= i < k ==> ids[i] in ids[..k]
    ensures forall i :: k <= i < |ids| ==> ids[i] !in ids[..k]
  {
    forall i | 0 <= i < k ensures ids[i] in ids[..k] {
      assert ids[..k][i] == ids[i];
    }
  }
}

/** The collection object: `EdgeCollection` owns the table, the lazily created index and the
    dimension, and changes them row by row. */
module EdgeVectorStore {
  import opened Prelude
  import opened VectorStore
  import opened NearestQuery

  datatype Outcome = Done | EmptyBatch | RaggedBatch | DimensionMismatch

  datatype Hit = Hit(document: string, meta: Meta, distance: real)

  const INITIAL_CAPACITY := 10_000

  function EmptyIndex(dim: nat): Index {
    Index(dim, map[], INITIAL_CAPACITY)
  }

  const RELOADED_CAPACITY := 50_000

  /** A saved index read back: it gets a fixed capacity, unless it holds more than that. */
  function Reloaded(ix: Index): Index {
    if |ix.slots| <= RELOADED_CAPACITY then ix.(maxElements := RELOADED_CAPACITY) else ix
  }

  /** Rows of a batch: as many as the shortest of the four lists. */
  function Zip(ids: seq<string>, documents: seq<string>, metas: seq<Meta>, vecs: seq<Vector>): seq<Item> {
    var n := Min(Min(|ids|, |documents|), Min(|metas|, |vecs|));
    seq(n, i requires 0 <= i < n => Item(ids[i], documents[i], metas[i], vecs[i]))
  }

  function ZipMetas(ids: seq<string>, metas: seq<Meta>): seq<(string, Meta)> {
    var n := Min(|ids|, |metas|);
    seq(n, i requires 0 <= i < n => (ids[i], metas[i]))
  }

  /** A missing or empty metadata list stands for one empty dictionary per id. */
  function MetasOr(metas: seq<Meta>, n: nat): seq<Meta> {
    if metas == [] then seq(n, _ => map[]) else metas
  }

  predicate Uniform(vecs: seq<Vector>) {
    forall i :: 0 <= i < |vecs| ==> |vecs[i]| == |vecs[0]|
  }

  /** The ways a batch can be refused: vectors of unequal length, no vectors at all, or vectors
      that do not fit the index the collection already has. */
  function UpsertOutcome(items: seq<Item>, vecs: seq<Vector>, idx: Option<Index>): Outcome {
    if !Uniform(vecs) then RaggedBatch
    else if vecs == [] then EmptyBatch
    else if items != [] && idx.Some? && |vecs[0]| != idx.value.dim then DimensionMismatch
    else Done
  }

  /** Upserting rows one after the other; rows of the wrong dimension never get this far. */
  ghost function UpsertAll(s: Store, items: seq<Item>): Store {
    if items == [] then s
    else
      var mid := UpsertAll(s, items[..|items| - 1]);
      var it := items[|items| - 1];
      if WithinCapacity(mid.idx) && |it.vec| == mid.idx.dim then UpsertOne(mid, it) else mid
  }

  lemma UpsertAllNext(s: Store, items: seq<Item>, i: nat)
    requires i < |items|
    ensures var mid := UpsertAll(s, items[..i]);
            UpsertAll(s, items[..i + 1])
              == if WithinCapacity(mid.idx) && |items[i].vec| == mid.idx.dim then UpsertOne(mid, items[i]) else mid
  {
    assert items[..i + 1][..i] == items[..i];
  }

  /** The metadata of a stored document is merged; other ids are ignored. */
  ghost function UpdateDocs(docs: map<string, Row>, id: string, meta: Meta): map<string, Row> {
    if id in docs then docs[id := docs[id].(meta := docs[id].meta + meta)] else docs
  }

  ghost function UpdateAll(docs: map<string, Row>, todo: seq<(string, Meta)>): map<string, Row> {
    if todo == [] then docs
    else UpdateDocs(UpdateAll(docs, todo[..|todo| - 1]), todo[|todo| - 1].0, todo[|todo| - 1].1)
  }

  // ------------------------------------------------------------ what a batch means, id by id

  /** Position i is the last of the first n at which the id stands. */
  ghost predicate LastFor(ids: seq<string>, n: nat, i: nat, id: string) {
    i < n <= |ids| && ids[i] == id && forall j :: i < j < n ==> ids[j] != id
  }

  /** Pair i of the first n is the last one for the id that gives the key. */
  ghost predicate LastGiven(ids: seq<string>, metas: seq<Meta>, n: nat, i: nat, id: string, key: string) {
    && i < n <= |ids| && n <= |metas| && ids[i] == id && key in metas[i]
    && forall j :: i < j < n && ids[j] == id ==> key !in metas[j]
  }

  ghost predicate NeverGiven(ids: seq<string>, metas: seq<Meta>, n: nat, id: string, key: string)
    requires n <= |ids| && n <= |metas|
  {
    forall j :: 0 <= j < n && ids[j] == id ==> key !in metas[j]
  }

  /** Nothing but metadata has changed. */
  ghost predicate OnlyMetaChanged(was: map<string, Row>, now: map<string, Row>) {
    && now.Keys == was.Keys
    && forall id :: id in was ==>
         && now[id].document == was[id].document && now[id].embedding == was[id].embedding
         && now[id].hnswId == was[id].hnswId
  }

  /** For every stored id, each key has the value given last, and keys nobody gives keep theirs. */
  ghost predicate MetaMerged(was: map<string, Row>, now: map<string, Row>, ids: seq<string>, metas: seq<Meta>, n: nat)
    requires n <= |ids| && n <= |metas|
  {
    && OnlyMetaChanged(was, now)
    && (forall id, i: nat, key :: id in now && LastGiven(ids, metas, n, i, id, key) ==>
          key in now[id].meta && now[id].meta[key] == metas[i][key])
    && forall id, key :: id in now && NeverGiven(ids, metas, n, id, key) ==>
         && (key in now[id].meta <==> key in was[id].meta)
         && (key in was[id].meta ==> now[id].meta[key] == was[id].meta[key])
  }

  lemma MergeOneMore(was: map<string, Row>, mid: map<string, Row>, ids: seq<string>, metas: seq<Meta>, n: nat)
    requires n < |ids| && n < |metas| && MetaMerged(was, mid, ids, metas, n)
    ensures MetaMerged(was, UpdateDocs(mid, ids[n], metas[n]), ids, metas, n + 1)
  {
    var now := UpdateDocs(mid, ids[n], metas[n]);
    forall id, i: nat, key | id in now && LastGiven(ids, metas, n + 1, i, id, key)
      ensures key in now[id].meta && now[id].meta[key] == metas[i][key]
    {
      if i < n {
        assert LastGiven(ids, metas, n, i, id, key);
      }
    }
    forall id, key | id in now && NeverGiven(ids, metas, n + 1, id, key)
      ensures key in now[id].meta <==> key in was[id].meta
      ensures key in was[id].meta ==> now[id].meta[key] == was[id].meta[key]
    {
      assert NeverGiven(ids, metas, n, id, key);
    }
  }

  lemma {:induction false} UpdateAllMerges(was: map<string, Row>, ids: seq<string>, metas: seq<Meta>, n: nat)
    requires n <= |ids| && n <= |metas|
    ensures MetaMerged(was, UpdateAll(was, ZipMetas(ids[..n], metas[..n])), ids, metas, n)
  {
    if n > 0 {
      hide MetaMerged;
      UpdateAllMerges(was, ids, metas, n - 1);
      var todo := ZipMetas(ids[..n], metas[..n]);
      assert todo[..n - 1] == ZipMetas(ids[..n - 1], metas[..n - 1]);
      MergeOneMore(was, UpdateAll(was, todo[..n - 1]), ids, metas, n - 1);
    } else {
      NothingMerged(was, ids, metas);
    }
  }

  lemma NothingMerged(was: map<string, Row>, ids: seq<string>, metas: seq<Meta>)
    ensures MetaMerged(was, was, ids, metas, 0)
  {
  }

  lemma {:induction false} NoUpdates(docs: map<string, Row>, ids: seq<string>)
    ensures UpdateAll(docs, ZipMetas(ids, MetasOr([], |ids|))) == docs
  {
    if ids != [] {
      var todo := ZipMetas(ids, MetasOr([], |ids|));
      var front := ids[..|ids| - 1];
      NoUpdates(docs, front);
      assert todo[..|todo| - 1] == ZipMetas(front, MetasOr([], |front|));
      assert forall m: Meta :: m + map[] == m;
    }
  }

  /** The operations a batch of metadata updates stands for. */
  function Updates(todo: seq<(string, Meta)>): seq<Op> {
    seq(|todo|, i requires 0 <= i < |todo| => VectorStore.Update(todo[i].0, todo[i].1))
  }

  lemma {:induction false} UpdateAllRefinesPlain(docs: map<string, Row>, todo: seq<(string, Meta)>)
    ensures View(UpdateAll(docs, todo)) == RunPlain(View(docs), Updates(todo))
  {
    if todo != [] {
      UpdateAllRefinesPlain(docs, todo[..|todo| - 1]);
      assert Updates(todo)[..|todo| - 1] == Updates(todo[..|todo| - 1]);
    }
  }

  /** After an upsert each id of the batch shows what was last given for it, and nothing else has
      changed. */
  ghost predicate Upserted(was: map<string, Doc>, now: map<string, Doc>, ids: seq<string>, documents: seq<string>,
                           metas: seq<Meta>, vecs: seq<Vector>, n: nat)
    requires n <= |ids| && n <= |documents| && n <= |metas| && n <= |vecs|
  {
    && (forall i: nat, id :: LastFor(ids, n, i, id) ==>
          id in now && now[id].document == documents[i] && now[id].meta == metas[i] && now[id].embedding == vecs[i])
    && forall id :: NotAmong(ids, n, id) ==> (id in now <==> id in was) && (id in was ==> now[id] == was[id])
  }

  ghost predicate NotAmong(ids: seq<string>, n: nat, id: string)
    requires n <= |ids|
  {
    forall j :: 0 <= j < n ==> ids[j] != id
  }

  lemma UpsertedOneMore(was: map<string, Doc>, mid: map<string, Doc>, ids: seq<string>, documents: seq<string>,
                        metas: seq<Meta>, vecs: seq<Vector>, n: nat)
    requires n < |ids| && n < |documents| && n < |metas| && n < |vecs|
    requires Upserted(was, mid, ids, documents, metas, vecs, n)
    ensures Upserted(was, ApplyPlain(mid, Upsert(Item(ids[n], documents[n], metas[n], vecs[n]))),
                     ids, documents, metas, vecs, n + 1)
  {
    var now := ApplyPlain(mid, Upsert(Item(ids[n], documents[n], metas[n], vecs[n])));
    forall i: nat, id | LastFor(ids, n + 1, i, id)
      ensures id in now && now[id].document == documents[i] && now[id].meta == metas[i] && now[id].embedding == vecs[i]
    {
      if i < n {
        assert LastFor(ids, n, i, id) && id != ids[n];
      }
    }
    forall id | NotAmong(ids, n + 1, id) ensures (id in now <==> id in was) && (id in was ==> now[id] == was[id]) {
      assert ids[n] != id && NotAmong(ids, n, id);
    }
  }

  lemma BatchFront(ids: seq<string>, documents: seq<string>, metas: seq<Meta>, vecs: seq<Vector>, n: nat)
    requires 0 < n <= |ids| && n <= |documents| && n <= |metas| && n <= |vecs|
    ensures var ops := Upserts(Zip(ids[..n], documents[..n], metas[..n], vecs[..n]));
            && |ops| == n && ops[n - 1] == Upsert(Item(ids[n - 1], documents[n - 1], metas[n - 1], vecs[n - 1]))
            && ops[..n - 1] == Upserts(Zip(ids[..n - 1], documents[..n - 1], metas[..n - 1], vecs[..n - 1]))
  {
  }

  lemma {:induction false} UpsertsAreLast(was: map<string, Doc>, ids: seq<string>, documents: seq<string>,
                                          metas: seq<Meta>, vecs: seq<Vector>, n: nat)
    requires n <= |ids| && n <= |documents| && n <= |metas| && n <= |vecs|
    ensures Upserted(was, RunPlain(was, Upserts(Zip(ids[..n], documents[..n], metas[..n], vecs[..n]))),
                     ids, documents, metas, vecs, n)
  {
    if n > 0 {
      hide Upserted, ApplyPlain;
      UpsertsAreLast(was, ids, documents, metas, vecs, n - 1);
      var ops := Upserts(Zip(ids[..n], documents[..n], metas[..n], vecs[..n]));
      BatchFront(ids, documents, metas, vecs, n);
      hide Upserts, Zip;
      UpsertedOneMore(was, RunPlain(was, ops[..n - 1]), ids, documents, metas, vecs, n - 1);
    } else {
      NothingUpserted(was, ids, documents, metas, vecs);
    }
  }

  lemma BatchIsLast(was: map<string, Doc>, ids: seq<string>, documents: seq<string>, metas: seq<Meta>, vecs: seq<Vector>)
    ensures Upserted(was, RunPlain(was, Upserts(Zip(ids, documents, metas, vecs))), ids, documents, metas, vecs,
                     Min(Min(|ids|, |documents|), Min(|metas|, |vecs|)))
  {
    var n := Min(Min(|ids|, |documents|), Min(|metas|, |vecs|));
    UpsertsAreLast(was, ids, documents, metas, vecs, n);
    assert Zip(ids[..n], documents[..n], metas[..n], vecs[..n]) == Zip(ids, documents, metas, vecs);
  }

  lemma NothingUpserted(was: map<string, Doc>, ids: seq<string>, documents: seq<string>, metas: seq<Meta>, vecs: seq<Vector>)
    ensures Upserted(was, was, ids, documents, metas, vecs, 0)
  {
  }

  ghost function IdSet(ids: seq<string>): set<string> {
    set id | id in ids
  }

  ghost function DeleteAll(s: Store, ids: seq<string>): Store {
    if ids == [] then s else DeleteOne(DeleteAll(s, ids[..|ids| - 1]), ids[|ids| - 1])
  }

  lemma {:induction false} DeleteAllDocs(s: Store, ids: seq<string>)
    ensures DeleteAll(s, ids).docs == s.docs - IdSet(ids)
  {
    if ids != [] {
      var front := ids[..|ids| - 1];
      DeleteAllDocs(s, front);
      assert ids == front + [ids[|ids| - 1]];
      assert IdSet(ids) == IdSet(front) + {ids[|ids| - 1]};
    }
  }

  lemma DeleteAllNext(s: Store, ids: seq<string>, i: nat)
    requires i < |ids|
    ensures DeleteAll(s, ids[..i + 1]) == DeleteOne(DeleteAll(s, ids[..i]), ids[i])
  {
    assert ids[..i + 1][..i] == ids[..i];
  }

  /** A batch of fitting rows is a run of single upserts. */
  lemma {:induction false} UpsertAllIsRun(s: Store, items: seq<Item>)
    requires Agrees(s) && forall i :: 0 <= i < |items| ==> |items[i].vec| == s.idx.dim
    ensures (forall op :: op in Upserts(items) ==> FitsDim(op, s.idx.dim))
    ensures UpsertAll(s, items) == Run(s, Upserts(items))
  {
    if items != [] {
      hide UpsertOne, Indexed, EveryLiveLabelled, DistinctLabels;
      var front := items[..|items| - 1];
      UpsertAllIsRun(s, front);
      assert Upserts(items)[..|items| - 1] == Upserts(front);
    }
  }

  lemma UpsertAllRefinesPlain(s: Store, items: seq<Item>)
    requires Agrees(s) && forall i :: 0 <= i < |items| ==> |items[i].vec| == s.idx.dim
    ensures View(UpsertAll(s, items).docs) == RunPlain(View(s.docs), Upserts(items))
  {
    UpsertAllIsRun(s, items);
    RunRefinesPlain(s, Upserts(items));
  }

  function Upserts(items: seq<Item>): seq<Op> {
    seq(|items|, i requires 0 <= i < |items| => Upsert(items[i]))
  }

  /** `hits` shows the documents `ids`, one by one. */
  ghost predicate AreHits(s: Store, dist: Distance, q: Vector, ids: seq<string>, hits: seq<Hit>) {
    && |hits| == |ids|
    && forall i :: 0 <= i < |ids| ==>
         && ids[i] in s.docs && hits[i].document == s.docs[ids[i]].document && hits[i].meta == s.docs[ids[i]].meta
         && hits[i].distance == dist(q, s.docs[ids[i]].embedding)
  }

  lemma {:induction false} KeepPrefix(docs: map<string, Row>, where: Meta -> bool, labels: seq<int>, i: nat)
    requires DistinctLabels(docs) && i <= |labels|
    ensures Keep(docs, where, labels[..i]) <= Keep(docs, where, labels)
  {
    if i == |labels| {
      assert labels[..i] == labels;
    } else {
      var front := labels[..|labels| - 1];
      KeepPrefix(docs, where, front, i);
      assert front[..i] == labels[..i];
    }
  }

  lemma KeptQualify(docs: map<string, Row>, where: Meta -> bool, labels: seq<int>, n: nat, i: nat)
    requires DistinctLabels(docs) && i < |Select(docs, where, labels, n)|
    ensures var id := Select(docs, where, labels, n)[i];
            id in docs && where(docs[id].meta) && Unflagged(docs[id].meta)
  {
    KeepQualifies(docs, where, labels, i);
  }

  lemma {:induction false} KeepQualifies(docs: map<string, Row>, where: Meta -> bool, labels: seq<int>, i: nat)
    requires DistinctLabels(docs) && i < |Keep(docs, where, labels)|
    ensures var id := Keep(docs, where, labels)[i];
            id in docs && where(docs[id].meta) && Unflagged(docs[id].meta)
  {
    var front := labels[..|labels| - 1];
    if i < |Keep(docs, where, front)| {
      KeepQualifies(docs, where, front, i);
    }
  }

  /** There is no flag, or it is one of the values that count as false. */
  predicate Unflagged(meta: Meta) {
    "flagged" !in meta
    || meta["flagged"] == Null || meta["flagged"] == Bool(false) || meta["flagged"] == Num(0.0) || meta["flagged"] == Text("")
  }

  class EdgeCollection {
    var dim: Option<nat>
    var docs: map<string, Row>
    var idx: Option<Index>

    ghost predicate Valid()
      reads this
    {
      match idx
      case None => dim == None && docs == map[]
      case Some(ix) => dim == Some(ix.dim) && Agrees(Store(docs, ix))
    }

    /** The store a batch of the given dimension starts from: a missing index is created first. */
    ghost function Opened(d: nat): Store
      reads this
    {
      Store(docs, match idx case None => EmptyIndex(d) case Some(ix) => ix)
    }

    constructor ()
      ensures Valid() && docs == map[] && idx == None
    {
      dim, docs, idx := None, map[], None;
    }

    /** Opening a stored collection: the dimension is known exactly if an index was ever created. */
    constructor Reopen(docs: map<string, Row>, saved: Option<Index>)
      requires match saved case None => docs == map[] case Some(ix) => Agrees(Store(docs, ix))
      ensures Valid() && this.docs == docs && idx.Some? == saved.Some?
      ensures idx.Some? ==> idx.value.slots == saved.value.slots && dim == Some(saved.value.dim)
    {
      this.docs := docs;
      dim := if saved.Some? then Some(saved.value.dim) else None;
      idx := if saved.Some? then Some(Reloaded(saved.value)) else None;
      new;
      if saved.Some? {
        forall k | k in docs ensures Indexed(docs[k], idx.value) {
          assert Indexed(docs[k], saved.value);
        }
        assert forall h :: IsLive(idx.value, h) ==> IsLive(saved.value, h);
      }
    }

    method EnsureIndex(d: nat)
      requires Valid()
      modifies this
      ensures Valid() && docs == old(docs)
      ensures idx.Some? && Store(docs, idx.value) == old(Opened(d))
    {
      if idx.None? {
        dim := Some(d);
        idx := Some(EmptyIndex(d));
      }
    }

    /** One row of a batch; a vector of the wrong dimension makes the index raise. */
    method UpsertRow(it: Item) returns (ok: bool)
      requires Valid() && idx.Some?
      modifies this
      ensures Valid() && idx.Some? && dim == old(dim)
      ensures ok == (|it.vec| == old(idx).value.dim)
      ensures ok ==> Store(docs, idx.value) == UpsertOne(Store(old(docs), old(idx).value), it)
      ensures !ok ==> docs == old(docs) && idx.value.slots == old(idx).value.slots
    {
      ghost var before := Store(docs, idx.value);
      var hid := LabelFor(docs, it.id);
      idx := Some(GrowIfFull(idx.value));
      if |it.vec| != idx.value.dim {
        assert EveryLiveLabelled(before.docs, before.idx);
        forall k | k in docs ensures Indexed(docs[k], idx.value) {
          assert Indexed(before.docs[k], before.idx);
        }
        assert forall h :: IsLive(idx.value, h) ==> IsLive(before.idx, h);
        return false;
      }
      AddKeepsCapacity(before.idx, it.vec, hid);
      UpsertKeepsAgreement(before, it);
      idx := Some(AddItem(idx.value, it.vec, hid));
      docs := InsertOrReplace(docs, it.id, Row(it.document, it.meta, it.vec, hid));
      return true;
    }

    /** The rows of a batch whose vectors share one dimension: all of them, or none. */
    method UpsertRows(items: seq<Item>) returns (ok: bool)
      requires Valid() && idx.Some?
      requires forall i :: 0 <= i < |items| ==> |items[i].vec| == |items[0].vec|
      modifies this
      ensures Valid() && idx.Some? && dim == old(dim)
      ensures ok == (items == [] || |items[0].vec| == old(idx).value.dim)
      ensures ok ==> Store(docs, idx.value) == UpsertAll(Store(old(docs), old(idx).value), items)
      ensures !ok ==> docs == old(docs) && idx.value.slots == old(idx).value.slots
    {
      var i := 0;
      while i < |items|
        invariant 0 <= i <= |items|
        invariant Valid() && idx.Some? && dim == old(dim)
        invariant 0 < i ==> |items[0].vec| == old(idx).value.dim
        invariant Store(docs, idx.value) == UpsertAll(Store(old(docs), old(idx).value), items[..i])
      {
        UpsertAllNext(Store(old(docs), old(idx).value), items, i);
        ok := UpsertRow(items[i]);
        if !ok {
          return false;
        }
        i := i + 1;
      }
      assert items[..i] == items;
      return true;
    }

    method Upsert(ids: seq<string>, documents: seq<string>, metadatas: seq<Meta>, vecs: seq<Vector>)
      returns (r: Outcome)
      requires Valid()
      modifies this
      ensures Valid()
      ensures r == UpsertOutcome(Zip(ids, documents, MetasOr(metadatas, |ids|), vecs), vecs, old(idx))
      ensures r == Done ==>
                idx.Some? && Store(docs, idx.value)
                  == UpsertAll(old(Opened(|vecs[0]|)), Zip(ids, documents, MetasOr(metadatas, |ids|), vecs))
      ensures r == Done ==>
                View(docs) == RunPlain(View(old(docs)), Upserts(Zip(ids, documents, MetasOr(metadatas, |ids|), vecs)))
      ensures r == Done ==>
                var metas := if metadatas == [] then seq(|ids|, _ => map[]) else metadatas;
                Upserted(View(old(docs)), View(docs), ids, documents, metas, vecs,
                         Min(Min(|ids|, |documents|), Min(|metas|, |vecs|)))
      ensures r != Done ==> docs == old(docs) && dim == old(dim)
      ensures r != Done ==> idx.Some? == old(idx).Some? && (idx.Some? ==> idx.value.slots == old(idx).value.slots)
    {
      if !Uniform(vecs) {
        return RaggedBatch;
      }
      if vecs == [] {
        return EmptyBatch;
      }
      var items := Zip(ids, documents, MetasOr(metadatas, |ids|), vecs);
      EnsureIndex(|vecs[0]|);
      ghost var start := Store(docs, idx.value);
      var ok := UpsertRows(items);
      if ok {
        UpsertAllRefinesPlain(start, items);
        BatchIsLast(View(old(docs)), ids, documents, MetasOr(metadatas, |ids|), vecs);
        return Done;
      }
      return DimensionMismatch;
    }

    method UpdateRow(id: string, meta: Meta)
      requires Valid()
      modifies this
      ensures Valid() && idx == old(idx) && dim == old(dim)
      ensures docs == UpdateDocs(old(docs), id, meta)
    {
      if id in docs {
        if idx.Some? {
          UpdateKeepsAgreement(Store(docs, idx.value), id, meta);
        }
        docs := docs[id := docs[id].(meta := docs[id].meta + meta)];
      }
    }

    method Update(ids: seq<string>, metadatas: seq<Meta>)
      requires Valid()
      modifies this
      ensures Valid() && idx == old(idx) && dim == old(dim)
      ensures docs == UpdateAll(old(docs), ZipMetas(ids, MetasOr(metadatas, |ids|)))
      ensures View(docs) == RunPlain(View(old(docs)), Updates(ZipMetas(ids, MetasOr(metadatas, |ids|))))
      ensures metadatas == [] ==> docs == old(docs)
      ensures metadatas != [] ==> MetaMerged(old(docs), docs, ids, metadatas, Min(|ids|, |metadatas|))
    {
      var todo := ZipMetas(ids, MetasOr(metadatas, |ids|));
      var i := 0;
      while i < |todo|
        invariant 0 <= i <= |todo|
        invariant Valid() && idx == old(idx) && dim == old(dim)
        invariant docs == UpdateAll(old(docs), todo[..i])
      {
        UpdateRow(todo[i].0, todo[i].1);
        assert todo[..i + 1][..i] == todo[..i];
        i := i + 1;
      }
      assert todo[..i] == todo;
      UpdateAllRefinesPlain(old(docs), todo);
      if metadatas == [] {
        NoUpdates(old(docs), ids);
      } else {
        var n := Min(|ids|, |metadatas|);
        UpdateAllMerges(old(docs), ids, metadatas, n);
        assert ZipMetas(ids[..n], metadatas[..n]) == todo;
      }
    }

    method DeleteRow(id: string)
      requires Valid()
      modifies this
      ensures Valid() && dim == old(dim)
      ensures docs == old(docs) - {id}
      ensures idx.Some? == old(idx).Some?
      ensures idx.Some? ==> Store(docs, idx.value) == DeleteOne(Store(old(docs), old(idx).value), id)
    {
      ghost var before := Opened(0);
      if idx.Some? {
        DeleteKeepsAgreement(before, id);
      }
      if id in docs && idx.Some? {
        idx := Some(MarkDeleted(idx.value, docs[id].hnswId));
      }
      docs := docs - {id};
      assert idx.Some? ==> Store(docs, idx.value) == DeleteOne(before, id);
    }

    method Delete(ids: seq<string>)
      requires Valid()
      modifies this
      ensures Valid() && dim == old(dim)
      ensures docs == old(docs) - IdSet(ids)
      ensures idx.Some? == old(idx).Some?
      ensures idx.Some? ==> Store(docs, idx.value) == DeleteAll(Store(old(docs), old(idx).value), ids)
    {
      var i := 0;
      while i < |ids|
        invariant 0 <= i <= |ids|
        invariant Valid() && dim == old(dim) && idx.Some? == old(idx).Some?
        invariant idx.Some? ==> Store(docs, idx.value) == DeleteAll(Store(old(docs), old(idx).value), ids[..i])
      {
        DeleteAllNext(old(Opened(0)), ids, i);
        DeleteRow(ids[i]);
        i := i + 1;
      }
      assert ids[..i] == ids;
      DeleteAllDocs(old(Opened(0)), ids);
    }

    /** One query vector: `labels` is the answer of the index when it is asked. */
    method Query(dist: Distance, q: Vector, n: nat, where: Meta -> bool, labels: seq<int>)
      returns (hits: seq<Hit>, ghost ids: seq<string>)
      requires Valid() && 1 <= n
      requires idx.Some? && docs != map[] ==>
                 |q| == idx.value.dim && IsNearest(idx.value, dist, q, FetchCount(n, |docs|), labels)
      ensures |hits| <= n
      ensures idx.None? || docs == map[] ==> hits == []
      ensures idx.Some? ==> Ranked(Store(docs, idx.value), dist, q, where, ids)
      ensures idx.Some? ==> forall best ::
                && NearestQualifying(Store(docs, idx.value), dist, q, where, n, best)
                && RoomForBest(Store(docs, idx.value), dist, q, where, n, best)
                ==> NearestQualifying(Store(docs, idx.value), dist, q, where, n, ids)
      ensures idx.Some? && OverfetchSuffices(docs, where, n) ==>
                NearestQualifying(Store(docs, idx.value), dist, q, where, n, ids)
      ensures idx.Some? ==> AreHits(Store(docs, idx.value), dist, q, ids, hits)
      ensures forall i :: 0 <= i < |hits| ==> where(hits[i].meta) && Unflagged(hits[i].meta)
    {
      hits, ids := [], [];
      if |docs| == 0 || idx.None? {
        return;
      }
      hits := CollectHits(dist, q, n, where, labels);
      ids := Select(docs, where, labels, n);
      ghost var s := Store(docs, idx.value);
      forall i | 0 <= i < |hits| ensures where(hits[i].meta) && Unflagged(hits[i].meta) {
        assert ids[i] in ids;
        KeptQualify(docs, where, labels, n, i);
      }
      SelectIsRanked(s, dist, q, where, n, FetchCount(n, |docs|), labels);
      forall best | NearestQualifying(s, dist, q, where, n, best) && RoomForBest(s, dist, q, where, n, best)
        ensures NearestQualifying(s, dist, q, where, n, ids)
      {
        SelectIsComplete(s, dist, q, where, n, labels, best);
      }
      if OverfetchSuffices(docs, where, n) {
        var best := BestExists(s, dist, q, where, n);
        SufficesForAll(s, dist, q, where, n, best);
      }
    }

    /** The scan over the candidates: it stops as soon as n rows have passed. */
    method CollectHits(dist: Distance, q: Vector, n: nat, where: Meta -> bool, labels: seq<int>)
      returns (hits: seq<Hit>)
      requires Valid() && idx.Some? && 1 <= n
      ensures AreHits(Store(docs, idx.value), dist, q, Select(docs, where, labels, n), hits)
    {
      hits := [];
      ghost var ids: seq<string> := [];
      var i := 0;
      while i < |labels| && |hits| < n
        invariant 0 <= i <= |labels|
        invariant |hits| <= n
        invariant ids == Keep(docs, where, labels[..i])
        invariant AreHits(Store(docs, idx.value), dist, q, ids, hits)
      {
        var id := RowOf(docs, labels[i]);
        assert labels[..i + 1][..i] == labels[..i];
        if id.Some? && !Flagged(docs[id.value].meta) && where(docs[id.value].meta) {
          var row := docs[id.value];
          assert Indexed(row, idx.value);
          hits := hits + [Hit(row.document, row.meta, DistanceOf(idx.value, dist, q, labels[i]))];
          ids := ids + [id.value];
        }
        i := i + 1;
      }
      KeepPrefix(docs, where, labels, i);
      assert i == |labels| ==> labels[..i] == labels;
    }
  }
}

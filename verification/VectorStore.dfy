/** The local vector store: a document table (SQLite) and a label index (hnswlib)
    that must describe the same documents.

    The index is a map from label to (vector, deleted flag) with a capacity; the
    table maps a document id to its row. `Store` is the pair of both, and the
    functions on it are the single-row steps of upsert, update and delete. */
module VectorStore {
  import opened Prelude

  type Vector = seq<real>

  datatype Value = Null | Bool(b: bool) | Num(n: real) | Text(s: string)

  type Meta = map<string, Value>

  predicate Truthy(v: Value) {
    match v
    case Null => false
    case Bool(b) => b
    case Num(n) => n != 0.0
    case Text(s) => s != ""
  }

  predicate Flagged(meta: Meta) {
    "flagged" in meta && Truthy(meta["flagged"])
  }

  datatype Row = Row(document: string, meta: Meta, embedding: Vector, hnswId: int)

  datatype Slot = Slot(vec: Vector, deleted: bool)

  datatype Index = Index(dim: nat, slots: map<int, Slot>, maxElements: nat)

  datatype Store = Store(docs: map<string, Row>, idx: Index)

  datatype Item = Item(id: string, document: string, meta: Meta, vec: Vector)

  // ------------------------------------------------------------ the invariant

  ghost predicate DistinctLabels(docs: map<string, Row>) {
    forall i, j :: i in docs && j in docs && docs[i].hnswId == docs[j].hnswId ==> i == j
  }

  predicate IsLive(ix: Index, hid: int) {
    hid in ix.slots && !ix.slots[hid].deleted
  }

  predicate Labelled(docs: map<string, Row>, hid: int) {
    exists id :: id in docs && docs[id].hnswId == hid
  }

  /** The row's label is positive, live in the index, and carries the row's embedding. */
  predicate Indexed(row: Row, ix: Index) {
    && 1 <= row.hnswId
    && IsLive(ix, row.hnswId)
    && ix.slots[row.hnswId].vec == row.embedding
    && |row.embedding| == ix.dim
  }

  ghost predicate EveryLiveLabelled(docs: map<string, Row>, ix: Index) {
    forall hid :: IsLive(ix, hid) ==> Labelled(docs, hid)
  }

  predicate WithinCapacity(ix: Index) {
    1 <= ix.maxElements && |ix.slots| <= ix.maxElements
  }

  /** Table and index describe the same documents: every row owns a label of its own and is
      indexed under it, every live label belongs to a row, and the index is not over capacity. */
  ghost predicate Agrees(s: Store) {
    && DistinctLabels(s.docs)
    && (forall id :: id in s.docs ==> Indexed(s.docs[id], s.idx))
    && EveryLiveLabelled(s.docs, s.idx)
    && WithinCapacity(s.idx)
  }

  // ------------------------------------------------------------ labels

  /** One above the highest label in the table, 1 for an empty table. */
  function NextLabel(docs: map<string, Row>): (hid: int)
    ensures forall id :: id in docs ==> docs[id].hnswId < hid
    ensures (forall id :: id in docs ==> 1 <= docs[id].hnswId) ==> 1 <= hid
  {
    if docs == map[] then 1
    else
      var labels := set id | id in docs :: docs[id].hnswId;
      assert forall id :: id in docs ==> docs[id].hnswId in labels;
      ghost var id :| id in docs;
      MaxOf(labels, docs[id].hnswId) + 1
  }

  // ------------------------------------------------------------ single steps

  /** What hnswlib needs to accept an element: the right dimension, and a free slot
      unless the label is already known. */
  predicate CanAdd(ix: Index, vec: Vector, hid: int) {
    |vec| == ix.dim && (hid in ix.slots || |ix.slots| < ix.maxElements)
  }

  /** Stores the vector under the label; a known label is overwritten and, if it was
      marked deleted, becomes live again. */
  function AddItem(ix: Index, vec: Vector, hid: int): Index
    requires CanAdd(ix, vec, hid)
  {
    ix.(slots := ix.slots[hid := Slot(vec, false)])
  }

  /** Marking an unknown or already deleted label raises, and the caller ignores that. */
  function MarkDeleted(ix: Index, hid: int): Index {
    if IsLive(ix, hid) then ix.(slots := ix.slots[hid := ix.slots[hid].(deleted := true)])
    else ix
  }

  function GrowIfFull(ix: Index): Index {
    if |ix.slots| >= ix.maxElements then ix.(maxElements := ix.maxElements * 2) else ix
  }

  function LabelFor(docs: map<string, Row>, id: string): int {
    if id in docs then docs[id].hnswId else NextLabel(docs)
  }

  /** INSERT OR REPLACE: drops the rows that clash on either unique column. */
  function InsertOrReplace(docs: map<string, Row>, id: string, row: Row): map<string, Row> {
    (map k | k in docs && k != id && docs[k].hnswId != row.hnswId :: docs[k])[id := row]
  }

  function UpsertOne(s: Store, it: Item): Store
    requires WithinCapacity(s.idx) && |it.vec| == s.idx.dim
  {
    var hid := LabelFor(s.docs, it.id);
    Store(InsertOrReplace(s.docs, it.id, Row(it.document, it.meta, it.vec, hid)),
          AddItem(GrowIfFull(s.idx), it.vec, hid))
  }

  function UpdateOne(s: Store, id: string, meta: Meta): Store {
    if id in s.docs then s.(docs := s.docs[id := s.docs[id].(meta := s.docs[id].meta + meta)]) else s
  }

  function DeleteOne(s: Store, id: string): Store {
    if id in s.docs then Store(s.docs - {id}, MarkDeleted(s.idx, s.docs[id].hnswId)) else s
  }

  // ------------------------------------------------------------ the steps keep the agreement

  lemma LabelIsUnshared(docs: map<string, Row>, id: string)
    requires DistinctLabels(docs)
    ensures forall k :: k in docs && k != id ==> docs[k].hnswId != LabelFor(docs, id)
  {
  }

  lemma AddKeepsCapacity(ix: Index, vec: Vector, hid: int)
    requires WithinCapacity(ix) && |vec| == ix.dim
    ensures CanAdd(GrowIfFull(ix), vec, hid)
    ensures WithinCapacity(AddItem(GrowIfFull(ix), vec, hid))
  {
    var ix' := AddItem(GrowIfFull(ix), vec, hid);
    if hid in ix.slots {
      assert ix'.slots.Keys == ix.slots.Keys;
    } else {
      assert ix'.slots.Keys == ix.slots.Keys + {hid};
    }
  }

  lemma UpsertedRow(s: Store, it: Item, k: string)
    requires Agrees(s) && |it.vec| == s.idx.dim && k in UpsertOne(s, it).docs
    ensures Indexed(UpsertOne(s, it).docs[k], UpsertOne(s, it).idx)
  {
    hide EveryLiveLabelled, NextLabel;
    LabelIsUnshared(s.docs, it.id);
    if k != it.id {
      assert Indexed(s.docs[k], s.idx);
    } else if it.id in s.docs {
      assert Indexed(s.docs[it.id], s.idx);
    } else {
      assert forall id :: id in s.docs ==> Indexed(s.docs[id], s.idx);
    }
  }

  lemma UpsertedLabel(s: Store, it: Item, l: int)
    requires Agrees(s) && |it.vec| == s.idx.dim && IsLive(UpsertOne(s, it).idx, l)
    ensures Labelled(UpsertOne(s, it).docs, l)
  {
    hide NextLabel, Indexed, WithinCapacity;
    var s' := UpsertOne(s, it);
    LabelIsUnshared(s.docs, it.id);
    if l == LabelFor(s.docs, it.id) {
      assert s'.docs[it.id].hnswId == l;
    } else {
      assert IsLive(s.idx, l);
      var id :| id in s.docs && s.docs[id].hnswId == l;
      assert id in s'.docs && s'.docs[id].hnswId == l;
    }
  }

  lemma UpsertedLabelsDiffer(s: Store, it: Item)
    requires Agrees(s) && |it.vec| == s.idx.dim
    ensures DistinctLabels(UpsertOne(s, it).docs)
  {
    hide NextLabel, Indexed, EveryLiveLabelled;
    LabelIsUnshared(s.docs, it.id);
  }

  lemma UpsertKeepsAgreement(s: Store, it: Item)
    requires Agrees(s) && |it.vec| == s.idx.dim
    ensures Agrees(UpsertOne(s, it)) && UpsertOne(s, it).idx.dim == s.idx.dim
  {
    hide DistinctLabels, Indexed, IsLive, Labelled, LabelFor, InsertOrReplace, WithinCapacity;
    var s' := UpsertOne(s, it);
    UpsertedLabelsDiffer(s, it);
    AddKeepsCapacity(s.idx, it.vec, LabelFor(s.docs, it.id));
    forall k | k in s'.docs ensures Indexed(s'.docs[k], s'.idx) {
      UpsertedRow(s, it, k);
    }
    forall l | IsLive(s'.idx, l) ensures Labelled(s'.docs, l) {
      UpsertedLabel(s, it, l);
    }
  }

  lemma UpdateKeepsAgreement(s: Store, id: string, meta: Meta)
    requires Agrees(s)
    ensures Agrees(UpdateOne(s, id, meta)) && UpdateOne(s, id, meta).idx == s.idx
  {
    if id in s.docs {
      var s' := UpdateOne(s, id, meta);
      forall k | k in s'.docs
        ensures k in s.docs && s'.docs[k].hnswId == s.docs[k].hnswId && Indexed(s'.docs[k], s'.idx)
      {
        assert Indexed(s.docs[k], s.idx);
      }
      forall l | IsLive(s'.idx, l) ensures Labelled(s'.docs, l) {
        var k :| k in s.docs && s.docs[k].hnswId == l;
        assert k in s'.docs && s'.docs[k].hnswId == l;
      }
    }
  }

  lemma DeleteKeepsAgreement(s: Store, id: string)
    requires Agrees(s)
    ensures Agrees(DeleteOne(s, id)) && DeleteOne(s, id).idx.dim == s.idx.dim
  {
    if id in s.docs {
      var s' := DeleteOne(s, id);
      var hid := s.docs[id].hnswId;
      assert s'.idx.slots.Keys == s.idx.slots.Keys;
      forall k | k in s'.docs ensures Indexed(s'.docs[k], s'.idx) {
        assert Indexed(s.docs[k], s.idx) && s.docs[k].hnswId != hid;
      }
      forall l | IsLive(s'.idx, l) ensures Labelled(s'.docs, l) {
        assert l != hid && IsLive(s.idx, l);
        var k :| k in s.docs && s.docs[k].hnswId == l;
        assert k in s'.docs && s'.docs[k].hnswId == l;
      }
    }
  }

  // ------------------------------------------------------------ whole runs refine a plain map

  /** What a caller can see of a row. */
  datatype Doc = Doc(document: string, meta: Meta, embedding: Vector)

  function View(docs: map<string, Row>): map<string, Doc> {
    map id | id in docs :: Doc(docs[id].document, docs[id].meta, docs[id].embedding)
  }

  datatype Op = Upsert(item: Item) | Update(id: string, meta: Meta) | Delete(did: string)

  predicate FitsDim(op: Op, dim: nat) {
    op.Upsert? ==> |op.item.vec| == dim
  }

  function Apply(s: Store, op: Op): (s': Store)
    requires Agrees(s) && FitsDim(op, s.idx.dim)
    ensures Agrees(s') && s'.idx.dim == s.idx.dim
  {
    match op
    case Upsert(it) => UpsertKeepsAgreement(s, it); UpsertOne(s, it)
    case Update(id, meta) => UpdateKeepsAgreement(s, id, meta); UpdateOne(s, id, meta)
    case Delete(id) => DeleteKeepsAgreement(s, id); DeleteOne(s, id)
  }

  /** The reference: a dictionary from id to document, with no labels and no index. */
  function ApplyPlain(m: map<string, Doc>, op: Op): map<string, Doc> {
    match op
    case Upsert(it) => m[it.id := Doc(it.document, it.meta, it.vec)]
    case Update(id, meta) => if id in m then m[id := m[id].(meta := m[id].meta + meta)] else m
    case Delete(id) => m - {id}
  }

  function Run(s: Store, ops: seq<Op>): (s': Store)
    requires Agrees(s) && forall op :: op in ops ==> FitsDim(op, s.idx.dim)
    ensures Agrees(s') && s'.idx.dim == s.idx.dim
  {
    if ops == [] then s
    else Apply(Run(s, ops[..|ops| - 1]), ops[|ops| - 1])
  }

  function RunPlain(m: map<string, Doc>, ops: seq<Op>): map<string, Doc> {
    if ops == [] then m else ApplyPlain(RunPlain(m, ops[..|ops| - 1]), ops[|ops| - 1])
  }

  lemma ReplaceIsUpdate(docs: map<string, Row>, id: string, row: Row)
    requires forall k :: k in docs && k != id ==> docs[k].hnswId != row.hnswId
    ensures InsertOrReplace(docs, id, row) == docs[id := row]
  {
  }

  lemma UpsertView(s: Store, it: Item)
    requires Agrees(s) && |it.vec| == s.idx.dim
    ensures View(UpsertOne(s, it).docs) == View(s.docs)[it.id := Doc(it.document, it.meta, it.vec)]
  {
    LabelIsUnshared(s.docs, it.id);
    ReplaceIsUpdate(s.docs, it.id, Row(it.document, it.meta, it.vec, LabelFor(s.docs, it.id)));
  }

  lemma StepRefinesPlain(s: Store, op: Op)
    requires Agrees(s) && FitsDim(op, s.idx.dim)
    ensures View(Apply(s, op).docs) == ApplyPlain(View(s.docs), op)
  {
    match op
    case Upsert(it) => UpsertView(s, it);
    case Update(id, meta) => UpdateView(s, id, meta);
    case Delete(id) => DeleteView(s, id);
  }

  lemma UpdateView(s: Store, id: string, meta: Meta)
    ensures View(UpdateOne(s, id, meta).docs)
         == if id in s.docs then View(s.docs)[id := View(s.docs)[id].(meta := s.docs[id].meta + meta)] else View(s.docs)
  {
  }

  lemma DeleteView(s: Store, id: string)
    ensures View(DeleteOne(s, id).docs) == View(s.docs) - {id}
  {
  }

  /** Over every sequence of upserts (repeated ids included), updates and deletes the table
      holds exactly what a plain dictionary would, while table and index keep agreeing. */
  lemma {:induction false} RunRefinesPlain(s: Store, ops: seq<Op>)
    requires Agrees(s) && forall op :: op in ops ==> FitsDim(op, s.idx.dim)
    ensures Agrees(Run(s, ops))
    ensures View(Run(s, ops).docs) == RunPlain(View(s.docs), ops)
  {
    if ops != [] {
      RunRefinesPlain(s, ops[..|ops| - 1]);
      StepRefinesPlain(Run(s, ops[..|ops| - 1]), ops[|ops| - 1]);
    }
  }

  lemma LabelKept(s: Store, op: Op, id: string)
    requires Agrees(s) && FitsDim(op, s.idx.dim) && id in s.docs && op != Delete(id)
    ensures id in Apply(s, op).docs && Apply(s, op).docs[id].hnswId == s.docs[id].hnswId
  {
    hide NextLabel, Indexed, EveryLiveLabelled, WithinCapacity;
    if op.Upsert? {
      LabelIsUnshared(s.docs, op.item.id);
    }
  }

  /** A document keeps its label for as long as it is not deleted, whatever else is written. */
  lemma {:induction false} LabelsAreStable(s: Store, ops: seq<Op>, id: string)
    requires Agrees(s) && forall op :: op in ops ==> FitsDim(op, s.idx.dim)
    requires id in s.docs && Delete(id) !in ops
    ensures id in Run(s, ops).docs && Run(s, ops).docs[id].hnswId == s.docs[id].hnswId
  {
    if ops != [] {
      hide Apply, Agrees;
      LabelsAreStable(s, ops[..|ops| - 1], id);
      LabelKept(Run(s, ops[..|ops| - 1]), ops[|ops| - 1], id);
    }
  }

  lemma NextLabelIsTight(docs: map<string, Row>)
    ensures docs == map[] ==> NextLabel(docs) == 1
    ensures docs != map[] ==> Labelled(docs, NextLabel(docs) - 1)
  {
    if docs != map[] {
      var labels := set id | id in docs :: docs[id].hnswId;
      var id0 :| id0 in docs;
      assert docs[id0].hnswId in labels;
      var m := NextLabel(docs) - 1;
      var id :| id in docs && docs[id].hnswId == m;
      assert Labelled(docs, m);
    }
  }

  /** After the document with the highest label is deleted, a new document gets that same
      label back exactly when the label below it is in use (or there is none below it). */
  lemma HighestLabelIsReissued(s: Store, gone: string, id: string)
    requires Agrees(s) && gone in s.docs && id !in s.docs
    requires forall k :: k in s.docs ==> s.docs[k].hnswId <= s.docs[gone].hnswId
    ensures LabelFor(DeleteOne(s, gone).docs, id) <= s.docs[gone].hnswId
    ensures (LabelFor(DeleteOne(s, gone).docs, id) == s.docs[gone].hnswId)
            <==> (s.docs[gone].hnswId == 1 || Labelled(s.docs, s.docs[gone].hnswId - 1))
  {
    var rest := DeleteOne(s, gone).docs;
    var hid := s.docs[gone].hnswId;
    assert forall k :: k in s.docs ==> Indexed(s.docs[k], s.idx);
    assert forall k :: k in rest ==> 1 <= rest[k].hnswId < hid;
    NextLabelIsTight(rest);
    if hid != 1 && Labelled(s.docs, hid - 1) {
      var k :| k in s.docs && s.docs[k].hnswId == hid - 1;
      assert k in rest;
    }
  }

  lemma ReviveSlot(ix: Index, hid: int, vec: Vector)
    requires IsLive(ix, hid) && WithinCapacity(ix) && |vec| == ix.dim
    ensures var dead := MarkDeleted(ix, hid);
            && CanAdd(GrowIfFull(dead), vec, hid)
            && AddItem(GrowIfFull(dead), vec, hid).slots == ix.slots[hid := Slot(vec, false)]
            && |ix.slots[hid := Slot(vec, false)]| == |ix.slots|
  {
    assert ix.slots[hid := Slot(vec, false)].Keys == ix.slots.Keys;
  }

  /** A reissued label revives its tombstone: afterwards the label carries the new vector and
      is live, no other slot changed, and the index did not grow. */
  lemma ReissuedLabelIsRevived(s: Store, gone: string, it: Item)
    requires Agrees(s) && gone in s.docs && |it.vec| == s.idx.dim
    requires LabelFor(DeleteOne(s, gone).docs, it.id) == s.docs[gone].hnswId
    ensures Agrees(DeleteOne(s, gone)) && DeleteOne(s, gone).idx.dim == s.idx.dim
    ensures var s' := UpsertOne(DeleteOne(s, gone), it);
            && Agrees(s')
            && s'.idx.slots == s.idx.slots[s.docs[gone].hnswId := Slot(it.vec, false)]
            && |s'.idx.slots| == |s.idx.slots|
  {
    DeleteKeepsAgreement(s, gone);
    var d := DeleteOne(s, gone);
    UpsertKeepsAgreement(d, it);
    assert Indexed(s.docs[gone], s.idx);
    ReviveSlot(s.idx, s.docs[gone].hnswId, it.vec);
  }
}

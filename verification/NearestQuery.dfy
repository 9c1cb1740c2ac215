/** Queries over the store: the index hands back eight candidates per wanted result, the
    candidates are filtered against the table, and at most n survive. */
module NearestQuery {
  import opened Prelude
  import opened VectorStore

  type Distance = (Vector, Vector) -> real

  /** The nearest-k answer of the index: k different live labels in non-decreasing distance
      from the query, and no live label outside the answer is nearer than one inside it. */
  ghost predicate IsNearest(ix: Index, dist: Distance, q: Vector, k: nat, labels: seq<int>) {
    && |labels| == k
    && Distinct(labels)
    && (forall i :: 0 <= i < k ==> IsLive(ix, labels[i]))
    && (forall i, j :: 0 <= i < j < k ==> DistanceOf(ix, dist, q, labels[i]) <= DistanceOf(ix, dist, q, labels[j]))
    && (forall i, l :: 0 <= i < k && IsLive(ix, l) && l !in labels ==>
          DistanceOf(ix, dist, q, labels[i]) <= DistanceOf(ix, dist, q, l))
  }

  function DistanceOf(ix: Index, dist: Distance, q: Vector, hid: int): real {
    if hid in ix.slots then dist(q, ix.slots[hid].vec) else 0.0
  }

  /** How many candidates the query asks the index for. */
  function FetchCount(n: nat, total: nat): nat {
    Min(n * 8, total)
  }

  /** The row a label belongs to. */
  function RowOf(docs: map<string, Row>, hid: int): (id: Option<string>)
    requires DistinctLabels(docs)
    ensures id.Some? ==> id.value in docs && docs[id.value].hnswId == hid
    ensures id.None? ==> !Labelled(docs, hid)
  {
    if Labelled(docs, hid) then
      var id :| id in docs && docs[id].hnswId == hid;
      Some(id)
    else None
  }

  predicate Qualifies(meta: Meta, where: Meta -> bool) {
    !Flagged(meta) && where(meta)
  }

  /** The ids of the qualifying rows behind the labels, in label order. */
  function Keep(docs: map<string, Row>, where: Meta -> bool, labels: seq<int>): seq<string>
    requires DistinctLabels(docs)
  {
    if labels == [] then []
    else
      var front := Keep(docs, where, labels[..|labels| - 1]);
      var id := RowOf(docs, labels[|labels| - 1]);
      if id.Some? && Qualifies(docs[id.value].meta, where) then front + [id.value] else front
  }

  lemma {:induction false} KeepMembers(docs: map<string, Row>, where: Meta -> bool, labels: seq<int>)
    requires DistinctLabels(docs) && Distinct(labels)
    ensures forall id :: id in Keep(docs, where, labels)
              <==> id in docs && docs[id].hnswId in labels && Qualifies(docs[id].meta, where)
    ensures Distinct(Keep(docs, where, labels))
    ensures |Keep(docs, where, labels)| <= |labels|
  {
    if labels != [] {
      var front := labels[..|labels| - 1];
      var last := labels[|labels| - 1];
      KeepMembers(docs, where, front);
      assert labels == front + [last] && last !in front;
      if Labelled(docs, last) {
        var id := RowOf(docs, last).value;
        assert forall k :: k in docs && docs[k].hnswId == last ==> k == id;
      }
    }
  }

  /** At most n of the kept ids. */
  function Select(docs: map<string, Row>, where: Meta -> bool, labels: seq<int>, n: nat): seq<string>
    requires DistinctLabels(docs)
  {
    FirstN(Keep(docs, where, labels), n)
  }

  ghost function Qualifying(docs: map<string, Row>, where: Meta -> bool): set<string> {
    set id | id in docs && Qualifies(docs[id].meta, where)
  }

  ghost function Rejected(docs: map<string, Row>, where: Meta -> bool): set<string> {
    set id | id in docs && !Qualifies(docs[id].meta, where)
  }

  ghost function DocDistance(s: Store, dist: Distance, q: Vector, id: string): real {
    if id in s.docs then dist(q, s.docs[id].embedding) else 0.0
  }

  /** Different qualifying documents in non-decreasing distance. */
  ghost predicate Ranked(s: Store, dist: Distance, q: Vector, where: Meta -> bool, ids: seq<string>) {
    && Distinct(ids)
    && (forall i :: 0 <= i < |ids| ==> ids[i] in Qualifying(s.docs, where))
    && (forall i, j :: 0 <= i < j < |ids| ==> DocDistance(s, dist, q, ids[i]) <= DocDistance(s, dist, q, ids[j]))
  }

  /** What a caller expects: the n nearest qualifying documents, or all of them if fewer. */
  ghost predicate NearestQualifying(s: Store, dist: Distance, q: Vector,
                                    where: Meta -> bool, n: nat, ids: seq<string>)
  {
    && Ranked(s, dist, q, where, ids)
    && |ids| == Min(n, |Qualifying(s.docs, where)|)
    && (forall i, id :: 0 <= i < |ids| && id in Qualifying(s.docs, where) && id !in ids ==>
          DocDistance(s, dist, q, ids[i]) <= DocDistance(s, dist, q, id))
  }

  lemma {:induction false} KeepSorted(s: Store, dist: Distance, q: Vector,
                                      where: Meta -> bool, labels: seq<int>)
    requires Agrees(s) && Distinct(labels)
    requires forall i, j :: 0 <= i < j < |labels| ==>
               DistanceOf(s.idx, dist, q, labels[i]) <= DistanceOf(s.idx, dist, q, labels[j])
    ensures Ranked(s, dist, q, where, Keep(s.docs, where, labels))
  {
    if labels != [] {
      var front := labels[..|labels| - 1];
      var last := labels[|labels| - 1];
      hide DocDistance, DistanceOf;
      KeepSorted(s, dist, q, where, front);
      KeepMembers(s.docs, where, front);
      KeepMembers(s.docs, where, labels);
      forall id | id in Keep(s.docs, where, front)
        ensures DocDistance(s, dist, q, id) <= DistanceOf(s.idx, dist, q, last)
      {
        SameDistance(s, dist, q, id);
        var i :| 0 <= i < |front| && front[i] == s.docs[id].hnswId;
        assert labels[i] == front[i];
      }
      if Labelled(s.docs, last) {
        SameDistance(s, dist, q, RowOf(s.docs, last).value);
      }
    }
  }

  /** Whatever the filter, a query returns at most n different, unflagged, matching documents
      in non-decreasing distance. */
  lemma SelectIsRanked(s: Store, dist: Distance, q: Vector, where: Meta -> bool, n: nat, k: nat, labels: seq<int>)
    requires Agrees(s) && IsNearest(s.idx, dist, q, k, labels)
    ensures Ranked(s, dist, q, where, Select(s.docs, where, labels, n))
    ensures |Select(s.docs, where, labels, n)| <= n
  {
    KeepSorted(s, dist, q, where, labels);
  }

  lemma FetchedOneMore(docs: map<string, Row>, front: seq<int>, last: int)
    requires DistinctLabels(docs) && Labelled(docs, last) && last !in front
    ensures |set id | id in docs && docs[id].hnswId in front + [last]|
         == |set id | id in docs && docs[id].hnswId in front| + 1
  {
    var id := RowOf(docs, last).value;
    assert (set k | k in docs && docs[k].hnswId in front + [last])
        == (set k | k in docs && docs[k].hnswId in front) + {id};
  }

  lemma {:induction false} FetchedCount(docs: map<string, Row>, labels: seq<int>)
    requires DistinctLabels(docs) && Distinct(labels)
    requires forall i :: 0 <= i < |labels| ==> Labelled(docs, labels[i])
    ensures |set id | id in docs && docs[id].hnswId in labels| == |labels|
  {
    if labels != [] {
      var front := labels[..|labels| - 1];
      var last := labels[|labels| - 1];
      FetchedCount(docs, front);
      assert labels == front + [last] && last !in front;
      FetchedOneMore(docs, front, last);
    }
  }

  /** A document whose label was not fetched is at least as far away as every fetched one. */
  lemma UnfetchedIsFarther(s: Store, dist: Distance, q: Vector,
                           k: nat, labels: seq<int>, near: string, id: string)
    requires Agrees(s) && IsNearest(s.idx, dist, q, k, labels)
    requires near in s.docs && s.docs[near].hnswId in labels
    requires id in s.docs && s.docs[id].hnswId !in labels
    ensures DocDistance(s, dist, q, near) <= DocDistance(s, dist, q, id)
  {
    assert Indexed(s.docs[id], s.idx) && Indexed(s.docs[near], s.idx);
    var m :| 0 <= m < |labels| && labels[m] == s.docs[near].hnswId;
  }

  lemma NothingNearerIsDropped(s: Store, dist: Distance, q: Vector, where: Meta -> bool,
                               n: nat, k: nat, labels: seq<int>, i: nat, id: string)
    requires Agrees(s) && IsNearest(s.idx, dist, q, k, labels)
    requires i < |Select(s.docs, where, labels, n)|
    requires id in Qualifying(s.docs, where) && id !in Select(s.docs, where, labels, n)
    ensures DocDistance(s, dist, q, Select(s.docs, where, labels, n)[i]) <= DocDistance(s, dist, q, id)
  {
    var kept := Keep(s.docs, where, labels);
    KeepSorted(s, dist, q, where, labels);
    KeepMembers(s.docs, where, labels);
    assert kept[i] in kept;
    var sel := Select(s.docs, where, labels, n);
    assert forall m :: 0 <= m < |sel| ==> sel[m] == kept[m] && kept[m] != id;
    if id in kept {
      var j :| 0 <= j < |kept| && kept[j] == id;
      assert |sel| <= j;
    } else {
      UnfetchedIsFarther(s, dist, q, k, labels, kept[i], id);
    }
  }

  // ------------------------------------------------------------ completeness of the over-fetch

  /** The rejected documents that are no farther than a given one. */
  ghost function CloseRejects(s: Store, dist: Distance, q: Vector, where: Meta -> bool, id: string): set<string> {
    set r | r in Rejected(s.docs, where) && DocDistance(s, dist, q, r) <= DocDistance(s, dist, q, id)
  }

  /** The wanted documents, together with the rejected ones no farther than the last of them, fit the
      eight-fold candidate list. */
  ghost predicate RoomForBest(s: Store, dist: Distance, q: Vector, where: Meta -> bool, n: nat, best: seq<string>) {
    best == [] || |CloseRejects(s, dist, q, where, best[|best| - 1])| + |best| <= 8 * n
  }

  ghost function Fetched(docs: map<string, Row>, labels: seq<int>): set<string> {
    set id | id in docs && docs[id].hnswId in labels
  }

  ghost predicate ByDistance(s: Store, dist: Distance, q: Vector, ids: seq<string>) {
    forall i, j :: 0 <= i < j < |ids| ==> DocDistance(s, dist, q, ids[i]) <= DocDistance(s, dist, q, ids[j])
  }

  lemma RankDocs(s: Store, dist: Distance, q: Vector, members: set<string>) returns (ranked: seq<string>)
    ensures Distinct(ranked) && |ranked| == |members| && ByDistance(s, dist, q, ranked)
    ensures forall id :: id in ranked <==> id in members
  {
    var all := Enumerate(members);
    var key := (id: string) => DocDistance(s, dist, q, id);
    ranked := Sort(key, all);
    SortSorts(key, all);
    SameMultisetSameMembers(all, ranked);
    DistinctPermutation(all, ranked);
    forall i, j | 0 <= i < j < |ranked|
      ensures DocDistance(s, dist, q, ranked[i]) <= DocDistance(s, dist, q, ranked[j])
    {
      assert key(ranked[i]) <= key(ranked[j]);
    }
  }

  lemma PrefixByDistance(s: Store, dist: Distance, q: Vector, ranked: seq<string>, n: nat)
    requires ByDistance(s, dist, q, ranked)
    ensures ByDistance(s, dist, q, FirstN(ranked, n))
  {
    hide DocDistance;
  }

  lemma PrefixIsNearer(s: Store, dist: Distance, q: Vector, ranked: seq<string>, n: nat, i: nat, id: string)
    requires ByDistance(s, dist, q, ranked) && i < |FirstN(ranked, n)| && id in ranked && id !in FirstN(ranked, n)
    ensures DocDistance(s, dist, q, FirstN(ranked, n)[i]) <= DocDistance(s, dist, q, id)
  {
    var j :| 0 <= j < |ranked| && ranked[j] == id;
    PrefixMember(ranked, n, j);
  }

  /** What a caller expects can always be formed. */
  lemma BestExists(s: Store, dist: Distance, q: Vector, where: Meta -> bool, n: nat) returns (best: seq<string>)
    ensures NearestQualifying(s, dist, q, where, n, best)
  {
    hide DocDistance, ByDistance;
    var ranked := RankDocs(s, dist, q, Qualifying(s.docs, where));
    best := FirstN(ranked, n);
    forall i | 0 <= i < |best| ensures best[i] in Qualifying(s.docs, where) {
      assert ranked[i] in ranked;
    }
    forall i, id | 0 <= i < |best| && id in Qualifying(s.docs, where) && id !in best
      ensures DocDistance(s, dist, q, best[i]) <= DocDistance(s, dist, q, id)
    {
      PrefixIsNearer(s, dist, q, ranked, n, i, id);
    }
  }

  lemma MissedBest(docs: map<string, Row>, where: Meta -> bool, labels: seq<int>, best: seq<string>) returns (x: string)
    requires DistinctLabels(docs) && Distinct(labels) && Distinct(best)
    requires |Keep(docs, where, labels)| < |best|
    requires forall id :: id in best ==> id in Qualifying(docs, where)
    ensures x in best && x in docs && docs[x].hnswId !in labels
  {
    var kept := Keep(docs, where, labels);
    KeepMembers(docs, where, labels);
    MembersCount(kept);
    MembersCount(best);
    var b, k := set id | id in best, set id | id in kept;
    if b <= k {
      SubsetCount(b, k);
      assert false;
    }
    x :| x in b && x !in k;
  }

  lemma FetchedSplit(docs: map<string, Row>, where: Meta -> bool, labels: seq<int>, rejects: set<string>)
    requires DistinctLabels(docs) && Distinct(labels)
    requires forall i :: 0 <= i < |labels| ==> Labelled(docs, labels[i])
    requires forall id :: id in Fetched(docs, labels) && id in Rejected(docs, where) ==> id in rejects
    ensures |labels| <= |Keep(docs, where, labels)| + |rejects|
  {
    var kept := Keep(docs, where, labels);
    KeepMembers(docs, where, labels);
    MembersCount(kept);
    FetchedCount(docs, labels);
    var keptSet := set id | id in kept;
    SubsetCount(Fetched(docs, labels), keptSet + rejects);
    assert |keptSet + rejects| <= |keptSet| + |rejects|;
  }

  lemma LiveIsLabelled(s: Store, labels: seq<int>)
    requires Agrees(s) && forall i :: 0 <= i < |labels| ==> IsLive(s.idx, labels[i])
    ensures forall i :: 0 <= i < |labels| ==> Labelled(s.docs, labels[i])
  {
  }

  lemma EnoughKept(s: Store, dist: Distance, q: Vector, where: Meta -> bool, n: nat,
                   labels: seq<int>, best: seq<string>)
    requires Agrees(s) && IsNearest(s.idx, dist, q, FetchCount(n, |s.docs|), labels)
    requires NearestQualifying(s, dist, q, where, n, best) && RoomForBest(s, dist, q, where, n, best)
    ensures |Keep(s.docs, where, labels)| >= |best|
  {
    hide Keep, DocDistance;
    if |Keep(s.docs, where, labels)| < |best| {
      var x := MissedBest(s.docs, where, labels, best);
      var last := best[|best| - 1];
      var i :| 0 <= i < |best| && best[i] == x;
      assert DocDistance(s, dist, q, x) <= DocDistance(s, dist, q, last);
      forall id | id in Fetched(s.docs, labels) && id in Rejected(s.docs, where)
        ensures id in CloseRejects(s, dist, q, where, last)
      {
        UnfetchedIsFarther(s, dist, q, |labels|, labels, id, x);
      }
      LiveIsLabelled(s, labels);
      FetchedSplit(s.docs, where, labels, CloseRejects(s, dist, q, where, last));
      FetchedCount(s.docs, labels);
      SubsetOfSameSize(Fetched(s.docs, labels), s.docs.Keys);
      assert false;
    }
  }

  /** With that much room every answer of the index leads to the nearest qualifying documents. */
  lemma SelectIsComplete(s: Store, dist: Distance, q: Vector, where: Meta -> bool, n: nat,
                         labels: seq<int>, best: seq<string>)
    requires Agrees(s) && IsNearest(s.idx, dist, q, FetchCount(n, |s.docs|), labels)
    requires NearestQualifying(s, dist, q, where, n, best) && RoomForBest(s, dist, q, where, n, best)
    ensures NearestQualifying(s, dist, q, where, n, Select(s.docs, where, labels, n))
  {
    hide Keep, DocDistance, RoomForBest;
    var sel, kept := Select(s.docs, where, labels, n), Keep(s.docs, where, labels);
    var k := FetchCount(n, |s.docs|);
    SelectIsRanked(s, dist, q, where, n, k, labels);
    EnoughKept(s, dist, q, where, n, labels, best);
    KeepMembers(s.docs, where, labels);
    MembersCount(kept);
    SubsetCount((set id | id in kept), Qualifying(s.docs, where));
    forall i, id | 0 <= i < |sel| && id in Qualifying(s.docs, where) && id !in sel
      ensures DocDistance(s, dist, q, sel[i]) <= DocDistance(s, dist, q, id)
    {
      NothingNearerIsDropped(s, dist, q, where, n, k, labels, i, id);
    }
  }

  /** The labels of the given documents, in order. */
  ghost function LabelsOf(docs: map<string, Row>, ids: seq<string>): seq<int>
    requires forall id :: id in ids ==> id in docs
  {
    seq(|ids|, i requires 0 <= i < |ids| => docs[ids[i]].hnswId)
  }

  lemma LabelsAreLive(s: Store, ids: seq<string>)
    requires Agrees(s) && Distinct(ids)
    requires forall id :: id in ids ==> id in s.docs
    ensures Distinct(LabelsOf(s.docs, ids))
    ensures forall i :: 0 <= i < |ids| ==> IsLive(s.idx, LabelsOf(s.docs, ids)[i])
  {
    forall i | 0 <= i < |ids| ensures IsLive(s.idx, LabelsOf(s.docs, ids)[i]) {
      assert Indexed(s.docs[ids[i]], s.idx);
    }
  }

  lemma LabelMember(docs: map<string, Row>, ids: seq<string>, id: string)
    requires id in docs && forall k :: k in ids ==> k in docs
    ensures id in ids ==> docs[id].hnswId in LabelsOf(docs, ids)
  {
    if id in ids {
      var j :| 0 <= j < |ids| && ids[j] == id;
      assert LabelsOf(docs, ids)[j] == docs[id].hnswId;
    }
  }

  lemma SameDistance(s: Store, dist: Distance, q: Vector, id: string)
    requires Agrees(s) && id in s.docs
    ensures DistanceOf(s.idx, dist, q, s.docs[id].hnswId) == DocDistance(s, dist, q, id)
  {
    assert Indexed(s.docs[id], s.idx);
  }

  /** Documents in distance order, none farther than any other document, are an answer of the index. */
  lemma NearestDocs(s: Store, dist: Distance, q: Vector, ids: seq<string>)
    requires Agrees(s) && Distinct(ids) && ByDistance(s, dist, q, ids) && forall id :: id in ids ==> id in s.docs
    requires forall i, id :: 0 <= i < |ids| && id in s.docs && id !in ids ==>
               DocDistance(s, dist, q, ids[i]) <= DocDistance(s, dist, q, id)
    ensures IsNearest(s.idx, dist, q, |ids|, LabelsOf(s.docs, ids))
  {
    var labels := LabelsOf(s.docs, ids);
    LabelsAreLive(s, ids);
    forall i | 0 <= i < |ids| ensures DistanceOf(s.idx, dist, q, labels[i]) == DocDistance(s, dist, q, ids[i]) {
      SameDistance(s, dist, q, ids[i]);
    }
    forall i, l | 0 <= i < |ids| && IsLive(s.idx, l) && l !in labels
      ensures DistanceOf(s.idx, dist, q, labels[i]) <= DistanceOf(s.idx, dist, q, l)
    {
      assert Labelled(s.docs, l);
      var id :| id in s.docs && s.docs[id].hnswId == l;
      SameDistance(s, dist, q, id);
      LabelMember(s.docs, ids, id);
    }
  }

  /** The rejected documents no farther than the last wanted one, and the wanted ones before it. */
  ghost function Crowd(s: Store, dist: Distance, q: Vector, where: Meta -> bool, best: seq<string>): set<string>
    requires best != []
  {
    CloseRejects(s, dist, q, where, best[|best| - 1]) + Members(best[..|best| - 1])
  }

  lemma CrowdSize(s: Store, dist: Distance, q: Vector, where: Meta -> bool, best: seq<string>)
    requires best != [] && Ranked(s, dist, q, where, best)
    ensures |Crowd(s, dist, q, where, best)| == |CloseRejects(s, dist, q, where, best[|best| - 1])| + |best| - 1
  {
    var front := best[..|best| - 1];
    MembersCount(front);
    assert Members(front) == set x | x in front;
    assert forall id :: id in front ==> id in best;
    assert CloseRejects(s, dist, q, where, best[|best| - 1]) !! Members(front);
  }

  lemma CrowdIsClose(s: Store, dist: Distance, q: Vector, where: Meta -> bool, best: seq<string>, id: string)
    requires best != [] && Ranked(s, dist, q, where, best) && id in Crowd(s, dist, q, where, best)
    ensures id in s.docs && DocDistance(s, dist, q, id) <= DocDistance(s, dist, q, best[|best| - 1])
  {
    if id in best[..|best| - 1] {
      var i :| 0 <= i < |best| - 1 && best[i] == id;
    }
  }

  lemma OthersAreFarther(s: Store, dist: Distance, q: Vector, where: Meta -> bool, n: nat, best: seq<string>, id: string)
    requires best != [] && NearestQualifying(s, dist, q, where, n, best)
    requires id in s.docs && id !in Crowd(s, dist, q, where, best)
    ensures DocDistance(s, dist, q, best[|best| - 1]) <= DocDistance(s, dist, q, id)
  {
    var front, last := best[..|best| - 1], best[|best| - 1];
    assert best == front + [last];
    if id in Qualifying(s.docs, where) && id != last {
      assert id !in best;
    }
  }

  lemma CrowdFillsCandidates(s: Store, dist: Distance, q: Vector, where: Meta -> bool, n: nat, best: seq<string>)
    requires NearestQualifying(s, dist, q, where, n, best) && !RoomForBest(s, dist, q, where, n, best)
    ensures best != [] && 8 * n <= |Crowd(s, dist, q, where, best)| && FetchCount(n, |s.docs|) == 8 * n
  {
    var crowd := Crowd(s, dist, q, where, best);
    CrowdSize(s, dist, q, where, best);
    forall id | id in crowd ensures id in s.docs {
      CrowdIsClose(s, dist, q, where, best, id);
    }
    SubsetCount(crowd, s.docs.Keys);
  }

  lemma CrowdMember(s: Store, dist: Distance, q: Vector, where: Meta -> bool, best: seq<string>, id: string)
    requires best != [] && id in Crowd(s, dist, q, where, best)
    ensures id in Rejected(s.docs, where) || id in best[..|best| - 1]
  {
  }

  lemma FrontIsDistinct(s: Store, dist: Distance, q: Vector, where: Meta -> bool, best: seq<string>)
    requires best != [] && Ranked(s, dist, q, where, best)
    ensures Distinct(best[..|best| - 1])
  {
  }

  /** Without that much room some correct answer of the index meets the rejected documents first and
      leaves fewer than the wanted ones. */
  lemma RejectedFirst(s: Store, dist: Distance, q: Vector, where: Meta -> bool, n: nat, best: seq<string>)
    returns (labels: seq<int>)
    requires Agrees(s) && NearestQualifying(s, dist, q, where, n, best) && !RoomForBest(s, dist, q, where, n, best)
    ensures IsNearest(s.idx, dist, q, FetchCount(n, |s.docs|), labels)
    ensures |Select(s.docs, where, labels, n)| < |best|
  {
    hide IsNearest, Keep, DocDistance, Crowd, Rejected, FetchCount, RoomForBest, Ranked, ByDistance;
    CrowdFillsCandidates(s, dist, q, where, n, best);
    var ids := NearestOfCrowd(s, dist, q, where, n, best, 8 * n);
    labels := LabelsOf(s.docs, ids);
    NearestDocs(s, dist, q, ids);
    forall id | id in ids ensures id in Rejected(s.docs, where) || id in best[..|best| - 1] {
      CrowdMember(s, dist, q, where, best, id);
    }
    FrontIsDistinct(s, dist, q, where, best);
    KeptOfCrowd(s.docs, where, ids, best[..|best| - 1]);
  }

  lemma NearestOfCrowd(s: Store, dist: Distance, q: Vector, where: Meta -> bool, n: nat, best: seq<string>, k: nat)
    returns (ids: seq<string>)
    requires best != [] && NearestQualifying(s, dist, q, where, n, best) && Ranked(s, dist, q, where, best)
    requires k <= |Crowd(s, dist, q, where, best)|
    ensures |ids| == k && Distinct(ids) && ByDistance(s, dist, q, ids)
    ensures forall id :: id in ids ==> id in s.docs && id in Crowd(s, dist, q, where, best)
    ensures forall i, id :: 0 <= i < |ids| && id in s.docs && id !in ids ==>
              DocDistance(s, dist, q, ids[i]) <= DocDistance(s, dist, q, id)
  {
    hide DocDistance, Crowd, NearestQualifying, ByDistance;
    var crowd := Crowd(s, dist, q, where, best);
    var ranked := RankDocs(s, dist, q, crowd);
    ids := FirstN(ranked, k);
    PrefixByDistance(s, dist, q, ranked, k);
    forall id | id in ids ensures id in s.docs && id in crowd {
      assert id in ranked;
      CrowdIsClose(s, dist, q, where, best, id);
    }
    forall i, id | 0 <= i < |ids| && id in s.docs && id !in ids
      ensures DocDistance(s, dist, q, ids[i]) <= DocDistance(s, dist, q, id)
    {
      if id in crowd {
        PrefixIsNearer(s, dist, q, ranked, k, i, id);
      } else {
        assert ids[i] in ids;
        CrowdIsClose(s, dist, q, where, best, ids[i]);
        OthersAreFarther(s, dist, q, where, n, best, id);
      }
    }
  }

  lemma KeptOfCrowd(docs: map<string, Row>, where: Meta -> bool, ids: seq<string>, wanted: seq<string>)
    requires DistinctLabels(docs) && Distinct(ids)
    requires Distinct(wanted) && forall id :: id in ids ==> id in docs && (id in Rejected(docs, where) || id in wanted)
    ensures |Keep(docs, where, LabelsOf(docs, ids))| <= |wanted|
  {
    var labels := LabelsOf(docs, ids);
    var kept := Keep(docs, where, labels);
    KeepMembers(docs, where, labels);
    forall id | id in kept ensures id in wanted {
      var i :| 0 <= i < |labels| && labels[i] == docs[id].hnswId;
      assert ids[i] == id && ids[i] in ids;
    }
    MembersCount(kept);
    MembersCount(wanted);
    SubsetCount((set id | id in kept), (set id | id in wanted));
  }

  /** For one distance and one query: every answer the index may give, ties included, leads to the n
      nearest qualifying documents. */
  ghost predicate Complete(s: Store, dist: Distance, q: Vector, where: Meta -> bool, n: nat)
    requires Agrees(s)
  {
    forall labels :: IsNearest(s.idx, dist, q, FetchCount(n, |s.docs|), labels) ==>
      NearestQualifying(s, dist, q, where, n, Select(s.docs, where, labels, n))
  }

  /** A query is complete exactly when the wanted documents and the rejected ones no farther than the
      last of them fit the eight-fold candidate list. */
  lemma QueryIsExact(s: Store, dist: Distance, q: Vector, where: Meta -> bool, n: nat, best: seq<string>)
    requires Agrees(s) && NearestQualifying(s, dist, q, where, n, best)
    ensures Complete(s, dist, q, where, n) <==> RoomForBest(s, dist, q, where, n, best)
  {
    if RoomForBest(s, dist, q, where, n, best) {
      forall labels | IsNearest(s.idx, dist, q, FetchCount(n, |s.docs|), labels)
        ensures NearestQualifying(s, dist, q, where, n, Select(s.docs, where, labels, n))
      {
        SelectIsComplete(s, dist, q, where, n, labels, best);
      }
    } else {
      var labels := RejectedFirst(s, dist, q, where, n, best);
      assert !NearestQualifying(s, dist, q, where, n, Select(s.docs, where, labels, n));
    }
  }

  /** The condition under which eight candidates per wanted result are enough for every distance. */
  ghost predicate OverfetchSuffices(docs: map<string, Row>, where: Meta -> bool, n: nat) {
    || |Qualifying(docs, where)| == 0
    || |Rejected(docs, where)| + Min(n, |Qualifying(docs, where)|) <= 8 * n
  }

  lemma SufficesForAll(s: Store, dist: Distance, q: Vector, where: Meta -> bool, n: nat, best: seq<string>)
    requires NearestQualifying(s, dist, q, where, n, best) && OverfetchSuffices(s.docs, where, n)
    ensures RoomForBest(s, dist, q, where, n, best)
  {
    if best != [] {
      SubsetCount(CloseRejects(s, dist, q, where, best[|best| - 1]), Rejected(s.docs, where));
    }
  }

  ghost predicate AlwaysComplete(s: Store, where: Meta -> bool, n: nat)
    requires Agrees(s)
  {
    forall dist: Distance, q: Vector :: Complete(s, dist, q, where, n)
  }

  /** Whatever the distance and the query, the over-fetch is complete exactly when all the rejected
      documents and the wanted ones fit together into the candidate list (or nothing qualifies). */
  lemma OverfetchIsExact(s: Store, where: Meta -> bool, n: nat)
    requires Agrees(s) && 1 <= n
    ensures AlwaysComplete(s, where, n) <==> OverfetchSuffices(s.docs, where, n)
  {
    if OverfetchSuffices(s.docs, where, n) {
      forall dist: Distance, q: Vector ensures Complete(s, dist, q, where, n) {
        var best := BestExists(s, dist, q, where, n);
        SufficesForAll(s, dist, q, where, n, best);
        QueryIsExact(s, dist, q, where, n, best);
      }
    } else {
      var same: Distance := (a, b) => 0.0;
      var best := BestExists(s, same, [], where, n);
      QueryIsExact(s, same, [], where, n, best);
      assert CloseRejects(s, same, [], where, best[|best| - 1]) == Rejected(s.docs, where);
      assert !Complete(s, same, [], where, n);
    }
  }

  lemma LiveLabelsListed(s: Store) returns (labels: seq<int>)
    requires Agrees(s)
    ensures Distinct(labels) && |labels| == |s.docs|
    ensures forall l :: l in labels <==> IsLive(s.idx, l)
  {
    var ids := Enumerate(s.docs.Keys);
    labels := LabelsOf(s.docs, ids);
    forall l | l in labels ensures IsLive(s.idx, l) {
      var i :| 0 <= i < |labels| && labels[i] == l;
      assert Indexed(s.docs[ids[i]], s.idx);
    }
    forall l | IsLive(s.idx, l) ensures l in labels {
      assert Labelled(s.docs, l);
      var id :| id in s.docs && s.docs[id].hnswId == l;
      assert id in ids;
      var m :| 0 <= m < |ids| && ids[m] == id;
      assert labels[m] == l;
    }
  }

  lemma RankedPrefixIsNearest(ix: Index, dist: Distance, q: Vector, ranked: seq<int>, k: nat)
    requires Distinct(ranked) && k <= |ranked|
    requires forall l :: l in ranked <==> IsLive(ix, l)
    requires forall i, j :: 0 <= i < j < |ranked| ==>
               DistanceOf(ix, dist, q, ranked[i]) <= DistanceOf(ix, dist, q, ranked[j])
    ensures IsNearest(ix, dist, q, k, ranked[..k])
  {
    var labels := ranked[..k];
    forall i, l | 0 <= i < k && IsLive(ix, l) && l !in labels
      ensures DistanceOf(ix, dist, q, labels[i]) <= DistanceOf(ix, dist, q, l)
    {
      assert forall m :: 0 <= m < k ==> labels[m] == ranked[m] && labels[m] != l;
      assert l in ranked;
      var j :| 0 <= j < |ranked| && ranked[j] == l;
      assert k <= j;
    }
  }

  /** The count the query asks for never exceeds the live labels, so an answer exists. */
  lemma NearestExists(s: Store, dist: Distance, q: Vector, n: nat) returns (labels: seq<int>)
    requires Agrees(s)
    ensures IsNearest(s.idx, dist, q, FetchCount(n, |s.docs|), labels)
  {
    var all := LiveLabelsListed(s);
    var key := (l: int) => DistanceOf(s.idx, dist, q, l);
    var ranked := Sort(key, all);
    SortSorts(key, all);
    SameMultisetSameMembers(all, ranked);
    DistinctPermutation(all, ranked);
    forall i, j | 0 <= i < j < |ranked|
      ensures DistanceOf(s.idx, dist, q, ranked[i]) <= DistanceOf(s.idx, dist, q, ranked[j])
    {
      assert key(ranked[i]) <= key(ranked[j]);
    }
    RankedPrefixIsNearest(s.idx, dist, q, ranked, FetchCount(n, |s.docs|));
    labels := ranked[..FetchCount(n, |s.docs|)];
  }
}

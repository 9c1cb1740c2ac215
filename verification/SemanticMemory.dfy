/** Retrieval of earlier conversation turns: several phases that each add turns not seen before,
    the search over other sessions a user may read, and the merge of both.

    Fingerprints and cosine distances are uninterpreted functions (`fp`, `dist`). */
module SemanticMemory {
  import opened Prelude

  type Vector = seq<real>

  datatype Doc = Doc(content: string, role: string, turnIndex: int, expireAt: int,
                     sessionId: string, userId: string, teamId: string, scope: string,
                     embedding: Option<Vector>)

  /** A document considered for the result, with the distance it would be reported at. */
  datatype Cand = Cand(doc: Doc, distance: real)

  const MAX_DISTANCE := 0.75

  const PRINT_PREFIX := 120

  function Print(fp: string -> string, c: Cand): string {
    fp(FirstN(c.doc.content, PRINT_PREFIX))
  }

  predicate HasPrint(fp: string -> string, cs: seq<Cand>, p: string) {
    exists i :: 0 <= i < |cs| && Print(fp, cs[i]) == p
  }

  /** Keeps the first candidate of every fingerprint. */
  function Dedup(fp: string -> string, cs: seq<Cand>): seq<Cand> {
    if cs == [] then []
    else
      var front := Dedup(fp, cs[..|cs| - 1]);
      var last := cs[|cs| - 1];
      if HasPrint(fp, front, Print(fp, last)) then front else front + [last]
  }

  ghost predicate DistinctPrints(fp: string -> string, cs: seq<Cand>) {
    forall i, j :: 0 <= i < j < |cs| ==> Print(fp, cs[i]) != Print(fp, cs[j])
  }

  lemma {:induction false} DedupMeaning(fp: string -> string, cs: seq<Cand>)
    ensures DistinctPrints(fp, Dedup(fp, cs))
    ensures forall i :: 0 <= i < |Dedup(fp, cs)| ==> Dedup(fp, cs)[i] in cs
    ensures forall p :: HasPrint(fp, Dedup(fp, cs), p) <==> HasPrint(fp, cs, p)
  {
    if cs != [] {
      var init, last := cs[..|cs| - 1], cs[|cs| - 1];
      var front := Dedup(fp, init);
      DedupMeaning(fp, init);
      assert cs == init + [last];
      var r := Dedup(fp, cs);
      forall p ensures HasPrint(fp, r, p) <==> HasPrint(fp, cs, p) {
        PrintsOfAppend(fp, init, last, p);
        PrintsOfAppend(fp, front, last, p);
      }
      if r != front {
        forall i | 0 <= i < |front| ensures Print(fp, front[i]) != Print(fp, last) {
          assert !HasPrint(fp, front, Print(fp, last));
        }
      }
    }
  }

  lemma PrintsOfAppend(fp: string -> string, cs: seq<Cand>, c: Cand, p: string)
    ensures HasPrint(fp, cs + [c], p) <==> HasPrint(fp, cs, p) || Print(fp, c) == p
  {
    var all := cs + [c];
    if HasPrint(fp, cs, p) {
      var i :| 0 <= i < |cs| && Print(fp, cs[i]) == p;
      assert Print(fp, all[i]) == p;
    }
    if Print(fp, c) == p {
      assert all[|cs|] == c;
    }
    if HasPrint(fp, all, p) {
      var i :| 0 <= i < |all| && Print(fp, all[i]) == p;
      assert i < |cs| ==> all[i] == cs[i];
    }
  }

  lemma {:induction false} DedupExtends(fp: string -> string, cs: seq<Cand>, more: seq<Cand>)
    ensures Dedup(fp, cs) <= Dedup(fp, cs + more)
  {
    if more == [] {
      assert cs + more == cs;
    } else {
      var init := more[..|more| - 1];
      DedupExtends(fp, cs, init);
      assert (cs + more)[..|cs + more| - 1] == cs + init;
    }
  }

  // ------------------------------------------------------------ one session

  predicate Fresh(now: int, d: Doc) { d.expireAt >= now }

  /** The fresh documents as candidates, at their distance from the query. */
  function FreshCands(now: int, dist: Doc -> real, docs: seq<Doc>): seq<Cand> {
    if docs == [] then []
    else
      var front := FreshCands(now, dist, docs[..|docs| - 1]);
      var d := docs[|docs| - 1];
      if Fresh(now, d) then front + [Cand(d, dist(d))] else front
  }

  lemma {:induction false} FreshCandsMembers(now: int, dist: Doc -> real, docs: seq<Doc>)
    ensures forall c :: c in FreshCands(now, dist, docs)
              <==> c.doc in docs && Fresh(now, c.doc) && c.distance == dist(c.doc)
  {
    if docs != [] {
      FreshCandsMembers(now, dist, docs[..|docs| - 1]);
      assert docs == docs[..|docs| - 1] + [docs[|docs| - 1]];
    }
  }

  predicate Near(c: Cand) { c.distance <= MAX_DISTANCE }

  function ByDistance(cs: seq<Cand>): seq<Cand> { Sort((c: Cand) => c.distance, cs) }

  /** Phase 1: the fresh documents within the distance limit, nearest first. */
  function NearPhase(now: int, dist: Doc -> real, docs: seq<Doc>): seq<Cand> {
    Filter(Near, ByDistance(FreshCands(now, dist, docs)))
  }

  /** Phase 1 without embeddings: what the index returned, filtered. */
  function AnnPhase(now: int, hits: seq<Cand>): seq<Cand> {
    Filter((c: Cand) => Fresh(now, c.doc) && Near(c), hits)
  }

  /** Phase 2: the fresh documents that contain a topic word, in stored order. */
  function TopicPhase(now: int, topical: string -> bool, docs: seq<Doc>): seq<Cand> {
    Filter((c: Cand) => topical(c.doc.content), FreshCands(now, _ => 0.0, docs))
  }

  const MAX_TOKENS := 5

  const MIN_TOKEN := 3

  /** Phase 3: the fresh documents the store returns for the first keywords of the query. */
  function KeywordPhase(now: int, lookup: string -> seq<Doc>, tokens: seq<string>): seq<Cand> {
    if tokens == [] then []
    else
      var front := KeywordPhase(now, lookup, tokens[..|tokens| - 1]);
      var token := tokens[|tokens| - 1];
      if |token| < MIN_TOKEN then front else front + FreshCands(now, _ => 0.0, lookup(token))
  }

  /** What a retrieval depends on: the session's documents, whether their embeddings are there,
      the index answer used if not, the topic test and the keyword look-ups. */
  datatype Request = Request(now: int, docs: seq<Doc>, embedded: bool, ann: seq<Cand>,
                             topical: string -> bool, tokens: seq<string>, lookup: string -> seq<Doc>)

  function NearOrAnn(dist: Doc -> real, r: Request): seq<Cand> {
    if r.embedded then NearPhase(r.now, dist, r.docs) else AnnPhase(r.now, r.ann)
  }

  function RestOfPhases(r: Request): seq<Cand> {
    TopicPhase(r.now, r.topical, r.docs) + KeywordPhase(r.now, r.lookup, FirstN(r.tokens, MAX_TOKENS))
  }

  function Phases(dist: Doc -> real, r: Request): seq<Cand> { NearOrAnn(dist, r) + RestOfPhases(r) }

  function ByTurn(cs: seq<Cand>): seq<Cand> { Sort((c: Cand) => c.doc.turnIndex as real, cs) }

  function Retrieved(fp: string -> string, dist: Doc -> real, r: Request): seq<Cand> {
    if r.docs == [] then [] else ByTurn(Dedup(fp, Phases(dist, r)))
  }

  /** Adds a candidate unless its fingerprint has been seen: the body all phases share. */
  method AddUnseen(fp: string -> string, turns: seq<Cand>, seen: set<string>, c: Cand, ghost sofar: seq<Cand>)
    returns (turns': seq<Cand>, seen': set<string>)
    requires turns == Dedup(fp, sofar) && forall p :: p in seen <==> HasPrint(fp, turns, p)
    ensures turns' == Dedup(fp, sofar + [c]) && forall p :: p in seen' <==> HasPrint(fp, turns', p)
    ensures |turns'| <= |turns| + 1
  {
    assert (sofar + [c])[..|sofar|] == sofar;
    var p := Print(fp, c);
    if p in seen {
      return turns, seen;
    }
    turns', seen' := turns + [c], seen + {p};
    forall q ensures q in seen' <==> HasPrint(fp, turns', q) {
      PrintsOfAppend(fp, turns, c, q);
    }
  }

  /** The scan over the ranked candidates, ended by the first one that is too far away. */
  method ScanRanked(fp: string -> string, ranked: seq<Cand>) returns (turns: seq<Cand>, seen: set<string>)
    requires SortedBy((c: Cand) => c.distance, ranked)
    ensures turns == Dedup(fp, Filter(Near, ranked))
    ensures forall p :: p in seen <==> HasPrint(fp, turns, p)
  {
    turns, seen := [], {};
    var key := (c: Cand) => c.distance;
    var i := 0;
    while i < |ranked|
      invariant 0 <= i <= |ranked|
      invariant turns == Dedup(fp, ranked[..i]) && forall j :: 0 <= j < i ==> Near(ranked[j])
      invariant forall p :: p in seen <==> HasPrint(fp, turns, p)
    {
      if ranked[i].distance > MAX_DISTANCE {
        forall j | i <= j < |ranked| ensures !Near(ranked[j]) {
          assert key(ranked[i]) <= key(ranked[j]);
        }
        FilterPrefix(ranked, i);
        return;
      }
      assert ranked[..i + 1] == ranked[..i] + [ranked[i]];
      turns, seen := AddUnseen(fp, turns, seen, ranked[i], ranked[..i]);
      i := i + 1;
    }
    FilterPrefix(ranked, i);
  }

  lemma FilterPrefix(cs: seq<Cand>, i: nat)
    requires i <= |cs|
    requires forall j :: 0 <= j < i ==> Near(cs[j])
    requires forall j :: i <= j < |cs| ==> !Near(cs[j])
    ensures Filter(Near, cs) == cs[..i]
  {
    assert cs == cs[..i] + cs[i..];
    FilterConcat(Near, cs[..i], cs[i..]);
    FilterAll(Near, cs[..i]);
    FilterNone(Near, cs[i..]);
  }

  /** A scan that adds every candidate of a list. */
  method AddAll(fp: string -> string, cs: seq<Cand>, turns: seq<Cand>, seen: set<string>, ghost sofar: seq<Cand>)
    returns (turns': seq<Cand>, seen': set<string>)
    requires turns == Dedup(fp, sofar) && forall p :: p in seen <==> HasPrint(fp, turns, p)
    ensures turns' == Dedup(fp, sofar + cs) && forall p :: p in seen' <==> HasPrint(fp, turns', p)
  {
    turns', seen' := turns, seen;
    assert sofar + cs[..0] == sofar;
    for i := 0 to |cs|
      invariant turns' == Dedup(fp, sofar + cs[..i])
      invariant forall p :: p in seen' <==> HasPrint(fp, turns', p)
    {
      assert sofar + cs[..i + 1] == (sofar + cs[..i]) + [cs[i]];
      turns', seen' := AddUnseen(fp, turns', seen', cs[i], sofar + cs[..i]);
    }
    assert cs[..|cs|] == cs;
  }

  /** Phase 1, ranked by distance, or filtered from the index answer without embeddings. */
  method FirstPhase(fp: string -> string, dist: Doc -> real, r: Request)
    returns (turns: seq<Cand>, seen: set<string>)
    ensures turns == Dedup(fp, NearOrAnn(dist, r)) && forall p :: p in seen <==> HasPrint(fp, turns, p)
  {
    if r.embedded {
      var cands := FreshCands(r.now, dist, r.docs);
      SortSorts((c: Cand) => c.distance, cands);
      turns, seen := ScanRanked(fp, ByDistance(cands));
    } else {
      turns, seen := AddAll(fp, AnnPhase(r.now, r.ann), [], {}, []);
      assert [] + AnnPhase(r.now, r.ann) == AnnPhase(r.now, r.ann);
    }
  }

  method KeywordScan(fp: string -> string, r: Request, tokens: seq<string>, turns: seq<Cand>, seen: set<string>,
                     ghost sofar: seq<Cand>)
    returns (turns': seq<Cand>, seen': set<string>)
    requires turns == Dedup(fp, sofar) && forall p :: p in seen <==> HasPrint(fp, turns, p)
    ensures turns' == Dedup(fp, sofar + KeywordPhase(r.now, r.lookup, tokens))
    ensures forall p :: p in seen' <==> HasPrint(fp, turns', p)
  {
    turns', seen' := turns, seen;
    assert sofar + KeywordPhase(r.now, r.lookup, tokens[..0]) == sofar;
    for i := 0 to |tokens|
      invariant turns' == Dedup(fp, sofar + KeywordPhase(r.now, r.lookup, tokens[..i]))
      invariant forall p :: p in seen' <==> HasPrint(fp, turns', p)
    {
      ghost var before := KeywordPhase(r.now, r.lookup, tokens[..i]);
      assert tokens[..i + 1][..i] == tokens[..i];
      if |tokens[i]| >= MIN_TOKEN {
        var hits := FreshCands(r.now, _ => 0.0, r.lookup(tokens[i]));
        assert (sofar + before) + hits == sofar + (before + hits);
        turns', seen' := AddAll(fp, hits, turns', seen', sofar + before);
      }
    }
    assert tokens[..|tokens|] == tokens;
  }

  method Retrieve(fp: string -> string, dist: Doc -> real, r: Request) returns (turns: seq<Cand>)
    ensures turns == Retrieved(fp, dist, r)
  {
    if r.docs == [] {
      return [];
    }
    var seen: set<string>;
    ghost var first := NearOrAnn(dist, r);
    var topics := TopicPhase(r.now, r.topical, r.docs);
    turns, seen := FirstPhase(fp, dist, r);
    turns, seen := AddAll(fp, topics, turns, seen, first);
    turns, seen := KeywordScan(fp, r, FirstN(r.tokens, MAX_TOKENS), turns, seen, first + topics);
    Regroup(first, topics, KeywordPhase(r.now, r.lookup, FirstN(r.tokens, MAX_TOKENS)));
    turns := ByTurn(turns);
  }

  // ------------------------------------------------------------ what a retrieval returns

  /** Within the distance limit, by the embeddings or, without them, by the answer of the index. */
  predicate InReach(dist: Doc -> real, r: Request, d: Doc) {
    if r.embedded then d in r.docs && dist(d) <= MAX_DISTANCE
    else exists k :: 0 <= k < |r.ann| && r.ann[k].doc == d && r.ann[k].distance <= MAX_DISTANCE
  }

  /** A document the caller should see: fresh, and near or topical. */
  predicate Relevant(dist: Doc -> real, r: Request, d: Doc) {
    Fresh(r.now, d) && (InReach(dist, r, d) || (d in r.docs && r.topical(d.content)))
  }

  predicate KeywordHit(r: Request, d: Doc) {
    Fresh(r.now, d)
    && exists i :: 0 <= i < Min(|r.tokens|, MAX_TOKENS) && |r.tokens[i]| >= MIN_TOKEN && d in r.lookup(r.tokens[i])
  }

  lemma {:induction false} KeywordPhaseMembers(now: int, lookup: string -> seq<Doc>, tokens: seq<string>)
    ensures forall c :: c in KeywordPhase(now, lookup, tokens)
              <==> (&& Fresh(now, c.doc) && c.distance == 0.0
                    && exists i :: 0 <= i < |tokens| && |tokens[i]| >= MIN_TOKEN && c.doc in lookup(tokens[i]))
  {
    if tokens != [] {
      var front, token := tokens[..|tokens| - 1], tokens[|tokens| - 1];
      KeywordPhaseMembers(now, lookup, front);
      FreshCandsMembers(now, _ => 0.0, lookup(token));
      forall c ensures c in KeywordPhase(now, lookup, tokens)
                 <==> (&& Fresh(now, c.doc) && c.distance == 0.0
                       && exists i :: 0 <= i < |tokens| && |tokens[i]| >= MIN_TOKEN && c.doc in lookup(tokens[i]))
      {
        if i :| 0 <= i < |tokens| && |tokens[i]| >= MIN_TOKEN && c.doc in lookup(tokens[i]) {
          assert i < |front| ==> front[i] == tokens[i];
        }
        if i :| 0 <= i < |front| && |front[i]| >= MIN_TOKEN && c.doc in lookup(front[i]) {
          assert tokens[i] == front[i];
        }
      }
    }
  }

  lemma NearPhaseMembers(now: int, dist: Doc -> real, docs: seq<Doc>)
    ensures forall c :: c in NearPhase(now, dist, docs)
              <==> c.doc in docs && Fresh(now, c.doc) && c.distance == dist(c.doc) <= MAX_DISTANCE
    ensures SortedBy((c: Cand) => c.distance, ByDistance(FreshCands(now, dist, docs)))
  {
    var cands := FreshCands(now, dist, docs);
    FreshCandsMembers(now, dist, docs);
    SortSorts((c: Cand) => c.distance, cands);
    SameMultisetSameMembers(ByDistance(cands), cands);
    FilterMembers(Near, ByDistance(cands));
  }

  lemma TopicPhaseMembers(now: int, topical: string -> bool, docs: seq<Doc>)
    ensures forall c :: c in TopicPhase(now, topical, docs)
              <==> c.doc in docs && Fresh(now, c.doc) && c.distance == 0.0 && topical(c.doc.content)
  {
    FreshCandsMembers(now, _ => 0.0, docs);
    FilterMembers((c: Cand) => topical(c.doc.content), FreshCands(now, _ => 0.0, docs));
  }

  lemma AnnPhaseMembers(now: int, hits: seq<Cand>)
    ensures forall c :: c in AnnPhase(now, hits) <==> c in hits && Fresh(now, c.doc) && c.distance <= MAX_DISTANCE
  {
    FilterMembers((c: Cand) => Fresh(now, c.doc) && Near(c), hits);
  }

  lemma FirstPhaseIsComplete(dist: Doc -> real, r: Request, d: Doc)
    ensures (exists c :: c in NearOrAnn(dist, r) && c.doc == d) <==> Fresh(r.now, d) && InReach(dist, r, d)
  {
    NearPhaseMembers(r.now, dist, r.docs);
    AnnPhaseMembers(r.now, r.ann);
    if Fresh(r.now, d) && InReach(dist, r, d) {
      if r.embedded {
        assert Cand(d, dist(d)) in NearOrAnn(dist, r);
      } else {
        var k :| 0 <= k < |r.ann| && r.ann[k].doc == d && r.ann[k].distance <= MAX_DISTANCE;
        assert r.ann[k] in NearOrAnn(dist, r);
      }
    }
  }

  lemma KeywordsAreComplete(r: Request, d: Doc)
    ensures Cand(d, 0.0) in KeywordPhase(r.now, r.lookup, FirstN(r.tokens, MAX_TOKENS)) <==> KeywordHit(r, d)
  {
    var tokens := FirstN(r.tokens, MAX_TOKENS);
    KeywordPhaseMembers(r.now, r.lookup, tokens);
    if KeywordHit(r, d) {
      var i :| 0 <= i < Min(|r.tokens|, MAX_TOKENS) && |r.tokens[i]| >= MIN_TOKEN && d in r.lookup(r.tokens[i]);
      assert tokens[i] == r.tokens[i];
    }
    if i :| 0 <= i < |tokens| && |tokens[i]| >= MIN_TOKEN && d in r.lookup(tokens[i]) {
      assert tokens[i] == r.tokens[i];
    }
  }

  /** Every candidate of the phases is a relevant document or a keyword hit, and the other way
      round: the early end of the ranked scan loses nothing. */
  lemma PhasesAreComplete(dist: Doc -> real, r: Request, d: Doc)
    ensures (exists c :: c in Phases(dist, r) && c.doc == d) <==> Relevant(dist, r, d) || KeywordHit(r, d)
  {
    hide NearOrAnn, KeywordHit, TopicPhase, KeywordPhase, InReach;
    var topics, hits := TopicPhase(r.now, r.topical, r.docs), KeywordPhase(r.now, r.lookup, FirstN(r.tokens, MAX_TOKENS));
    FirstPhaseIsComplete(dist, r, d);
    TopicPhaseMembers(r.now, r.topical, r.docs);
    KeywordPhaseMembers(r.now, r.lookup, FirstN(r.tokens, MAX_TOKENS));
    KeywordsAreComplete(r, d);
    assert forall c :: c in Phases(dist, r) <==> c in NearOrAnn(dist, r) || c in topics || c in hits;
    if Fresh(r.now, d) && InReach(dist, r, d) {
      var c :| c in NearOrAnn(dist, r) && c.doc == d;
      assert c in Phases(dist, r);
    }
    assert Cand(d, 0.0) in Phases(dist, r) <==>
             Cand(d, 0.0) in NearOrAnn(dist, r) || Cand(d, 0.0) in topics || Cand(d, 0.0) in hits;
    if c :| c in Phases(dist, r) && c.doc == d {
      assert c in hits ==> c == Cand(d, 0.0);
    }
  }

  lemma PermutedPrints(fp: string -> string, s: seq<Cand>, t: seq<Cand>)
    requires multiset(s) == multiset(t)
    ensures forall p :: HasPrint(fp, s, p) <==> HasPrint(fp, t, p)
    ensures DistinctPrints(fp, s) ==> DistinctPrints(fp, t)
  {
    SameMultisetSameMembers(s, t);
    forall p ensures HasPrint(fp, s, p) <==> HasPrint(fp, t, p) {
      if i :| 0 <= i < |s| && Print(fp, s[i]) == p {
        assert s[i] in t;
      }
      if i :| 0 <= i < |t| && Print(fp, t[i]) == p {
        assert t[i] in s;
      }
    }
    if DistinctPrints(fp, s) {
      assert Distinct(s);
      DistinctPermutation(s, t);
      forall i, j | 0 <= i < j < |t| ensures Print(fp, t[i]) != Print(fp, t[j]) {
        assert t[i] in s && t[j] in s;
        var a :| 0 <= a < |s| && s[a] == t[i];
        var b :| 0 <= b < |s| && s[b] == t[j];
        assert a < b || b < a;
      }
    }
  }

  /** The store filters the keyword look-ups and the index answer by the session. */
  ghost predicate StaysInSession(r: Request) {
    && (forall t, d :: d in r.lookup(t) ==> d in r.docs)
    && forall k :: 0 <= k < |r.ann| ==> r.ann[k].doc in r.docs
  }

  /** The document with this fingerprint that some phase is looking for. */
  ghost predicate Wanted(fp: string -> string, dist: Doc -> real, r: Request, p: string) {
    exists d :: (Relevant(dist, r, d) || KeywordHit(r, d)) && fp(FirstN(d.content, PRINT_PREFIX)) == p
  }

  /** A retrieval, with or without embeddings, returns, in turn order, one turn for every fingerprint of a
      relevant document or keyword hit, and nothing else; all of it belongs to the session. */
  lemma RetrievedIsExact(fp: string -> string, dist: Doc -> real, r: Request)
    requires r.docs != [] && StaysInSession(r)
    ensures forall c :: c in Retrieved(fp, dist, r) ==> c.doc in r.docs
    ensures SortedBy((c: Cand) => c.doc.turnIndex as real, Retrieved(fp, dist, r))
    ensures DistinctPrints(fp, Retrieved(fp, dist, r))
    ensures forall c :: c in Retrieved(fp, dist, r) ==>
              Fresh(r.now, c.doc) && (Relevant(dist, r, c.doc) || KeywordHit(r, c.doc))
    ensures forall p :: HasPrint(fp, Retrieved(fp, dist, r), p) <==> Wanted(fp, dist, r, p)
  {
    var cs := Phases(dist, r);
    var kept := Dedup(fp, cs);
    DedupMeaning(fp, cs);
    SortSorts((c: Cand) => c.doc.turnIndex as real, kept);
    PermutedPrints(fp, kept, ByTurn(kept));
    SameMultisetSameMembers(kept, ByTurn(kept));
    forall c | c in kept ensures Relevant(dist, r, c.doc) || KeywordHit(r, c.doc) {
      assert c in cs;
      PhasesAreComplete(dist, r, c.doc);
    }
    forall p ensures HasPrint(fp, cs, p) <==> Wanted(fp, dist, r, p) {
      if i :| 0 <= i < |cs| && Print(fp, cs[i]) == p {
        assert cs[i] in cs;
        PhasesAreComplete(dist, r, cs[i].doc);
      }
      if d :| (Relevant(dist, r, d) || KeywordHit(r, d)) && fp(FirstN(d.content, PRINT_PREFIX)) == p {
        PhasesAreComplete(dist, r, d);
        var c :| c in cs && c.doc == d;
        assert Print(fp, c) == p;
      }
    }
  }

  lemma {:induction false} DedupKeepsNearest(fp: string -> string, cs: seq<Cand>, c: Cand, k: Cand)
    requires SortedBy((c: Cand) => c.distance, cs)
    requires c in cs && k in Dedup(fp, cs) && Print(fp, k) == Print(fp, c)
    ensures k.distance <= c.distance
  {
    var init, last := cs[..|cs| - 1], cs[|cs| - 1];
    var front := Dedup(fp, init);
    var key := (c: Cand) => c.distance;
    assert cs == init + [last];
    DedupMeaning(fp, init);
    assert SortedBy(key, init);
    if c in init {
      assert HasPrint(fp, init, Print(fp, c));
      assert HasPrint(fp, front, Print(fp, c));
      assert k in front;
      DedupKeepsNearest(fp, init, c, k);
    } else {
      assert c == last && k in cs;
      var i :| 0 <= i < |cs| && cs[i] == k;
      assert key(cs[i]) <= key(cs[|cs| - 1]);
    }
  }

  lemma NearestRepresents(fp: string -> string, dist: Doc -> real, r: Request, k: Cand, d: Doc)
    requires r.embedded && r.docs != []
    requires k in Retrieved(fp, dist, r)
    requires d in r.docs && Fresh(r.now, d) && dist(d) <= MAX_DISTANCE
    requires Print(fp, k) == fp(FirstN(d.content, PRINT_PREFIX))
    ensures k.distance == dist(k.doc) <= dist(d)
  {
    var near := NearPhase(r.now, dist, r.docs);
    NearPhaseMembers(r.now, dist, r.docs);
    NearPhaseSorted(r.now, dist, r.docs);
    RetrievedMembers(fp, dist, r);
    var rest := RestOfPhases(r);
    assert k in Dedup(fp, near + rest);
    assert Cand(d, dist(d)) in near;
    PrefixRepresents(fp, near, rest, Cand(d, dist(d)), k);
  }

  lemma NearPhaseSorted(now: int, dist: Doc -> real, docs: seq<Doc>)
    ensures SortedBy((c: Cand) => c.distance, NearPhase(now, dist, docs))
  {
    SortSorts((c: Cand) => c.distance, FreshCands(now, dist, docs));
    FilterSorted((c: Cand) => c.distance, Near, ByDistance(FreshCands(now, dist, docs)));
  }

  lemma RetrievedMembers(fp: string -> string, dist: Doc -> real, r: Request)
    requires r.docs != []
    ensures forall k :: k in Retrieved(fp, dist, r) ==> k in Dedup(fp, NearOrAnn(dist, r) + RestOfPhases(r))
  {
    var kept := Dedup(fp, Phases(dist, r));
    SortSorts((c: Cand) => c.doc.turnIndex as real, kept);
    SameMultisetSameMembers(kept, ByTurn(kept));
  }

  /** The turn that represents a candidate of a ranked first phase comes from that phase and is at
      least as near. */
  lemma PrefixRepresents(fp: string -> string, near: seq<Cand>, rest: seq<Cand>, c: Cand, k: Cand)
    requires SortedBy((c: Cand) => c.distance, near)
    requires c in near && k in Dedup(fp, near + rest) && Print(fp, k) == Print(fp, c)
    ensures k in near && k.distance <= c.distance
  {
    var first, kept := Dedup(fp, near), Dedup(fp, near + rest);
    DedupExtends(fp, near, rest);
    DedupMeaning(fp, near);
    DedupMeaning(fp, near + rest);
    assert HasPrint(fp, near, Print(fp, c));
    var i :| 0 <= i < |first| && Print(fp, first[i]) == Print(fp, c);
    SamePrintSameTurn(fp, kept, i, k);
    assert k == first[i];
    DedupKeepsNearest(fp, near, c, k);
  }

  lemma SamePrintSameTurn(fp: string -> string, cs: seq<Cand>, i: nat, k: Cand)
    requires DistinctPrints(fp, cs) && i < |cs| && k in cs && Print(fp, k) == Print(fp, cs[i])
    ensures k == cs[i]
  {
    var j :| 0 <= j < |cs| && cs[j] == k;
    assert i < j || j < i || i == j;
  }

  lemma {:induction false} FilterSorted<T>(key: T -> real, p: T -> bool, s: seq<T>)
    requires SortedBy(key, s)
    ensures SortedBy(key, Filter(p, s))
  {
    if s != [] {
      FilterSorted(key, p, s[1..]);
      var rest := Filter(p, s[1..]);
      forall i | 0 <= i < |rest| ensures key(s[0]) <= key(rest[i]) {
        var j := FilterMember(p, s[1..], i);
        assert key(s[0]) <= key(s[j + 1]);
      }
    }
  }

  // ------------------------------------------------------------ other sessions

  const SCOPE_PRIVATE := "private"
  const SCOPE_TEAM := "team"
  const SCOPE_SHARED := "shared"

  datatype Caller = Caller(sessionId: string, userId: string, teamIds: seq<string>, scopes: set<string>)

  /** The documents of the store for one metadata query, without the current session and expired ones. */
  function Collected(now: int, caller: Caller, store: seq<Doc>, where: Doc -> bool): seq<Doc> {
    Filter((d: Doc) => where(d) && d.sessionId != caller.sessionId && Fresh(now, d), store)
  }

  function TeamDocs(now: int, caller: Caller, store: seq<Doc>, teams: seq<string>, scope: string): seq<Doc> {
    if teams == [] then []
    else
      TeamDocs(now, caller, store, teams[..|teams| - 1], scope)
      + Collected(now, caller, store, (d: Doc) => d.teamId == teams[|teams| - 1] && d.scope == scope)
  }

  function ReadableDocs(now: int, caller: Caller, store: seq<Doc>): seq<Doc> {
    (if SCOPE_PRIVATE in caller.scopes && caller.userId != ""
     then Collected(now, caller, store, (d: Doc) => d.userId == caller.userId && d.scope == SCOPE_PRIVATE) else [])
    + (if SCOPE_TEAM in caller.scopes then TeamDocs(now, caller, store, caller.teamIds, SCOPE_TEAM) else [])
    + (if SCOPE_SHARED in caller.scopes then TeamDocs(now, caller, store, caller.teamIds, SCOPE_SHARED) else [])
  }

  /** Who may read what: own private documents, and documents shared with one of the caller's
      teams in a scope the caller asked for; never the current session, never expired ones. */
  predicate MayRead(now: int, caller: Caller, d: Doc) {
    && d.sessionId != caller.sessionId
    && Fresh(now, d)
    && (|| (SCOPE_PRIVATE in caller.scopes && caller.userId != "" && d.userId == caller.userId && d.scope == SCOPE_PRIVATE)
        || (SCOPE_TEAM in caller.scopes && d.scope == SCOPE_TEAM && d.teamId in caller.teamIds)
        || (SCOPE_SHARED in caller.scopes && d.scope == SCOPE_SHARED && d.teamId in caller.teamIds))
  }

  lemma {:induction false} TeamDocsMembers(now: int, caller: Caller, store: seq<Doc>, teams: seq<string>, scope: string)
    ensures forall d :: d in TeamDocs(now, caller, store, teams, scope)
              <==> d in store && d.teamId in teams && d.scope == scope && d.sessionId != caller.sessionId && Fresh(now, d)
  {
    if teams != [] {
      var team := teams[|teams| - 1];
      TeamDocsMembers(now, caller, store, teams[..|teams| - 1], scope);
      var where := (d: Doc) => d.teamId == team && d.scope == scope;
      FilterMembers((d: Doc) => where(d) && d.sessionId != caller.sessionId && Fresh(now, d), store);
      assert teams == teams[..|teams| - 1] + [team];
    }
  }

  lemma ReadableDocsAreReadable(now: int, caller: Caller, store: seq<Doc>)
    ensures forall d :: d in ReadableDocs(now, caller, store) <==> d in store && MayRead(now, caller, d)
  {
    var where := (d: Doc) => d.userId == caller.userId && d.scope == SCOPE_PRIVATE;
    FilterMembers((d: Doc) => where(d) && d.sessionId != caller.sessionId && Fresh(now, d), store);
    TeamDocsMembers(now, caller, store, caller.teamIds, SCOPE_TEAM);
    TeamDocsMembers(now, caller, store, caller.teamIds, SCOPE_SHARED);
  }

  /** The readable documents that have an embedding, nearest first. */
  function CrossRanked(now: int, dist: Doc -> real, caller: Caller, store: seq<Doc>): seq<Cand> {
    ByDistance(FreshCands(now, dist, Filter((d: Doc) => d.embedding.Some?, ReadableDocs(now, caller, store))))
  }

  function CrossSession(fp: string -> string, now: int, dist: Doc -> real, caller: Caller, store: seq<Doc>, n: int): seq<Cand> {
    if caller.userId == "" || caller.scopes == {} then []
    else FirstN(Dedup(fp, Filter(Near, CrossRanked(now, dist, caller, store))), Max(0, n))
  }

  method RetrieveCrossSession(fp: string -> string, now: int, dist: Doc -> real, caller: Caller, store: seq<Doc>, n: int)
    returns (turns: seq<Cand>)
    ensures turns == CrossSession(fp, now, dist, caller, store, n)
  {
    if caller.userId == "" || caller.scopes == {} {
      return [];
    }
    var docs := ReadableDocs(now, caller, store);
    var ranked := ByDistance(FreshCands(now, dist, Filter((d: Doc) => d.embedding.Some?, docs)));
    turns := ScanCross(fp, now, dist, ranked, n, FreshCands(now, dist, Filter((d: Doc) => d.embedding.Some?, docs)));
  }

  /** The ranked scan of the other sessions also stops when enough turns have been found. */
  lemma NothingFound(fp: string -> string)
    ensures Dedup(fp, []) == [] && forall p :: !HasPrint(fp, [], p)
  {
  }

  method ScanCross(fp: string -> string, now: int, dist: Doc -> real, ranked: seq<Cand>, n: int, ghost cands: seq<Cand>)
    returns (turns: seq<Cand>)
    requires ranked == ByDistance(cands)
    ensures turns == FirstN(Dedup(fp, Filter(Near, ranked)), Max(0, n))
  {
    hide Dedup, Filter, HasPrint, FirstN;
    var key := (c: Cand) => c.distance;
    SortSorts(key, cands);
    NothingFound(fp);
    assert ranked[..0] == [];
    turns := [];
    var seen: set<string> := {};
    var i := 0;
    while i < |ranked|
      invariant 0 <= i <= |ranked|
      invariant turns == Dedup(fp, ranked[..i]) && |turns| <= Max(0, n)
      invariant forall j :: 0 <= j < i ==> Near(ranked[j])
      invariant forall p :: p in seen <==> HasPrint(fp, turns, p)
    {
      if ranked[i].distance > MAX_DISTANCE || |turns| >= n {
        CrossScanStops(fp, ranked, i, n);
        return;
      }
      assert ranked[..i + 1] == ranked[..i] + [ranked[i]];
      turns, seen := AddUnseen(fp, turns, seen, ranked[i], ranked[..i]);
      i := i + 1;
    }
    CrossScanStops(fp, ranked, i, n);
  }

  /** Stopping at a far candidate, at the end of the list, or with enough turns, the scan has the
      first turns of the whole list. */
  lemma CrossScanStops(fp: string -> string, ranked: seq<Cand>, i: nat, n: int)
    requires SortedBy((c: Cand) => c.distance, ranked) && i <= |ranked|
    requires forall j :: 0 <= j < i ==> Near(ranked[j])
    requires |Dedup(fp, ranked[..i])| <= Max(0, n)
    requires i == |ranked| || ranked[i].distance > MAX_DISTANCE || |Dedup(fp, ranked[..i])| >= n
    ensures Dedup(fp, ranked[..i]) == FirstN(Dedup(fp, Filter(Near, ranked)), Max(0, n))
  {
    if |Dedup(fp, ranked[..i])| >= n {
      EnoughTurns(fp, ranked, i, Max(0, n));
    } else {
      var key := (c: Cand) => c.distance;
      forall j | i <= j < |ranked| ensures !Near(ranked[j]) {
        assert key(ranked[i]) <= key(ranked[j]);
      }
      FilterPrefix(ranked, i);
    }
  }

  lemma EnoughTurns(fp: string -> string, ranked: seq<Cand>, i: nat, n: nat)
    requires i <= |ranked| && forall j :: 0 <= j < i ==> Near(ranked[j])
    requires |Dedup(fp, ranked[..i])| == n
    ensures Dedup(fp, ranked[..i]) == FirstN(Dedup(fp, Filter(Near, ranked)), n)
  {
    var near := Filter(Near, ranked);
    NearPrefix(ranked, i);
    assert near == near[..i] + near[i..];
    DedupExtends(fp, near[..i], near[i..]);
  }

  lemma NearPrefix(cs: seq<Cand>, i: nat)
    requires i <= |cs|
    requires forall j :: 0 <= j < i ==> Near(cs[j])
    ensures i <= |Filter(Near, cs)| && Filter(Near, cs)[..i] == cs[..i]
  {
    assert cs == cs[..i] + cs[i..];
    FilterConcat(Near, cs[..i], cs[i..]);
    FilterAll(Near, cs[..i]);
  }

  /** Privacy and quality of the cross-session answer: it is made of stored documents the caller may
      read, nearest first, one per fingerprint, at most n of them and none beyond the limit. */
  lemma CrossSessionIsPrivate(fp: string -> string, now: int, dist: Doc -> real, caller: Caller, store: seq<Doc>, n: int)
    ensures var r := CrossSession(fp, now, dist, caller, store, n);
            && |r| <= Max(0, n)
            && DistinctPrints(fp, r)
            && SortedBy((c: Cand) => c.distance, r)
            && forall c :: c in r ==>
                 c.doc in store && MayRead(now, caller, c.doc) && c.distance == dist(c.doc) <= MAX_DISTANCE
  {
    var near := Filter(Near, CrossRanked(now, dist, caller, store));
    CrossRankedMembers(now, dist, caller, store);
    DedupMeaning(fp, near);
    FilterSorted((c: Cand) => c.distance, Near, CrossRanked(now, dist, caller, store));
    DedupSorted(fp, near);
  }

  lemma CrossRankedMembers(now: int, dist: Doc -> real, caller: Caller, store: seq<Doc>)
    ensures SortedBy((c: Cand) => c.distance, CrossRanked(now, dist, caller, store))
    ensures forall c :: c in Filter(Near, CrossRanked(now, dist, caller, store))
              <==> (&& c.doc in store && MayRead(now, caller, c.doc) && c.doc.embedding.Some?
                    && c.distance == dist(c.doc) <= MAX_DISTANCE)
  {
    var readable := ReadableDocs(now, caller, store);
    var embedded := Filter((d: Doc) => d.embedding.Some?, readable);
    var cands := FreshCands(now, dist, embedded);
    ReadableDocsAreReadable(now, caller, store);
    FilterMembers((d: Doc) => d.embedding.Some?, readable);
    FreshCandsMembers(now, dist, embedded);
    SortSorts((c: Cand) => c.distance, cands);
    SameMultisetSameMembers(ByDistance(cands), cands);
    FilterMembers(Near, ByDistance(cands));
  }

  lemma {:induction false} DedupSorted(fp: string -> string, cs: seq<Cand>)
    requires SortedBy((c: Cand) => c.distance, cs)
    ensures SortedBy((c: Cand) => c.distance, Dedup(fp, cs))
  {
    if cs != [] {
      var init, last := cs[..|cs| - 1], cs[|cs| - 1];
      var key := (c: Cand) => c.distance;
      assert SortedBy(key, init);
      DedupSorted(fp, init);
      DedupMeaning(fp, init);
      var front := Dedup(fp, init);
      forall i | 0 <= i < |front| ensures key(front[i]) <= key(last) {
        var j :| 0 <= j < |init| && init[j] == front[i];
        assert key(cs[j]) <= key(cs[|cs| - 1]);
      }
    }
  }

  /** Nothing nearer is left out: a readable document within the limit is represented by a turn of
      its fingerprint, unless n turns that are all at least as near have been found. */
  lemma CrossSessionIsNearest(fp: string -> string, now: int, dist: Doc -> real, caller: Caller, store: seq<Doc>, n: int, d: Doc)
    requires caller.userId != "" && caller.scopes != {}
    requires d in store && MayRead(now, caller, d) && d.embedding.Some? && dist(d) <= MAX_DISTANCE
    ensures var r := CrossSession(fp, now, dist, caller, store, n);
            || HasPrint(fp, r, fp(FirstN(d.content, PRINT_PREFIX)))
            || (|r| == Max(0, n) && forall c :: c in r ==> c.distance <= dist(d))
  {
    CrossRankedMembers(now, dist, caller, store);
    var near := Filter(Near, CrossRanked(now, dist, caller, store));
    FilterSorted((c: Cand) => c.distance, Near, CrossRanked(now, dist, caller, store));
    assert Cand(d, dist(d)) in near;
    FirstAreNearest(fp, near, Max(0, n), Cand(d, dist(d)));
  }

  lemma FirstAreNearest(fp: string -> string, near: seq<Cand>, n: nat, c: Cand)
    requires SortedBy((c: Cand) => c.distance, near) && c in near
    ensures var r := FirstN(Dedup(fp, near), n);
            HasPrint(fp, r, Print(fp, c)) || (|r| == n && forall k :: k in r ==> k.distance <= c.distance)
  {
    var all := Dedup(fp, near);
    var r := FirstN(all, n);
    var key := (c: Cand) => c.distance;
    DedupMeaning(fp, near);
    assert HasPrint(fp, near, Print(fp, c));
    var i :| 0 <= i < |all| && Print(fp, all[i]) == Print(fp, c);
    DedupKeepsNearest(fp, near, c, all[i]);
    DedupSorted(fp, near);
    if i < |r| {
      assert r[i] == all[i];
    } else {
      forall j | 0 <= j < |r| ensures r[j].distance <= c.distance {
        assert key(all[j]) <= key(all[i]);
      }
    }
  }

  // ------------------------------------------------------------ merging both

  const CROSS_SESSION_N := 4

  /** The turns of the second list whose fingerprints the first list does not have, once each. */
  function NewTurns(fp: string -> string, merged: seq<Cand>, cross: seq<Cand>): seq<Cand> {
    if cross == [] then []
    else
      var front := NewTurns(fp, merged, cross[..|cross| - 1]);
      var last := cross[|cross| - 1];
      if HasPrint(fp, merged + front, Print(fp, last)) then front else front + [last]
  }

  /** Current turns first, all of them; then new cross-session turns while both caps allow. */
  function Merged(fp: string -> string, current: seq<Cand>, cross: seq<Cand>, nMax: int): seq<Cand> {
    var base := Dedup(fp, current);
    base + FirstN(NewTurns(fp, base, cross), Min(CROSS_SESSION_N, Max(0, nMax - |base|)))
  }

  /** The second pass: cross-session turns while both caps allow. */
  method AddCross(fp: string -> string, base: seq<Cand>, cross: seq<Cand>, nMax: int, seen0: set<string>)
    returns (merged: seq<Cand>)
    requires forall p :: p in seen0 <==> HasPrint(fp, base, p)
    ensures merged == base + FirstN(NewTurns(fp, base, cross), Min(CROSS_SESSION_N, Max(0, nMax - |base|)))
  {
    var seen, added := seen0, 0;
    ghost var room := Min(CROSS_SESSION_N, Max(0, nMax - |base|));
    merged := base;
    var i := 0;
    assert base + [] == base;
    while i < |cross|
      invariant 0 <= i <= |cross|
      invariant merged == base + NewTurns(fp, base, cross[..i]) && added == |NewTurns(fp, base, cross[..i])| <= room
      invariant forall p :: p in seen <==> HasPrint(fp, merged, p)
    {
      if added >= CROSS_SESSION_N || |merged| >= nMax {
        break;
      }
      assert cross[..i + 1][..i] == cross[..i];
      var p := Print(fp, cross[i]);
      if p !in seen {
        forall q ensures q in seen + {p} <==> HasPrint(fp, merged + [cross[i]], q) {
          PrintsOfAppend(fp, merged, cross[i], q);
        }
        seen, merged, added := seen + {p}, merged + [cross[i]], added + 1;
      }
      i := i + 1;
    }
    NewTurnsExtend(fp, base, cross, i);
    assert i == |cross| ==> cross[..i] == cross;
  }

  // ------------------------------------------------------------ what a merge returns, turn by turn

  /** The turn at i is the first of the list with its fingerprint. */
  ghost predicate FirstOf(fp: string -> string, cs: seq<Cand>, i: nat) {
    i < |cs| && forall j :: 0 <= j < i ==> Print(fp, cs[j]) != Print(fp, cs[i])
  }

  /** ... and the other list does not have it at all. */
  ghost predicate FirstNew(fp: string -> string, current: seq<Cand>, cross: seq<Cand>, i: nat) {
    FirstOf(fp, cross, i) && !HasPrint(fp, current, Print(fp, cross[i]))
  }

  lemma FirstOfFront(fp: string -> string, cs: seq<Cand>, i: nat)
    requires cs != []
    ensures i < |cs| - 1 ==> (FirstOf(fp, cs, i) <==> FirstOf(fp, cs[..|cs| - 1], i))
    ensures FirstOf(fp, cs, |cs| - 1) <==> !HasPrint(fp, cs[..|cs| - 1], Print(fp, cs[|cs| - 1]))
  {
    var front := cs[..|cs| - 1];
    if !FirstOf(fp, cs, |cs| - 1) {
      var j :| 0 <= j < |cs| - 1 && Print(fp, cs[j]) == Print(fp, cs[|cs| - 1]);
      assert front[j] == cs[j];
    }
  }

  /** Places in cs whose turns are taken, in order, exactly where a condition holds. */
  ghost predicate Firsts(fp: string -> string, cs: seq<Cand>, at: seq<nat>) {
    Ascending(at) && forall i: nat :: Has(at, i) <==> FirstOf(fp, cs, i)
  }

  ghost predicate NewFirsts(fp: string -> string, current: seq<Cand>, cs: seq<Cand>, at: seq<nat>) {
    Ascending(at) && forall i: nat :: Has(at, i) <==> FirstNew(fp, current, cs, i)
  }

  lemma {:induction false} NewTurnsPrints(fp: string -> string, base: seq<Cand>, cross: seq<Cand>, p: string)
    ensures HasPrint(fp, base + NewTurns(fp, base, cross), p) <==> HasPrint(fp, base, p) || HasPrint(fp, cross, p)
  {
    if cross == [] {
      assert base + [] == base;
    } else {
      var init, last := cross[..|cross| - 1], cross[|cross| - 1];
      var front := NewTurns(fp, base, init);
      NewTurnsPrints(fp, base, init, p);
      NewTurnsPrints(fp, base, init, Print(fp, last));
      assert cross == init + [last];
      PrintsOfAppend(fp, init, last, p);
      PrintsOfAppend(fp, base + front, last, p);
      assert base + (front + [last]) == (base + front) + [last];
    }
  }

  lemma HasAppended(at: seq<nat>, n: nat, i: nat)
    ensures Has(at + [n], i) <==> Has(at, i) || i == n
  {
    HasConcat(at, [n], i);
    HasOne(n, i);
  }

  lemma {:induction false} NewTurnsAt(fp: string -> string, base: seq<Cand>, cross: seq<Cand>) returns (at: seq<nat>)
    ensures TakenAt(NewTurns(fp, base, cross), cross, at) && NewFirsts(fp, base, cross, at)
  {
    if cross == [] {
      at := [];
    } else {
      var init, last := cross[..|cross| - 1], cross[|cross| - 1];
      var before := NewTurnsAt(fp, base, init);
      NewTurnsPrints(fp, base, init, Print(fp, last));
      at := if HasPrint(fp, base + NewTurns(fp, base, init), Print(fp, last)) then before else before + [|cross| - 1];
      NewFirstsOneMore(fp, base, cross, before);
      TakenInFront(NewTurns(fp, base, init), cross, before);
    }
  }

  lemma TakenInFront(r: seq<Cand>, cs: seq<Cand>, at: seq<nat>)
    requires cs != [] && TakenAt(r, cs[..|cs| - 1], at)
    ensures TakenAt(r, cs, at) && TakenAt(r + [cs[|cs| - 1]], cs, at + [|cs| - 1])
  {
  }

  lemma NewFirstsOneMore(fp: string -> string, base: seq<Cand>, cs: seq<Cand>, before: seq<nat>)
    requires cs != [] && NewFirsts(fp, base, cs[..|cs| - 1], before)
    ensures var last := Print(fp, cs[|cs| - 1]);
            NewFirsts(fp, base, cs,
                      if HasPrint(fp, base, last) || HasPrint(fp, cs[..|cs| - 1], last) then before
                      else before + [|cs| - 1])
  {
    hide FirstOf, HasPrint;
    var n := |cs| - 1;
    var last := Print(fp, cs[n]);
    var at := if HasPrint(fp, base, last) || HasPrint(fp, cs[..n], last) then before else before + [n];
    forall i: nat ensures Has(at, i) <==> FirstNew(fp, base, cs, i) {
      FirstOfFront(fp, cs, i);
      HasAppended(before, n, i);
      FirstOfBound(fp, cs[..n], i);
      FirstOfBound(fp, cs, i);
    }
    forall x | 0 <= x < |before| ensures before[x] < n {
      assert Has(before, before[x]);
      FirstOfBound(fp, cs[..n], before[x]);
    }
  }

  lemma FirstOfBound(fp: string -> string, cs: seq<Cand>, i: nat)
    ensures FirstOf(fp, cs, i) ==> i < |cs|
  {
  }

  /** The deduplicated current turns are new turns after nothing. */
  lemma {:induction false} DedupIsNew(fp: string -> string, cs: seq<Cand>)
    ensures Dedup(fp, cs) == NewTurns(fp, [], cs)
  {
    if cs != [] {
      DedupIsNew(fp, cs[..|cs| - 1]);
      assert [] + NewTurns(fp, [], cs[..|cs| - 1]) == NewTurns(fp, [], cs[..|cs| - 1]);
    }
  }

  lemma DedupAt(fp: string -> string, cs: seq<Cand>) returns (at: seq<nat>)
    ensures TakenAt(Dedup(fp, cs), cs, at) && Firsts(fp, cs, at)
  {
    DedupIsNew(fp, cs);
    at := NewTurnsAt(fp, [], cs);
    assert forall i: nat :: FirstNew(fp, [], cs, i) <==> FirstOf(fp, cs, i);
  }

  /** The result of a merge: the first current turn of every fingerprint, then cross-session turns,
      each the first of a fingerprint the current turns do not have, from the front of their list
      until a cap is reached. */
  ghost predicate IsMerge(fp: string -> string, current: seq<Cand>, cross: seq<Cand>, nMax: int, r: seq<Cand>,
                          own: seq<nat>, at: seq<nat>)
  {
    && |own| <= |r| && TakenAt(r[..|own|], current, own) && Firsts(fp, current, own)
    && TakenAt(r[|own|..], cross, at) && Ascending(at)
    && (forall x :: 0 <= x < |at| ==> FirstNew(fp, current, cross, at[x]))
    && |at| <= CROSS_SESSION_N && (at != [] ==> |r| <= nMax)
    && forall i: nat :: FirstNew(fp, current, cross, i) && !Has(at, i) ==>
         (|at| == CROSS_SESSION_N || |r| >= nMax) && forall x :: 0 <= x < |at| ==> at[x] < i
  }

  lemma PrefixOfPlaces(all: seq<nat>, m: nat, i: nat)
    requires Ascending(all) && m <= |all| && Has(all, i) && !Has(all[..m], i)
    ensures m < |all| && forall x :: 0 <= x < m ==> all[x] < i
  {
    var y :| 0 <= y < |all| && all[y] == i;
    HasPrefix(all, m, y);
  }

  lemma HasPrefix(all: seq<nat>, m: nat, y: nat)
    requires m <= |all| && y < |all|
    ensures y < m ==> Has(all[..m], all[y])
  {
    if y < m {
      assert all[..m][y] == all[y];
    }
  }

  lemma SamePrints(fp: string -> string, current: seq<Cand>, cross: seq<Cand>, i: nat)
    ensures FirstNew(fp, Dedup(fp, current), cross, i) <==> FirstNew(fp, current, cross, i)
  {
    DedupMeaning(fp, current);
  }

  lemma MergeIsExact(fp: string -> string, current: seq<Cand>, cross: seq<Cand>, nMax: int)
    returns (own: seq<nat>, at: seq<nat>)
    ensures IsMerge(fp, current, cross, nMax, Merged(fp, current, cross, nMax), own, at)
  {
    var base, r := Dedup(fp, current), Merged(fp, current, cross, nMax);
    own := DedupAt(fp, current);
    var all := NewTurnsAt(fp, base, cross);
    var added := NewTurns(fp, base, cross);
    var m := Min(|added|, Min(CROSS_SESSION_N, Max(0, nMax - |base|)));
    at := all[..m];
    assert r[..|base|] == base && r[|base|..] == added[..m];
    forall x | 0 <= x < |at| ensures FirstNew(fp, current, cross, at[x]) {
      assert Has(all, all[x]);
      SamePrints(fp, current, cross, at[x]);
    }
    forall i: nat | FirstNew(fp, current, cross, i) && !Has(at, i)
      ensures |at| == CROSS_SESSION_N || |r| >= nMax
      ensures forall x :: 0 <= x < |at| ==> at[x] < i
    {
      SamePrints(fp, current, cross, i);
      PrefixOfPlaces(all, m, i);
    }
  }

  /** While no cap is reached, every cross-session turn is represented. */
  lemma AllRepresented(fp: string -> string, current: seq<Cand>, cross: seq<Cand>, nMax: int, r: seq<Cand>,
                       own: seq<nat>, at: seq<nat>, k: nat)
    requires IsMerge(fp, current, cross, nMax, r, own, at)
    requires |at| < CROSS_SESSION_N && |r| < nMax && k < |cross|
    ensures HasPrint(fp, r, Print(fp, cross[k]))
  {
    var p := Print(fp, cross[k]);
    var i := FirstWith(fp, cross, k);
    if HasPrint(fp, current, p) {
      var a :| 0 <= a < |current| && Print(fp, current[a]) == p;
      var j := FirstWith(fp, current, a);
      var x :| 0 <= x < |own| && own[x] == j;
      assert Print(fp, r[..|own|][x]) == p;
      assert r[x] == r[..|own|][x];
    } else {
      assert Has(at, i);
      var x :| 0 <= x < |at| && at[x] == i;
      assert r[|own| + x] == r[|own|..][x] == cross[i];
    }
  }

  lemma {:induction false} FirstWith(fp: string -> string, cs: seq<Cand>, k: nat) returns (i: nat)
    requires k < |cs|
    ensures FirstOf(fp, cs, i) && Print(fp, cs[i]) == Print(fp, cs[k])
  {
    if FirstOf(fp, cs, k) {
      i := k;
    } else {
      var j :| 0 <= j < k && Print(fp, cs[j]) == Print(fp, cs[k]);
      i := FirstWith(fp, cs, j);
    }
  }

  /** `own` and `at` say where the turns of the result come from. */
  method MergeSessionResults(fp: string -> string, current: seq<Cand>, cross: seq<Cand>, nMax: int)
    returns (merged: seq<Cand>, ghost own: seq<nat>, ghost at: seq<nat>)
    ensures IsMerge(fp, current, cross, nMax, merged, own, at)
    ensures |at| < CROSS_SESSION_N && |merged| < nMax ==>
              forall k :: 0 <= k < |cross| ==> HasPrint(fp, merged, Print(fp, cross[k]))
    ensures merged == Merged(fp, current, cross, nMax)
  {
    var base, seen := AddAll(fp, current, [], {}, []);
    assert [] + current == current;
    merged := AddCross(fp, base, cross, nMax, seen);
    own, at := MergeIsExact(fp, current, cross, nMax);
    if |at| < CROSS_SESSION_N && |merged| < nMax {
      forall k | 0 <= k < |cross| ensures HasPrint(fp, merged, Print(fp, cross[k])) {
        AllRepresented(fp, current, cross, nMax, merged, own, at, k);
      }
    }
  }

  lemma {:induction false} NewTurnsExtend(fp: string -> string, merged: seq<Cand>, cross: seq<Cand>, i: nat)
    requires i <= |cross|
    ensures NewTurns(fp, merged, cross[..i]) <= NewTurns(fp, merged, cross)
  {
    if i == |cross| {
      assert cross[..i] == cross;
    } else {
      NewTurnsExtend(fp, merged, cross[..|cross| - 1], i);
      assert cross[..|cross| - 1][..i] == cross[..i];
    }
  }

  lemma {:induction false} NewTurnsAreNew(fp: string -> string, merged: seq<Cand>, cross: seq<Cand>)
    requires DistinctPrints(fp, merged)
    ensures DistinctPrints(fp, merged + NewTurns(fp, merged, cross))
  {
    if cross == [] {
      assert merged + [] == merged;
    } else {
      NewTurnsAreNew(fp, merged, cross[..|cross| - 1]);
      var all := merged + NewTurns(fp, merged, cross[..|cross| - 1]);
      var last := cross[|cross| - 1];
      if !HasPrint(fp, all, Print(fp, last)) {
        assert merged + NewTurns(fp, merged, cross) == all + [last];
        assert forall i :: 0 <= i < |all| ==> Print(fp, all[i]) != Print(fp, last);
      }
    }
  }

  /** Merging never displaces a current turn, repeats no fingerprint and adds at most four turns of
      other sessions. The result respects the overall cap exactly when the current turns alone do. */
  lemma MergeMeaning(fp: string -> string, current: seq<Cand>, cross: seq<Cand>, nMax: int)
    ensures Dedup(fp, current) <= Merged(fp, current, cross, nMax)
    ensures forall p :: HasPrint(fp, current, p) ==> HasPrint(fp, Merged(fp, current, cross, nMax), p)
    ensures DistinctPrints(fp, Merged(fp, current, cross, nMax))
    ensures |Merged(fp, current, cross, nMax)| <= |Dedup(fp, current)| + CROSS_SESSION_N
    ensures |Merged(fp, current, cross, nMax)| <= nMax <==> |Dedup(fp, current)| <= nMax
  {
    var base := Dedup(fp, current);
    var r := Merged(fp, current, cross, nMax);
    DedupMeaning(fp, current);
    NewTurnsAreNew(fp, base, cross);
    var all := base + NewTurns(fp, base, cross);
    assert r == all[..|r|];
    forall p | HasPrint(fp, current, p) ensures HasPrint(fp, r, p) {
      assert HasPrint(fp, base, p);
      var i :| 0 <= i < |base| && Print(fp, base[i]) == p;
      assert r[i] == base[i];
    }
  }
}

/** The bounded embedding cache: identical texts are embedded once, and the oldest entry is
    dropped when the cache is full. `keys` is the insertion order of the dictionary. */
module EmbeddingCache {
  import opened Prelude

  const CACHE_MAX := 4096

  // ------------------------------------------------------------ the order of the keys

  /** Storing one text: a full cache first loses its oldest key; a known key keeps its place. */
  function StoreKey(cap: nat, keys: seq<string>, t: string): seq<string> {
    var rest := if |keys| >= cap && keys != [] then keys[1..] else keys;
    if t in rest then rest else rest + [t]
  }

  function StoreKeys(cap: nat, keys: seq<string>, ts: seq<string>): seq<string> {
    if ts == [] then keys else StoreKey(cap, StoreKeys(cap, keys, ts[..|ts| - 1]), ts[|ts| - 1])
  }

  function Missing(keys: seq<string>, texts: seq<string>): seq<string> {
    Filter((t: string) => t !in keys, texts)
  }

  /** The call can answer: after storing the misses every requested text is cached. */
  predicate Answers(cap: nat, keys: seq<string>, texts: seq<string>) {
    forall t :: t in texts ==> t in StoreKeys(cap, keys, Missing(keys, texts))
  }

  lemma {:induction false} StoreKeepsOrder(cap: nat, keys: seq<string>, ts: seq<string>)
    requires 1 <= cap && Distinct(keys) && |keys| <= cap
    ensures Distinct(StoreKeys(cap, keys, ts)) && |StoreKeys(cap, keys, ts)| <= cap
  {
    if ts != [] {
      StoreKeepsOrder(cap, keys, ts[..|ts| - 1]);
    }
  }

  /** While everything fits nothing is dropped. */
  lemma {:induction false} NothingDropped(cap: nat, keys: seq<string>, ts: seq<string>)
    requires |keys| + |ts| <= cap
    ensures forall t :: t in StoreKeys(cap, keys, ts) <==> t in keys || t in ts
    ensures |StoreKeys(cap, keys, ts)| <= |keys| + |ts|
  {
    if ts != [] {
      var front := ts[..|ts| - 1];
      NothingDropped(cap, keys, front);
      assert ts == front + [ts[|ts| - 1]];
    }
  }

  /** A call whose misses (repetitions counted) fit beside the cached texts always answers. */
  lemma FittingCallAnswers(cap: nat, keys: seq<string>, texts: seq<string>)
    requires |keys| + |Missing(keys, texts)| <= cap
    ensures Answers(cap, keys, texts)
  {
    NothingDropped(cap, keys, Missing(keys, texts));
    FilterMembers((t: string) => t !in keys, texts);
  }

  // ------------------------------------------------------------ when a call answers

  /** The different texts of a list, in the order of their first occurrence. */
  function Different(ts: seq<string>): seq<string> {
    if ts == [] then []
    else
      var d := Different(ts[..|ts| - 1]);
      if ts[|ts| - 1] in d then d else d + [ts[|ts| - 1]]
  }

  lemma {:induction false} DifferentMembers(ts: seq<string>)
    ensures Distinct(Different(ts))
    ensures forall t :: t in Different(ts) <==> t in ts
  {
    if ts != [] {
      var front := ts[..|ts| - 1];
      DifferentMembers(front);
      assert ts == front + [ts[|ts| - 1]];
    }
  }

  predicate EndsInRepetition(ts: seq<string>) {
    ts != [] && ts[|ts| - 1] in ts[..|ts| - 1]
  }

  /** How many of the oldest keys are dropped: the different misses take their places, and a
      repetition at the end leaves one place free. */
  function Dropped(cap: nat, k: nat, ms: seq<string>): nat {
    Max(0, k + |Different(ms)| - cap + if EndsInRepetition(ms) then 1 else 0)
  }

  /** Storing misses that leave room in the cache, or whose last one fills it. */
  lemma {:induction false} StoredKeys(cap: nat, keys: seq<string>, ms: seq<string>)
    requires |keys| <= cap && forall t :: t in ms ==> t !in keys
    requires |Different(ms)| < cap || (|Different(ms)| == cap && !EndsInRepetition(ms))
    ensures Dropped(cap, |keys|, ms) <= |keys|
    ensures StoreKeys(cap, keys, ms) == (keys + Different(ms))[Dropped(cap, |keys|, ms)..]
  {
    if ms == [] {
      assert keys + [] == keys;
    } else {
      var front, t := ms[..|ms| - 1], ms[|ms| - 1];
      assert ms == front + [t];
      DifferentMembers(front);
      StoredKeys(cap, keys, front);
      StoreAfter(cap, keys, front, t);
    }
  }

  lemma StoreAfter(cap: nat, keys: seq<string>, front: seq<string>, t: string)
    requires |keys| <= cap && t !in keys && forall x :: x in Different(front) <==> x in front
    requires |Different(front)| < cap
    requires Dropped(cap, |keys|, front) <= |keys|
    ensures Dropped(cap, |keys|, front + [t]) <= |keys|
    ensures StoreKey(cap, (keys + Different(front))[Dropped(cap, |keys|, front)..], t)
         == (keys + Different(front + [t]))[Dropped(cap, |keys|, front + [t])..]
  {
    var d, ms := Different(front), front + [t];
    assert ms[..|ms| - 1] == front;
    var k, k' := Dropped(cap, |keys|, front), Dropped(cap, |keys|, ms);
    if t in front {
      assert k' == if |keys + d| - k >= cap then k + 1 else k;
      StoreRepeated(cap, keys, d, k, t);
    } else {
      assert k' == if |keys + d| - k >= cap then k + 1 else k;
      assert keys + (d + [t]) == keys + d + [t];
      StoreNew(cap, keys + d, k, t);
    }
  }

  lemma StoreRepeated(cap: nat, keys: seq<string>, d: seq<string>, k: nat, t: string)
    requires k <= |keys| && t in d && (|keys + d| - k >= cap ==> k < |keys|)
    ensures StoreKey(cap, (keys + d)[k..], t) == (keys + d)[if |keys + d| - k >= cap then k + 1 else k..]
  {
    assert (keys + d)[k..] == keys[k..] + d;
    if k < |keys| {
      assert (keys + d)[k + 1..] == keys[k + 1..] + d;
    }
  }

  lemma StoreNew(cap: nat, all: seq<string>, k: nat, t: string)
    requires k <= |all| && t !in all && 1 <= cap
    ensures StoreKey(cap, all[k..], t) == (all + [t])[if |all| - k >= cap then k + 1 else k..]
  {
    assert forall x :: x in all[k..] ==> x in all;
    if |all| - k >= cap {
      assert all[k..][1..] == all[k + 1..];
      assert (all + [t])[k + 1..] == all[k + 1..] + [t];
    } else {
      assert (all + [t])[k..] == all[k..] + [t];
    }
  }

  /** Whose turn it is to be dropped, as a position in q, while the texts of a full cache q are
      stored again: the turn passes on when that very text is stored. */
  function Turn(q: seq<string>, rs: seq<string>): (h: nat)
    requires q != []
    ensures h < |q|
  {
    if rs == [] then 0
    else
      var h := Turn(q, rs[..|rs| - 1]);
      if rs[|rs| - 1] == q[h] then (if h + 1 == |q| then 0 else h + 1) else h
  }

  /** The last of the repetitions, if there is one, is of the text whose turn it is. */
  predicate EndsInTurn(q: seq<string>, rs: seq<string>)
    requires q != []
  {
    rs == [] || rs[|rs| - 1] == q[Turn(q, rs[..|rs| - 1])]
  }

  function Rotated(q: seq<string>, h: nat): seq<string>
    requires h < |q|
  {
    q[h..] + q[..h]
  }

  lemma {:induction false} FullCacheTurns(q: seq<string>, rs: seq<string>)
    requires q != [] && Distinct(q) && forall t :: t in rs ==> t in q
    ensures StoreKeys(|q|, q, rs)
         == if EndsInTurn(q, rs) then Rotated(q, Turn(q, rs)) else Rotated(q, Turn(q, rs))[1..]
  {
    if rs != [] {
      var front, t := rs[..|rs| - 1], rs[|rs| - 1];
      assert rs == front + [t] && t in rs;
      FullCacheTurns(q, front);
      TurnStep(q, Turn(q, front), t);
    }
  }

  lemma TurnStep(q: seq<string>, h: nat, t: string)
    requires h < |q| && Distinct(q) && t in q
    ensures t != q[h] ==> StoreKey(|q|, Rotated(q, h), t) == Rotated(q, h)[1..] == StoreKey(|q|, Rotated(q, h)[1..], t)
    ensures t == q[h] ==>
              var next := Rotated(q, if h + 1 == |q| then 0 else h + 1);
              StoreKey(|q|, Rotated(q, h), t) == next == StoreKey(|q|, Rotated(q, h)[1..], t)
  {
    var rest := Rotated(q, h)[1..];
    assert rest == q[h + 1..] + q[..h];
    if t == q[h] {
      assert t !in rest;
      assert rest + [t] == Rotated(q, if h + 1 == |q| then 0 else h + 1);
    } else {
      var i :| 0 <= i < |q| && q[i] == t;
      assert i < h ==> t == q[..h][i];
      assert i > h ==> t == q[h + 1..][i - h - 1];
    }
  }

  /** The misses up to the last new one, and the repetitions behind it. */
  function LastNew(ms: seq<string>): (n: nat)
    ensures n <= |ms|
  {
    if EndsInRepetition(ms) then LastNew(ms[..|ms| - 1]) else |ms|
  }

  lemma {:induction false} LastNewSplits(ms: seq<string>)
    ensures var n := LastNew(ms);
            && !EndsInRepetition(ms[..n]) && Different(ms[..n]) == Different(ms)
            && forall t :: t in ms[n..] ==> t in Different(ms)
  {
    DifferentMembers(ms);
    if EndsInRepetition(ms) {
      var front := ms[..|ms| - 1];
      assert ms == front + [ms[|ms| - 1]];
      LastNewSplits(front);
      DifferentMembers(front);
      assert front[..LastNew(ms)] == ms[..LastNew(ms)];
      assert ms[LastNew(ms)..] == front[LastNew(ms)..] + [ms[|ms| - 1]];
    } else {
      assert ms[..|ms|] == ms;
    }
  }

  lemma {:induction false} StoreKeysConcat(cap: nat, keys: seq<string>, a: seq<string>, b: seq<string>)
    ensures StoreKeys(cap, keys, a + b) == StoreKeys(cap, StoreKeys(cap, keys, a), b)
  {
    hide StoreKey;
    if b == [] {
      assert a + b == a;
    } else {
      var all := a + b;
      assert all[..|all| - 1] == a + b[..|b| - 1] && all[|all| - 1] == b[|b| - 1];
      StoreKeysConcat(cap, keys, a, b[..|b| - 1]);
    }
  }

  /** What a caller has to check: whether the needed texts survive storing the misses. With fewer
      different misses than the cache holds, no requested text may be among the oldest keys that
      are dropped. If they fill the cache exactly, no cached text may be requested, and the
      repetitions behind the last new miss have to end in turn. More of them never fit. */
  predicate NeededSurvive(cap: nat, keys: seq<string>, ms: seq<string>, texts: seq<string>) {
    var d := Different(ms);
    if |d| < cap then forall i :: 0 <= i < Dropped(cap, |keys|, ms) && i < |keys| ==> keys[i] !in texts
    else |d| == cap && d != [] && (forall t :: t in keys ==> t !in texts) && EndsInTurn(d, ms[LastNew(ms)..])
  }

  lemma RoomLeft(cap: nat, keys: seq<string>, ms: seq<string>, texts: seq<string>)
    requires |keys| <= cap && |Different(ms)| < cap && Distinct(keys)
    requires forall t :: t in ms ==> t !in keys && t in texts
    requires forall t :: t in texts ==> t in keys || t in ms
    ensures (forall t :: t in texts ==> t in StoreKeys(cap, keys, ms)) <==> NeededSurvive(cap, keys, ms, texts)
  {
    var d, k := Different(ms), Dropped(cap, |keys|, ms);
    DifferentMembers(ms);
    StoredKeys(cap, keys, ms);
    var stored := StoreKeys(cap, keys, ms);
    assert stored == keys[k..] + d;
    if forall i :: 0 <= i < k ==> keys[i] !in texts {
      forall t | t in texts ensures t in stored {
        if t in keys {
          var i :| 0 <= i < |keys| && keys[i] == t;
          assert keys[k..][i - k] == t;
        }
      }
    } else {
      var i :| 0 <= i < k && keys[i] in texts;
      assert keys[i] !in keys[k..];
      assert keys[i] in keys;
    }
  }

  lemma RotatedMembers(q: seq<string>, h: nat)
    requires h < |q| && Distinct(q)
    ensures forall t :: t in Rotated(q, h) <==> t in q
    ensures q[h] !in Rotated(q, h)[1..]
  {
    assert Rotated(q, h)[1..] == q[h + 1..] + q[..h];
  }

  lemma ExactlyFull(cap: nat, keys: seq<string>, ms: seq<string>, texts: seq<string>)
    requires 1 <= cap && |keys| <= cap && |Different(ms)| == cap
    requires forall t :: t in ms ==> t !in keys && t in texts
    requires forall t :: t in texts ==> t in keys || t in ms
    ensures (forall t :: t in texts ==> t in StoreKeys(cap, keys, ms)) <==> NeededSurvive(cap, keys, ms, texts)
  {
    hide Different, StoreKeys, Rotated, LastNew, Turn, EndsInTurn;
    var d, rs := Different(ms), ms[LastNew(ms)..];
    var h := Turn(d, rs);
    DifferentMembers(ms);
    FullStored(cap, keys, ms);
    RotatedMembers(d, h);
    if EndsInTurn(d, rs) {
      forall t | t in keys && t in texts ensures t !in StoreKeys(cap, keys, ms) {
        assert t !in ms;
      }
    } else {
      assert d[h] in d && d[h] in ms;
    }
  }

  lemma FullStored(cap: nat, keys: seq<string>, ms: seq<string>)
    requires 1 <= cap && |keys| <= cap && |Different(ms)| == cap
    requires forall t :: t in ms ==> t !in keys
    ensures var d, rs := Different(ms), ms[LastNew(ms)..];
            StoreKeys(cap, keys, ms)
              == if EndsInTurn(d, rs) then Rotated(d, Turn(d, rs)) else Rotated(d, Turn(d, rs))[1..]
  {
    var d, n := Different(ms), LastNew(ms);
    DifferentMembers(ms);
    LastNewSplits(ms);
    assert ms == ms[..n] + ms[n..];
    StoredKeys(cap, keys, ms[..n]);
    assert (keys + d)[|keys|..] == d;
    StoreKeysConcat(cap, keys, ms[..n], ms[n..]);
    FullCacheTurns(d, ms[n..]);
  }

  lemma TooMany(cap: nat, keys: seq<string>, ms: seq<string>)
    requires 1 <= cap && |keys| <= cap && Distinct(keys) && |Different(ms)| > cap
    ensures exists t :: t in ms && t !in StoreKeys(cap, keys, ms)
  {
    var d, stored := Different(ms), StoreKeys(cap, keys, ms);
    DifferentMembers(ms);
    StoreKeepsOrder(cap, keys, ms);
    MembersCount(d);
    MembersCount(stored);
    if forall t :: t in ms ==> t in stored {
      SubsetCount(set t | t in d, set t | t in stored);
      assert false;
    }
  }

  /** For every call, repetitions included, the answer exists exactly when the needed texts survive. */
  lemma CallIsExact(cap: nat, keys: seq<string>, texts: seq<string>)
    requires 1 <= cap && |keys| <= cap && Distinct(keys)
    ensures Answers(cap, keys, texts) <==> NeededSurvive(cap, keys, Missing(keys, texts), texts)
  {
    var ms := Missing(keys, texts);
    FilterMembers((t: string) => t !in keys, texts);
    if |Different(ms)| < cap {
      RoomLeft(cap, keys, ms, texts);
    } else if |Different(ms)| == cap {
      ExactlyFull(cap, keys, ms, texts);
    } else {
      TooMany(cap, keys, ms);
    }
  }

  /** Repeating a new text in one call can push out an entry the same call needs, although the
      different texts would fit: the call then fails. */
  lemma RepeatedMissCanFail(cap: nat, keys: seq<string>, fresh1: string)
    requires 2 <= cap && |keys| == cap - 1 && Distinct(keys) && fresh1 !in keys
    ensures !Answers(cap, keys, [keys[0], fresh1, fresh1])
    ensures Answers(cap, keys, [keys[0], fresh1])
  {
    var twice, once := [keys[0], fresh1, fresh1], [keys[0], fresh1];
    assert twice[1..] == [fresh1, fresh1] && once[1..] == [fresh1] == [fresh1, fresh1][1..];
    assert Missing(keys, [fresh1]) == [fresh1];
    assert Missing(keys, twice) == Missing(keys, [fresh1, fresh1]) == [fresh1, fresh1];
    assert Missing(keys, once) == [fresh1];
    assert [fresh1, fresh1][..1] == [fresh1] && [fresh1][..0] == [];
    assert Different([fresh1]) == [fresh1];
    assert Different([fresh1, fresh1]) == [fresh1];
    assert keys[0] in twice;
    CallIsExact(cap, keys, twice);
    CallIsExact(cap, keys, once);
  }

  // ------------------------------------------------------------ the cache object

  class Cache<V> {
    const cap: nat
    const embed: string -> V
    var keys: seq<string>
    var vals: map<string, V>

    /** Never over the cap, and every cached value is the embedding of its text. */
    ghost predicate Valid()
      reads this
    {
      && 1 <= cap && |keys| <= cap && Distinct(keys)
      && (forall t :: t in keys <==> t in vals)
      && (forall t :: t in vals ==> vals[t] == embed(t))
    }

    constructor (embed: string -> V, cap: nat := CACHE_MAX)
      requires 1 <= cap
      ensures Valid() && keys == [] && this.cap == cap && this.embed == embed
    {
      this.cap, this.embed := cap, embed;
      keys, vals := [], map[];
    }

    method StoreOne(t: string, v: V)
      requires Valid() && v == embed(t)
      modifies this
      ensures Valid() && keys == StoreKey(cap, old(keys), t)
    {
      if |keys| >= cap {
        var oldest := keys[0];
        keys := keys[1..];
        vals := vals - {oldest};
      }
      if t !in vals {
        keys := keys + [t];
      }
      vals := vals[t := v];
    }

    /** Embeds the misses and stores them one by one. */
    method StoreMissing(missing: seq<string>)
      requires Valid()
      modifies this
      ensures Valid() && keys == StoreKeys(cap, old(keys), missing)
    {
      var i := 0;
      while i < |missing|
        invariant 0 <= i <= |missing|
        invariant Valid() && keys == StoreKeys(cap, old(keys), missing[..i])
      {
        StoreOne(missing[i], embed(missing[i]));
        assert missing[..i + 1][..i] == missing[..i];
        i := i + 1;
      }
      assert missing[..i] == missing;
    }

    /** Looks all texts up; None stands for the missing-key error. */
    method LookUp(texts: seq<string>) returns (r: Option<seq<V>>)
      requires Valid()
      ensures r.Some? <==> forall t :: t in texts ==> t in keys
      ensures r.Some? ==> |r.value| == |texts| && forall i :: 0 <= i < |texts| ==> r.value[i] == embed(texts[i])
    {
      var out: seq<V> := [];
      var i := 0;
      while i < |texts|
        invariant 0 <= i <= |texts|
        invariant |out| == i && forall j :: 0 <= j < i ==> texts[j] in keys && out[j] == embed(texts[j])
      {
        if texts[i] !in vals {
          assert texts[i] in texts;
          return None;
        }
        out := out + [vals[texts[i]]];
        i := i + 1;
      }
      return Some(out);
    }

    /** Serves cached texts and embeds the misses. */
    method Call(texts: seq<string>) returns (r: Option<seq<V>>)
      requires Valid()
      modifies this
      ensures Valid() && keys == StoreKeys(cap, old(keys), Missing(old(keys), texts))
      ensures r.Some? <==> Answers(cap, old(keys), texts)
      ensures r.Some? ==> |r.value| == |texts| && forall i :: 0 <= i < |texts| ==> r.value[i] == embed(texts[i])
    {
      StoreMissing(Missing(keys, texts));
      r := LookUp(texts);
    }
  }
}

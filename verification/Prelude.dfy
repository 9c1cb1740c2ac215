/** Sequence vocabulary shared by the models: optional values, order-preserving
    filtering, slices counted from the end, and the stable sort that stands for
    Python's `sorted`/`list.sort`. */
module Prelude {

  datatype Option<+T> = None | Some(value: T)

  function Min(a: int, b: int): int { if a <= b then a else b }

  function Max(a: int, b: int): int { if a >= b then a else b }

  // ---------------------------------------------------------------- slices

  /** `s[-n:]` for n >= 1 (and the empty sequence for n == 0). */
  function LastN<T>(s: seq<T>, n: nat): seq<T> {
    if n <= |s| then s[|s| - n..] else s
  }

  lemma LastNBehind<T>(s: seq<T>, t: seq<T>, n: nat)
    ensures LastN(s + t, n) == if |t| >= n then LastN(t, n) else LastN(s, n - |t|) + t
  {
  }

  /** `s[:n]` for n >= 0. */
  function FirstN<T>(s: seq<T>, n: nat): seq<T> {
    if n <= |s| then s[..n] else s
  }

  /** `s[a:b]` for 0 <= a <= b: bounds beyond the end are clipped. */
  function Slice<T>(s: seq<T>, a: nat, b: nat): seq<T>
    requires a <= b
  {
    FirstN(s, b)[Min(a, |FirstN(s, b)|)..]
  }

  lemma SliceOfPrefix<T>(s: seq<T>, t: seq<T>, a: nat, b: nat)
    requires a <= b
    requires FirstN(s, b) == FirstN(t, b)
    ensures Slice(s, a, b) == Slice(t, a, b)
  {
  }

  lemma Regroup<T>(a: seq<T>, b: seq<T>, c: seq<T>)
    ensures (a + b) + c == a + (b + c)
  {
  }

  lemma Glue<T>(a: seq<T>, b: seq<T>, c: seq<T>, d: seq<T>)
    ensures a + b + c + d == a + (b + (c + d))
  {
  }

  function Reverse<T>(s: seq<T>): (r: seq<T>)
    ensures |r| == |s|
    ensures forall i :: 0 <= i < |s| ==> r[i] == s[|s| - 1 - i]
  {
    if s == [] then [] else Reverse(s[1..]) + [s[0]]
  }

  lemma ReverseConcat<T>(s: seq<T>, t: seq<T>)
    ensures Reverse(s + t) == Reverse(t) + Reverse(s)
  {
  }

  // ---------------------------------------------------------------- filtering

  function Filter<T>(p: T -> bool, s: seq<T>): (r: seq<T>)
    ensures |r| <= |s|
    ensures forall i :: 0 <= i < |r| ==> p(r[i])
  {
    if s == [] then []
    else if p(s[0]) then [s[0]] + Filter(p, s[1..])
    else Filter(p, s[1..])
  }

  lemma {:induction false} FilterMembers<T>(p: T -> bool, s: seq<T>)
    ensures forall x :: x in Filter(p, s) <==> x in s && p(x)
  {
    if s != [] {
      FilterMembers(p, s[1..]);
      assert forall x :: x in s <==> x == s[0] || x in s[1..];
    }
  }

  lemma {:induction false} FilterMember<T>(p: T -> bool, s: seq<T>, i: nat) returns (j: nat)
    requires i < |Filter(p, s)|
    ensures j < |s| && s[j] == Filter(p, s)[i]
  {
    if p(s[0]) && i == 0 {
      j := 0;
    } else {
      var k := FilterMember(p, s[1..], if p(s[0]) then i - 1 else i);
      j := k + 1;
    }
  }

  lemma {:induction false} FilterConcat<T>(p: T -> bool, s: seq<T>, t: seq<T>)
    ensures Filter(p, s + t) == Filter(p, s) + Filter(p, t)
  {
    if s == [] {
      assert s + t == t;
    } else {
      assert (s + t)[1..] == s[1..] + t;
      FilterConcat(p, s[1..], t);
    }
  }

  lemma {:induction false} FilterAll<T>(p: T -> bool, s: seq<T>)
    requires forall i :: 0 <= i < |s| ==> p(s[i])
    ensures Filter(p, s) == s
  {
    if s != [] {
      FilterAll(p, s[1..]);
    }
  }

  lemma {:induction false} FilterNone<T>(p: T -> bool, s: seq<T>)
    requires forall i :: 0 <= i < |s| ==> !p(s[i])
    ensures Filter(p, s) == []
  {
    if s != [] {
      FilterNone(p, s[1..]);
    }
  }

  // ---------------------------------------------------------------- joining

  function Joined<T>(parts: seq<seq<T>>): seq<T> {
    if parts == [] then [] else Joined(parts[..|parts| - 1]) + parts[|parts| - 1]
  }

  lemma {:induction false} JoinedMembers<T>(parts: seq<seq<T>>, x: T)
    ensures x in Joined(parts) <==> exists j :: 0 <= j < |parts| && x in parts[j]
  {
    if parts != [] {
      var front := parts[..|parts| - 1];
      JoinedMembers(front, x);
      assert parts == front + [parts[|parts| - 1]];
    }
  }

  // ---------------------------------------------------------------- distinctness

  predicate Distinct<T(==)>(s: seq<T>) {
    forall i, j :: 0 <= i < j < |s| ==> s[i] != s[j]
  }

  // ---------------------------------------------------------------- sets

  lemma {:induction false} SubsetCount<T>(a: set<T>, b: set<T>)
    requires a <= b
    ensures |a| <= |b|
  {
    if x :| x in a {
      SubsetCount(a - {x}, b - {x});
    }
  }

  lemma SubsetOfSameSize<T>(a: set<T>, b: set<T>)
    requires a <= b && |a| == |b|
    ensures a == b
  {
    if x :| x in b && x !in a {
      SubsetCount(a + {x}, b);
    }
  }

  lemma {:induction false} MembersCount<T>(s: seq<T>)
    requires Distinct(s)
    ensures |set x | x in s| == |s|
  {
    if s != [] {
      var front := s[..|s| - 1];
      MembersCount(front);
      assert s == front + [s[|s| - 1]];
      assert (set x | x in s) == (set x | x in front) + {s[|s| - 1]};
    }
  }

  /** Every finite set can be listed without repetition. */
  lemma {:induction false} Enumerate<T>(a: set<T>) returns (s: seq<T>)
    ensures Distinct(s) && |s| == |a|
    ensures forall x :: x in s <==> x in a
  {
    if x :| x in a {
      var rest := Enumerate(a - {x});
      s := [x] + rest;
    } else {
      s := [];
    }
  }

  lemma DistinctConcat<T>(s: seq<T>, t: seq<T>)
    requires Distinct(s) && Distinct(t)
    requires forall x :: x in s ==> x !in t
    ensures Distinct(s + t)
  {
    forall i, j | 0 <= i < j < |s + t| ensures (s + t)[i] != (s + t)[j] {
      if i < |s| {
        assert s[i] !in t;
      }
    }
  }

  function Members<T>(s: seq<T>): set<T> { set x | x in s }

  lemma PrefixMember<T>(s: seq<T>, n: nat, i: nat)
    requires i < |s|
    ensures i < n ==> s[i] in FirstN(s, n)
  {
    if i < n {
      assert FirstN(s, n)[i] == s[i];
    }
  }

  lemma DistinctPermutation<T>(s: seq<T>, t: seq<T>)
    requires Distinct(s) && multiset(s) == multiset(t)
    ensures Distinct(t)
  {
    forall i, j | 0 <= i < j < |t| ensures t[i] != t[j] {
      if t[i] == t[j] {
        var x := t[i];
        assert t == t[..i] + [x] + t[i + 1..j] + [x] + t[j + 1..];
        assert multiset(t)[x] >= 2;
        DistinctMultiplicity(s, x);
      }
    }
  }

  lemma {:induction false} DistinctMultiplicity<T>(s: seq<T>, x: T)
    requires Distinct(s)
    ensures multiset(s)[x] <= 1
  {
    if s != [] {
      assert s == [s[0]] + s[1..];
      DistinctMultiplicity(s[1..], x);
      if s[0] == x {
        assert x !in s[1..];
      }
    }
  }

  // ---------------------------------------------------------------- maximum of a set

  lemma {:induction false} MaxExists(s: set<int>, y: int)
    requires y in s
    ensures exists m :: m in s && forall x :: x in s ==> x <= m
  {
    var rest := s - {y};
    if z :| z in rest {
      MaxExists(rest, z);
      var m :| m in rest && forall x :: x in rest ==> x <= m;
      var top := if m <= y then y else m;
      forall x | x in s ensures x <= top {
        assert x == y || x in rest;
      }
      assert top in s;
    } else {
      assert forall x :: x in s ==> x == y || x in rest;
    }
  }

  function MaxOf(s: set<int>, ghost member: int): (m: int)
    requires member in s
    ensures m in s && forall x :: x in s ==> x <= m
  {
    MaxExists(s, member);
    var m :| m in s && forall x :: x in s ==> x <= m;
    m
  }

  // ---------------------------------------------------------------- sorting

  ghost predicate SortedBy<T>(key: T -> real, s: seq<T>) {
    forall i, j :: 0 <= i < j < |s| ==> key(s[i]) <= key(s[j])
  }

  /** Places x before the first element whose key is not smaller, so equal keys keep their order. */
  function Insert<T>(key: T -> real, x: T, s: seq<T>): seq<T> {
    if s == [] || key(x) <= key(s[0]) then [x] + s
    else [s[0]] + Insert(key, x, s[1..])
  }

  function Sort<T>(key: T -> real, s: seq<T>): seq<T> {
    if s == [] then [] else Insert(key, s[0], Sort(key, s[1..]))
  }

  lemma {:induction false} InsertMembers<T>(key: T -> real, x: T, s: seq<T>)
    ensures multiset(Insert(key, x, s)) == multiset(s) + multiset{x}
  {
    if s == [] || key(x) <= key(s[0]) {
    } else {
      assert s == [s[0]] + s[1..];
      InsertMembers(key, x, s[1..]);
    }
  }

  lemma SortedCons<T>(key: T -> real, x: T, s: seq<T>)
    requires SortedBy(key, s) && forall i :: 0 <= i < |s| ==> key(x) <= key(s[i])
    ensures SortedBy(key, [x] + s)
  {
  }

  lemma {:induction false} InsertSorted<T>(key: T -> real, x: T, s: seq<T>)
    requires SortedBy(key, s)
    ensures SortedBy(key, Insert(key, x, s))
  {
    if s == [] || key(x) <= key(s[0]) {
      SortedCons(key, x, s);
    } else {
      var tail := Insert(key, x, s[1..]);
      InsertSorted(key, x, s[1..]);
      InsertMembers(key, x, s[1..]);
      forall i | 0 <= i < |tail| ensures key(s[0]) <= key(tail[i]) {
        assert tail[i] in multiset(tail);
        assert tail[i] == x || tail[i] in multiset(s[1..]);
        if j :| 0 <= j < |s[1..]| && s[1..][j] == tail[i] {
          assert s[j + 1] == tail[i];
        }
      }
      SortedCons(key, s[0], tail);
    }
  }

  lemma SameMultisetSameMembers<T>(s: seq<T>, t: seq<T>)
    requires multiset(s) == multiset(t)
    ensures |s| == |t|
    ensures forall x :: x in s <==> x in t
  {
    assert |multiset(s)| == |s| && |multiset(t)| == |t|;
    forall x ensures x in s <==> x in t {
      assert x in s <==> x in multiset(s);
      assert x in t <==> x in multiset(t);
    }
  }

  /** The sort returns a permutation of its input in non-decreasing key order. */
  lemma {:induction false} SortSorts<T>(key: T -> real, s: seq<T>)
    ensures SortedBy(key, Sort(key, s))
    ensures multiset(Sort(key, s)) == multiset(s)
  {
    if s != [] {
      SortSorts(key, s[1..]);
      InsertSorted(key, s[0], Sort(key, s[1..]));
      InsertMembers(key, s[0], Sort(key, s[1..]));
      assert s == [s[0]] + s[1..];
    }
  }

  // ------------------------------------------------------------ positions

  predicate Ascending(at: seq<nat>) {
    forall x, y :: 0 <= x < y < |at| ==> at[x] < at[y]
  }

  function Shifted(at: seq<nat>, d: nat): (r: seq<nat>)
    ensures |r| == |at| && forall x :: 0 <= x < |at| ==> r[x] == at[x] + d
  {
    seq(|at|, x requires 0 <= x < |at| => at[x] + d)
  }

  /** Position by position, r is taken from s at the given places. */
  ghost predicate TakenAt<T>(r: seq<T>, s: seq<T>, at: seq<nat>) {
    |r| == |at| && forall x :: 0 <= x < |at| ==> at[x] < |s| && r[x] == s[at[x]]
  }

  lemma TakenBehind<T>(r: seq<T>, s: seq<T>, at: seq<nat>)
    requires s != [] && TakenAt(r, s[1..], at)
    ensures TakenAt(r, s, Shifted(at, 1))
  {
  }

  lemma TakenConcat<T>(r: seq<T>, r': seq<T>, s: seq<T>, at: seq<nat>, at': seq<nat>)
    requires TakenAt(r, s, at) && TakenAt(r', s, at')
    ensures TakenAt(r + r', s, at + at')
  {
  }

  ghost predicate Has(at: seq<nat>, i: nat) { exists x :: 0 <= x < |at| && at[x] == i }

  lemma HasShifted(at: seq<nat>, d: nat, i: nat)
    ensures Has(Shifted(at, d), i + d) <==> Has(at, i)
  {
    if Has(at, i) {
      var x :| 0 <= x < |at| && at[x] == i;
      assert Shifted(at, d)[x] == i + d;
    }
  }

  lemma HasConcat(a: seq<nat>, b: seq<nat>, i: nat)
    ensures Has(a + b, i) <==> Has(a, i) || Has(b, i)
  {
    if Has(a, i) {
      var x :| 0 <= x < |a| && a[x] == i;
      assert (a + b)[x] == i;
    }
    if Has(b, i) {
      var x :| 0 <= x < |b| && b[x] == i;
      assert (a + b)[|a| + x] == i;
    }
    if Has(a + b, i) {
      var x :| 0 <= x < |a + b| && (a + b)[x] == i;
      assert x >= |a| ==> b[x - |a|] == i;
    }
  }

  lemma HasOne(n: nat, i: nat)
    ensures Has([n], i) <==> i == n
  {
    assert [n][0] == n;
  }

  lemma {:induction false} PlacesCount(at: seq<nat>, places: set<nat>)
    requires Ascending(at) && forall i: nat :: i in places <==> Has(at, i)
    ensures |places| == |at|
  {
    if at == [] {
      if i :| i in places {
        assert Has(at, i);
      }
    } else {
      var front, last := at[..|at| - 1], at[|at| - 1];
      assert at[|at| - 1] == last;
      assert last in places;
      forall i: nat ensures i in places - {last} <==> Has(front, i) {
        assert at == front + [last];
        HasConcat(front, [last], i);
        HasOne(last, i);
        if Has(front, i) {
          var x :| 0 <= x < |front| && front[x] == i;
          assert at[x] == i;
        }
      }
      PlacesCount(front, places - {last});
    }
  }

  /** The places name exactly the positions of s at which p holds, in order. */
  ghost predicate Selects<T>(p: T -> bool, s: seq<T>, at: seq<nat>) {
    Ascending(at) && forall i: nat :: i < |s| ==> (Has(at, i) <==> p(s[i]))
  }

  lemma SelectsOneMore<T>(p: T -> bool, s: seq<T>, rest: seq<nat>)
    requires s != [] && Selects(p, s[1..], rest)
    ensures Selects(p, s, if p(s[0]) then [0] + Shifted(rest, 1) else Shifted(rest, 1))
  {
    var moved := Shifted(rest, 1);
    var at := if p(s[0]) then [0] + moved else moved;
    forall i: nat | i < |s| ensures Has(at, i) <==> p(s[i]) {
      HasConcat([0], moved, i);
      HasOne(0, i);
      if i > 0 {
        HasShifted(rest, 1, i - 1);
        assert s[i] == s[1..][i - 1];
      }
    }
  }

  /** Filtering keeps exactly the elements that pass, in their order. */
  lemma {:induction false} FilterAt<T>(p: T -> bool, s: seq<T>) returns (at: seq<nat>)
    ensures TakenAt(Filter(p, s), s, at) && Selects(p, s, at)
  {
    if s == [] {
      at := [];
    } else {
      hide Selects, TakenAt;
      var rest := FilterAt(p, s[1..]);
      SelectsOneMore(p, s, rest);
      TakenBehind(Filter(p, s[1..]), s, rest);
      var moved := Shifted(rest, 1);
      at := if p(s[0]) then [0] + moved else moved;
      TakenFirst(s);
      TakenConcat([s[0]], Filter(p, s[1..]), s, [0], moved);
    }
  }

  lemma TakenFirst<T>(s: seq<T>)
    requires s != []
    ensures TakenAt([s[0]], s, [0])
  {
  }

  lemma {:induction false} InsertAt<T>(key: T -> real, x: T, s: seq<T>) returns (k: nat)
    ensures k <= |s| && Insert(key, x, s) == s[..k] + [x] + s[k..]
    ensures forall i :: 0 <= i < k ==> key(s[i]) < key(x)
    ensures k < |s| ==> key(x) <= key(s[k])
  {
    if s == [] || key(x) <= key(s[0]) {
      k := 0;
    } else {
      var j := InsertAt(key, x, s[1..]);
      k := j + 1;
    }
  }

  /** Places in s whose keys do not decrease, and ascend where they are equal. */
  ghost predicate StablyOrdered<T>(key: T -> real, s: seq<T>, at: seq<nat>) {
    && (forall x :: 0 <= x < |at| ==> at[x] < |s|)
    && forall x, y :: 0 <= x < y < |at| ==>
         key(s[at[x]]) < key(s[at[y]]) || (key(s[at[x]]) == key(s[at[y]]) && at[x] < at[y])
  }

  lemma OrderedBehind<T>(key: T -> real, s: seq<T>, at: seq<nat>)
    requires s != [] && StablyOrdered(key, s[1..], at)
    ensures StablyOrdered(key, s, Shifted(at, 1))
  {
    var moved := Shifted(at, 1);
    forall x | 0 <= x < |at| ensures moved[x] < |s| && s[moved[x]] == s[1..][at[x]] {
    }
  }

  lemma OrderedInsert<T>(key: T -> real, s: seq<T>, at: seq<nat>, k: nat)
    requires s != [] && StablyOrdered(key, s, at) && k <= |at|
    requires forall x :: 0 <= x < |at| ==> at[x] > 0
    requires forall x :: 0 <= x < k ==> key(s[at[x]]) < key(s[0])
    requires k < |at| ==> key(s[0]) <= key(s[at[k]])
    ensures StablyOrdered(key, s, at[..k] + [0] + at[k..])
  {
    var r := at[..k] + [0] + at[k..];
    forall x, y | 0 <= x < y < |r|
      ensures key(s[r[x]]) < key(s[r[y]]) || (key(s[r[x]]) == key(s[r[y]]) && r[x] < r[y])
    {
      assert x < k ==> r[x] == at[x];
      assert y < k ==> r[y] == at[y];
      assert x > k ==> r[x] == at[x - 1];
      assert y > k ==> r[y] == at[y - 1];
    }
  }

  lemma TakenSlices<T>(r: seq<T>, s: seq<T>, at: seq<nat>, k: nat)
    requires TakenAt(r, s, at) && k <= |at|
    ensures TakenAt(r[..k], s, at[..k]) && TakenAt(r[k..], s, at[k..])
  {
  }

  lemma HasAllButFirst(rest: seq<nat>, k: nat, n: nat, i: nat)
    requires k <= |rest| && i <= n && forall j: nat :: j < n ==> Has(rest, j)
    ensures Has(Shifted(rest, 1)[..k] + [0] + Shifted(rest, 1)[k..], i)
  {
    var moved := Shifted(rest, 1);
    HasConcat(moved[..k] + [0], moved[k..], i);
    HasConcat(moved[..k], [0], i);
    HasOne(0, i);
    if i > 0 {
      HasShifted(rest, 1, i - 1);
      HasConcat(moved[..k], moved[k..], i);
      assert moved == moved[..k] + moved[k..];
    }
  }

  /** Sorting rearranges the elements so that the keys do not decrease and elements with equal keys
      keep their order. */
  lemma {:induction false} SortAt<T>(key: T -> real, s: seq<T>) returns (at: seq<nat>)
    ensures |Sort(key, s)| == |s| && TakenAt(Sort(key, s), s, at) && StablyOrdered(key, s, at)
    ensures forall i: nat :: i < |s| ==> Has(at, i)
  {
    if s == [] {
      at := [];
    } else {
      hide Has;
      var rest := SortAt(key, s[1..]);
      at := SortedPlaces(key, s, rest);
    }
  }

  lemma SortedPlaces<T>(key: T -> real, s: seq<T>, rest: seq<nat>) returns (at: seq<nat>)
    requires s != [] && |Sort(key, s[1..])| == |s[1..]|
    requires TakenAt(Sort(key, s[1..]), s[1..], rest) && StablyOrdered(key, s[1..], rest)
    requires forall i: nat :: i < |s[1..]| ==> Has(rest, i)
    ensures |Sort(key, s)| == |s| && TakenAt(Sort(key, s), s, at) && StablyOrdered(key, s, at)
    ensures forall i: nat :: i < |s| ==> Has(at, i)
  {
    hide Has, Sort, StablyOrdered;
    var sorted, moved := Sort(key, s[1..]), Shifted(rest, 1);
    var k := InsertAt(key, s[0], sorted);
    at := moved[..k] + [0] + moved[k..];
    OrderedBehind(key, s, rest);
    OrderedInsert(key, s, moved, k);
    SortOneMore(key, s);
    TakenBehind(sorted, s, rest);
    TakenAround(sorted, s, moved, k);
    forall i: nat | i < |s| ensures Has(at, i) {
      HasAllButFirst(rest, k, |s| - 1, i);
    }
  }

  lemma SortOneMore<T>(key: T -> real, s: seq<T>)
    requires s != []
    ensures Sort(key, s) == Insert(key, s[0], Sort(key, s[1..]))
  {
  }

  lemma TakenAround<T>(r: seq<T>, s: seq<T>, at: seq<nat>, k: nat)
    requires s != [] && TakenAt(r, s, at) && k <= |at|
    ensures TakenAt(r[..k] + [s[0]] + r[k..], s, at[..k] + [0] + at[k..])
  {
    assert |r| == |at|;
    hide TakenAt;
    TakenSlices(r, s, at, k);
    TakenFirst(s);
    TakenConcat(r[..k], [s[0]], s, at[..k], [0]);
    TakenConcat(r[..k] + [s[0]], r[k..], s, at[..k] + [0], at[k..]);
  }
}

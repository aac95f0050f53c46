/** Shared vocabulary: optional values, order-preserving selection, and the stable sort that
    `Array.prototype.sort` performs. */
module Prelude {

  datatype Option<+T> = None | Some(value: T)

  function Max(a: int, b: int): int {
    if a >= b then a else b
  }

  function Min(a: int, b: int): int {
    if a <= b then a else b
  }

  function MaxR(a: real, b: real): real {
    if a >= b then a else b
  }

  function MinR(a: real, b: real): real {
    if a <= b then a else b
  }

  // ---- selection -------------------------------------------------------------------------

  /** `s.filter(p)`, and the row set a `FILTER (WHERE p)` or `WHERE p` leaves. */
  function Select<T>(s: seq<T>, p: T -> bool): seq<T> {
    if s == [] then []
    else Select(s[..|s| - 1], p) + (if p(s[|s| - 1]) then [s[|s| - 1]] else [])
  }

  lemma {:induction false} SelectMembers<T(!new)>(s: seq<T>, p: T -> bool)
    ensures |Select(s, p)| <= |s|
    ensures forall x :: x in Select(s, p) <==> x in s && p(x)
  {
    if s != [] {
      assert s == s[..|s| - 1] + [s[|s| - 1]];
      SelectMembers(s[..|s| - 1], p);
    }
  }

  lemma SelectSnoc<T>(s: seq<T>, x: T, p: T -> bool)
    ensures Select(s + [x], p) == if p(x) then Select(s, p) + [x] else Select(s, p)
  {
    assert (s + [x])[..|s|] == s;
    assert Select(s, p) + [] == Select(s, p);
  }

  lemma {:induction false} SelectAppend<T>(a: seq<T>, b: seq<T>, p: T -> bool)
    ensures Select(a + b, p) == Select(a, p) + Select(b, p)
  {
    if b == [] {
      assert a + b == a;
    } else {
      var init, last := b[..|b| - 1], b[|b| - 1];
      assert a + b == (a + init) + [last] && b == init + [last];
      SelectAppend(a, init, p);
      SelectSnoc(a + init, last, p);
      SelectSnoc(init, last, p);
    }
  }

  lemma SelectCons<T>(x: T, s: seq<T>, p: T -> bool)
    ensures Select([x] + s, p) == if p(x) then [x] + Select(s, p) else Select(s, p)
  {
    SelectAppend([x], s, p);
    SelectSnoc([], x, p);
    assert [] + [x] == [x];
    assert [] + Select(s, p) == Select(s, p);
  }

  lemma {:induction false} SelectAll<T(!new)>(s: seq<T>, p: T -> bool)
    requires forall x :: x in s ==> p(x)
    ensures Select(s, p) == s
  {
    if s != [] {
      assert s == s[..|s| - 1] + [s[|s| - 1]];
      SelectAll(s[..|s| - 1], p);
    }
  }

  lemma {:induction false} SelectNone<T(!new)>(s: seq<T>, p: T -> bool)
    requires forall x :: x in s ==> !p(x)
    ensures Select(s, p) == []
  {
    if s != [] {
      SelectNone(s[..|s| - 1], p);
    }
  }

  /** `s.map(f)`. */
  function Map<T, U>(s: seq<T>, f: T -> U): (r: seq<U>)
    ensures |r| == |s|
    ensures forall i :: 0 <= i < |s| ==> r[i] == f(s[i])
  {
    seq(|s|, i requires 0 <= i < |s| => f(s[i]))
  }

  function Flatten<T>(ss: seq<seq<T>>): seq<T> {
    if ss == [] then [] else Flatten(ss[..|ss| - 1]) + ss[|ss| - 1]
  }

  lemma FlattenSnoc<T>(ss: seq<seq<T>>, s: seq<T>)
    ensures Flatten(ss + [s]) == Flatten(ss) + s
  {
    assert (ss + [s])[..|ss|] == ss;
  }

  lemma {:induction false} FlattenAppend<T>(a: seq<seq<T>>, b: seq<seq<T>>)
    ensures Flatten(a + b) == Flatten(a) + Flatten(b)
  {
    if b == [] {
      assert a + b == a;
    } else {
      var init, last := b[..|b| - 1], b[|b| - 1];
      assert a + b == (a + init) + [last] && b == init + [last];
      FlattenAppend(a, init);
      FlattenSnoc(a + init, last);
      FlattenSnoc(init, last);
    }
  }

  // ---- order -----------------------------------------------------------------------------

  predicate Distinct<T(==)>(s: seq<T>) {
    forall i, j :: 0 <= i < j < |s| ==> s[i] != s[j]
  }

  /** `a` occurs in `s` ahead of some occurrence of `b`. */
  predicate Before<T(==)>(s: seq<T>, a: T, b: T) {
    exists i, j :: 0 <= i < j < |s| && s[i] == a && s[j] == b
  }

  predicate SortedBy<T>(s: seq<T>, rank: T -> real) {
    forall i, j :: 0 <= i < j < |s| ==> rank(s[i]) <= rank(s[j])
  }

  /** Where a new element goes in a sorted run: ahead of the first element it does not exceed. */
  function Insert<T>(x: T, s: seq<T>, rank: T -> real): seq<T> {
    if s == [] then [x]
    else if rank(x) <= rank(s[0]) then [x] + s
    else [s[0]] + Insert(x, s[1..], rank)
  }

  /** `[...s].sort((a, b) => rank(a) - rank(b))`: ascending, ties in their incoming order. */
  function StableSort<T>(s: seq<T>, rank: T -> real): seq<T> {
    if s == [] then [] else Insert(s[0], StableSort(s[1..], rank), rank)
  }

  lemma {:induction false} InsertMembers<T(!new)>(x: T, s: seq<T>, rank: T -> real)
    ensures |Insert(x, s, rank)| == |s| + 1
    ensures forall y :: y in Insert(x, s, rank) <==> y == x || y in s
  {
    if s != [] && rank(x) > rank(s[0]) {
      InsertMembers(x, s[1..], rank);
    }
  }

  lemma {:induction false} StableSortMembers<T(!new)>(s: seq<T>, rank: T -> real)
    ensures |StableSort(s, rank)| == |s|
    ensures forall x :: x in StableSort(s, rank) <==> x in s
  {
    if s != [] {
      StableSortMembers(s[1..], rank);
      InsertMembers(s[0], StableSort(s[1..], rank), rank);
    }
  }

  lemma {:induction false} InsertSorted<T(!new)>(x: T, s: seq<T>, rank: T -> real)
    requires SortedBy(s, rank)
    ensures SortedBy(Insert(x, s, rank), rank)
  {
    if s != [] && rank(x) > rank(s[0]) {
      var tail := Insert(x, s[1..], rank);
      InsertSorted(x, s[1..], rank);
      InsertMembers(x, s[1..], rank);
      forall j | 0 <= j < |tail| ensures rank(s[0]) <= rank(tail[j]) {
        assert tail[j] in tail;
      }
    }
  }

  lemma {:induction false} StableSortSorted<T(!new)>(s: seq<T>, rank: T -> real)
    ensures SortedBy(StableSort(s, rank), rank)
  {
    if s != [] {
      StableSortSorted(s[1..], rank);
      InsertSorted(s[0], StableSort(s[1..], rank), rank);
    }
  }

  /** Sorting is the identity on a list already in order. */
  lemma {:induction false} StableSortOfSorted<T>(s: seq<T>, rank: T -> real)
    requires SortedBy(s, rank)
    ensures StableSort(s, rank) == s
  {
    if s != [] {
      StableSortOfSorted(s[1..], rank);
      assert s == [s[0]] + s[1..];
    }
  }

  lemma {:induction false} InsertSelect<T(!new)>(x: T, s: seq<T>, rank: T -> real, p: T -> bool)
    requires SortedBy(s, rank)
    ensures Select(Insert(x, s, rank), p)
         == if p(x) then Insert(x, Select(s, p), rank) else Select(s, p)
  {
    if s == [] {
      SelectSnoc([], x, p);
      assert [] + [x] == [x];
    } else if rank(x) <= rank(s[0]) {
      SelectCons(x, s, p);
      SelectMembers(s, p);
      if p(x) {
        InsertAtFront(x, Select(s, p), rank);
      }
    } else {
      InsertSelect(x, s[1..], rank, p);
      InsertSelectPast(x, s, rank, p);
    }
  }

  lemma {:induction false} InsertSelectPast<T>(x: T, s: seq<T>, rank: T -> real, p: T -> bool)
    requires SortedBy(s, rank) && s != [] && rank(x) > rank(s[0])
    requires Select(Insert(x, s[1..], rank), p)
          == if p(x) then Insert(x, Select(s[1..], p), rank) else Select(s[1..], p)
    ensures Select(Insert(x, s, rank), p)
         == if p(x) then Insert(x, Select(s, p), rank) else Select(s, p)
  {
    var head, rest := s[0], s[1..];
    var chosen := Select(rest, p);
    assert s == [head] + rest;
    SelectCons(head, rest, p);
    SelectCons(head, Insert(x, rest, rank), p);
    if p(x) && p(head) {
      assert ([head] + chosen)[1..] == chosen;
    }
  }

  lemma InsertAtFront<T>(x: T, s: seq<T>, rank: T -> real)
    requires forall y :: y in s ==> rank(x) <= rank(y)
    ensures Insert(x, s, rank) == [x] + s
  {
  }

  /** Sorting then selecting is selecting then sorting: a stable merge keeps each side's order. */
  lemma {:induction false} StableSortSelect<T(!new)>(s: seq<T>, rank: T -> real, p: T -> bool)
    ensures Select(StableSort(s, rank), p) == StableSort(Select(s, p), rank)
  {
    if s != [] {
      var rest := s[1..];
      assert s == [s[0]] + rest;
      StableSortSelect(rest, rank, p);
      StableSortSorted(rest, rank);
      InsertSelect(s[0], StableSort(rest, rank), rank, p);
      SelectCons(s[0], rest, p);
      if p(s[0]) {
        assert ([s[0]] + Select(rest, p))[1..] == Select(rest, p);
      }
    }
  }

  // ---- what a stable sort does to each pair ------------------------------------------------

  function Splice<T>(s: seq<T>, k: nat, x: T): seq<T>
    requires k <= |s|
  {
    s[..k] + [x] + s[k..]
  }

  function Shift(i: nat, k: nat): nat {
    if i < k then i else i + 1
  }

  lemma SpliceAt<T>(s: seq<T>, k: nat, x: T)
    requires k <= |s|
    ensures |Splice(s, k, x)| == |s| + 1 && Splice(s, k, x)[k] == x
    ensures forall i {:trigger s[i]} :: 0 <= i < |s| ==> Splice(s, k, x)[Shift(i, k)] == s[i]
  {
  }

  lemma {:induction false} SpliceDistinct<T(!new)>(s: seq<T>, k: nat, x: T)
    requires k <= |s| && Distinct(s) && x !in s
    ensures Distinct(Splice(s, k, x))
  {
    var r := Splice(s, k, x);
    forall i, j | 0 <= i < j < |r| ensures r[i] != r[j] {
      assert i < k ==> r[i] == s[i];
      assert i > k ==> r[i] == s[i - 1];
      assert j < k ==> r[j] == s[j];
      assert j > k ==> r[j] == s[j - 1];
    }
  }

  /** Insert splits the sorted run at one place. */
  lemma {:induction false} InsertSplits<T>(x: T, s: seq<T>, rank: T -> real) returns (k: nat)
    requires SortedBy(s, rank)
    ensures k <= |s| && Insert(x, s, rank) == Splice(s, k, x)
    ensures forall i :: 0 <= i < k ==> rank(s[i]) < rank(x)
    ensures forall i :: k <= i < |s| ==> rank(x) <= rank(s[i])
  {
    k := 0;
    if s != [] && rank(x) > rank(s[0]) {
      var rest := s[1..];
      var m := InsertSplits(x, rest, rank);
      k := m + 1;
      assert [s[0]] + Splice(rest, m, x) == Splice(s, k, x);
      assert forall i :: 1 <= i < |s| ==> s[i] == rest[i - 1];
    }
  }

  /** Position of `a` in a list of distinct elements. */
  lemma {:induction false} BeforeByIndex<T(!new)>(s: seq<T>, i: nat, j: nat)
    requires Distinct(s) && i < |s| && j < |s|
    ensures Before(s, s[i], s[j]) <==> i < j
  {
  }

  lemma PlaceOf<T>(s: seq<T>, a: T) returns (i: nat)
    requires a in s
    ensures i < |s| && s[i] == a
  {
    i :| 0 <= i < |s| && s[i] == a;
  }

  lemma AroundTheNewOne<T(!new)>(s: seq<T>, k: nat, x: T, j: nat)
    requires k <= |s| && Distinct(s) && x !in s && j < |s|
    ensures Before(Splice(s, k, x), x, s[j]) <==> k <= j
    ensures Before(Splice(s, k, x), s[j], x) <==> j < k
  {
    SpliceAt(s, k, x);
    SpliceDistinct(s, k, x);
    BeforeByIndex(Splice(s, k, x), k, Shift(j, k));
    BeforeByIndex(Splice(s, k, x), Shift(j, k), k);
  }

  lemma OldPair<T(!new)>(s: seq<T>, k: nat, x: T, i: nat, j: nat)
    requires k <= |s| && Distinct(s) && x !in s && i < |s| && j < |s|
    ensures Before(Splice(s, k, x), s[i], s[j]) <==> Before(s, s[i], s[j])
  {
    SpliceAt(s, k, x);
    SpliceDistinct(s, k, x);
    BeforeByIndex(s, i, j);
    BeforeByIndex(Splice(s, k, x), Shift(i, k), Shift(j, k));
  }

  lemma {:induction false} InsertBefore<T(!new)>(x: T, s: seq<T>, rank: T -> real, a: T, b: T)
    requires SortedBy(s, rank) && Distinct(s) && x !in s
    requires a in [x] + s && b in [x] + s && a != b
    ensures Before(Insert(x, s, rank), a, b)
      <==> if a == x then rank(a) <= rank(b) else if b == x then rank(a) < rank(b) else Before(s, a, b)
  {
    var k := InsertSplits(x, s, rank);
    if a == x {
      var j := PlaceOf(s, b);
      AroundTheNewOne(s, k, x, j);
    } else if b == x {
      var i := PlaceOf(s, a);
      AroundTheNewOne(s, k, x, i);
    } else {
      var i := PlaceOf(s, a);
      var j := PlaceOf(s, b);
      OldPair(s, k, x, i, j);
    }
  }

  /** A stable sort orders by rank, and equal ranks as they came. */
  lemma {:induction false} StableSortBefore<T(!new)>(s: seq<T>, rank: T -> real, a: T, b: T)
    requires Distinct(s) && a in s && b in s && a != b
    ensures Before(StableSort(s, rank), a, b)
      <==> rank(a) < rank(b) || (rank(a) == rank(b) && Before(s, a, b))
  {
    var x, rest := s[0], s[1..];
    var sorted := StableSort(rest, rank);
    StableSortMembers(rest, rank);
    StableSortSorted(rest, rank);
    StableSortDistinct(rest, rank);
    InsertBefore(x, sorted, rank, a, b);
    if a != x && b != x {
      StableSortBefore(rest, rank, a, b);
    }
    BeforeCons(s, a, b);
  }

  lemma BeforeCons<T(!new)>(s: seq<T>, a: T, b: T)
    requires Distinct(s) && a in s && b in s && a != b
    ensures Before(s, a, b) <==> a == s[0] || (b != s[0] && Before(s[1..], a, b))
  {
    var i :| 0 <= i < |s| && s[i] == a;
    var j :| 0 <= j < |s| && s[j] == b;
    BeforeByIndex(s, i, j);
    if i > 0 && j > 0 {
      assert s[1..][i - 1] == a && s[1..][j - 1] == b;
      BeforeByIndex(s[1..], i - 1, j - 1);
    }
  }

  lemma {:induction false} StableSortDistinct<T(!new)>(s: seq<T>, rank: T -> real)
    requires Distinct(s)
    ensures Distinct(StableSort(s, rank))
  {
    if s != [] {
      StableSortDistinct(s[1..], rank);
      StableSortMembers(s[1..], rank);
      StableSortSorted(s[1..], rank);
      var k := InsertSplits(s[0], StableSort(s[1..], rank), rank);
      SpliceDistinct(StableSort(s[1..], rank), k, s[0]);
    }
  }

  lemma FirstIsMember<T(!new)>(s: seq<T>)
    ensures s == [] || exists x :: x in s
  {
    if s != [] {
      assert s[0] in s;
    }
  }

  /** Two lists of the same distinct elements are one list when every pair is in the same order. */
  lemma {:induction false} SameOrderSameList<T(!new)>(xs: seq<T>, ys: seq<T>)
    requires Distinct(xs) && Distinct(ys)
    requires forall x :: x in xs <==> x in ys
    requires forall a, b :: a in xs && b in xs && a != b && Before(xs, a, b) ==> Before(ys, a, b)
    ensures xs == ys
  {
    if xs == [] {
      FirstIsMember(ys);
    } else {
      assert xs[0] in ys;
      if ys[0] != xs[0] {
        assert ys[0] in ys && ys[0] in xs;
        BeforeCons(xs, xs[0], ys[0]);
        BeforeCons(ys, xs[0], ys[0]);
      }
      TailMembers(xs);
      TailMembers(ys);
      forall a, b | a in xs[1..] && b in xs[1..] && a != b && Before(xs[1..], a, b)
        ensures Before(ys[1..], a, b)
      {
        BeforeCons(xs, a, b);
        BeforeCons(ys, a, b);
      }
      SameOrderSameList(xs[1..], ys[1..]);
    }
  }

  lemma TailMembers<T(!new)>(s: seq<T>)
    requires s != [] && Distinct(s)
    ensures Distinct(s[1..]) && forall x :: x in s[1..] <==> x in s && x != s[0]
  {
    forall x | x in s && x != s[0] ensures x in s[1..] {
      var i :| 0 <= i < |s| && s[i] == x;
      assert s[1..][i - 1] == x;
    }
  }

  function Compose<T, U>(rank: U -> real, f: T -> U): T -> real {
    x => rank(f(x))
  }

  /** Sorting the images is mapping the sorted originals. */
  lemma {:induction false} StableSortMap<T, U>(s: seq<T>, f: T -> U, rank: U -> real)
    ensures StableSort(Map(s, f), rank) == Map(StableSort(s, Compose(rank, f)), f)
  {
    if s == [] {
      assert Map(s, f) == [] && Map<T, U>([], f) == [];
    } else {
      assert Map(s, f)[1..] == Map(s[1..], f);
      StableSortMap(s[1..], f, rank);
      InsertMap(s[0], StableSort(s[1..], Compose(rank, f)), f, rank);
    }
  }

  lemma {:induction false} InsertMap<T, U>(x: T, s: seq<T>, f: T -> U, rank: U -> real)
    ensures Insert(f(x), Map(s, f), rank) == Map(Insert(x, s, Compose(rank, f)), f)
  {
    if s == [] {
      assert Map(s, f) == [] && Map([x], f) == [f(x)];
    } else {
      assert Map(s, f)[1..] == Map(s[1..], f);
      InsertMap(x, s[1..], f, rank);
    }
  }

  lemma EmptyOrMember(s: set<int>)
    ensures s == {} || exists x :: x in s
  {
    if forall x :: x !in s {
      assert s == {};
    }
  }

  // ---- sums ------------------------------------------------------------------------------

  function Sum(s: seq<real>): real {
    if s == [] then 0.0 else Sum(s[..|s| - 1]) + s[|s| - 1]
  }

  lemma SumSnoc(s: seq<real>, x: real)
    ensures Sum(s + [x]) == Sum(s) + x
  {
    assert (s + [x])[..|s|] == s;
  }
}

/** GROUP BY in SQL, ordered by json_agg and re-sorted in JavaScript, against groupPerf. */
module Groups {
  import opened Prelude
  import opened Trades
  import opened Perf

  datatype GroupRow = GroupRow(key: string, perf: Shape)

  /** One row of a groupCte. */
  datatype SqlGroup = SqlGroup(key: string, agg: Agg, firstAt: int, firstId: int)

  type KeyFn = Trade -> Option<string>

  /** Neither side keeps a NULL or empty key. */
  predicate Grouped(t: Trade, key: KeyFn) {
    key(t).Some? && key(t).value != ""
  }

  function HasKey(key: KeyFn, k: string): Trade -> bool {
    t => Grouped(t, key) && key(t).value == k
  }

  function Rows(rows: seq<Trade>, key: KeyFn, k: string): seq<Trade> {
    Select(rows, HasKey(key, k))
  }

  /** Keys in first-appearance order: the key order of the Map groupPerf fills. */
  function Keys(list: seq<Trade>, key: KeyFn): seq<string> {
    if list == [] then []
    else
      var before, t := Keys(list[..|list| - 1], key), list[|list| - 1];
      if Grouped(t, key) && key(t).value !in before then before + [key(t).value] else before
  }

  /** indexOf. */
  function IndexOf(order: seq<string>, k: string): int {
    if order == [] then -1
    else if order[0] == k then 0
    else
      var i := IndexOf(order[1..], k);
      if i < 0 then -1 else i + 1
  }

  /** The comparator of orderGroups: position in `order` (unlisted keys first), else best result first. */
  function Rank(order: Option<seq<string>>): GroupRow -> real {
    (g: GroupRow) => if order.Some? then IndexOf(order.value, g.key) as real else -g.perf.r
  }

  function OrderGroups(rows: seq<GroupRow>, order: Option<seq<string>>): seq<GroupRow> {
    StableSort(rows, Rank(order))
  }

  function PerfRow(list: seq<Trade>, key: KeyFn, unit: Unit, beRound: bool): string -> GroupRow {
    k => GroupRow(k, PerfOf(Rows(list, key, k), unit, beRound))
  }

  function ExpectedGroups(list: seq<Trade>, key: KeyFn, order: Option<seq<string>>, unit: Unit, beRound: bool)
    : seq<GroupRow>
  {
    OrderGroups(Map(Keys(list, key), PerfRow(list, key, unit, beRound)), order)
  }

  lemma KeysSnoc(list: seq<Trade>, t: Trade, key: KeyFn)
    ensures Keys(list + [t], key)
         == if Grouped(t, key) && key(t).value !in Keys(list, key) then Keys(list, key) + [key(t).value]
            else Keys(list, key)
  {
    assert (list + [t])[..|list|] == list;
  }

  lemma {:induction false} KeysMembers(list: seq<Trade>, key: KeyFn)
    ensures Distinct(Keys(list, key))
    ensures forall k :: k in Keys(list, key) <==> exists t :: t in list && Grouped(t, key) && key(t).value == k
  {
    if list != [] {
      var init, t := list[..|list| - 1], list[|list| - 1];
      assert list == init + [t];
      KeysMembers(init, key);
      KeysSnoc(init, t, key);
    }
  }

  /** The Map after the rows `list`: its keys in insertion order, and the trades under each. */
  ghost predicate Buckets(list: seq<Trade>, key: KeyFn, keys: seq<string>, m: map<string, seq<Trade>>) {
    && keys == Keys(list, key)
    && (forall k :: k in m <==> k in keys)
    && (forall k :: k in m ==> m[k] == Rows(list, key, k))
  }

  lemma BucketsSkip(list: seq<Trade>, t: Trade, key: KeyFn, keys: seq<string>, m: map<string, seq<Trade>>)
    requires Buckets(list, key, keys, m) && !Grouped(t, key)
    ensures Buckets(list + [t], key, keys, m)
  {
    KeysSnoc(list, t, key);
    forall k | k in m ensures Rows(list + [t], key, k) == m[k] {
      SelectSnoc(list, t, HasKey(key, k));
    }
  }

  lemma NoRowsYet(list: seq<Trade>, key: KeyFn, k: string)
    requires k !in Keys(list, key)
    ensures Rows(list, key, k) == []
  {
    KeysMembers(list, key);
    SelectNone(list, HasKey(key, k));
  }

  lemma RowsSnoc(list: seq<Trade>, t: Trade, key: KeyFn, k: string)
    ensures Rows(list + [t], key, k)
         == if Grouped(t, key) && key(t).value == k then Rows(list, key, k) + [t] else Rows(list, key, k)
  {
    SelectSnoc(list, t, HasKey(key, k));
  }

  lemma BucketsAdd(list: seq<Trade>, t: Trade, key: KeyFn, keys: seq<string>, m: map<string, seq<Trade>>,
                   m': map<string, seq<Trade>>)
    requires Buckets(list, key, keys, m) && Grouped(t, key)
    requires var k := key(t).value; m' == if k in m then m[k := m[k] + [t]] else m[k := [t]]
    ensures Buckets(list + [t], key, if key(t).value in m then keys else keys + [key(t).value], m')
  {
    var k0 := key(t).value;
    KeysSnoc(list, t, key);
    if k0 !in m {
      NoRowsYet(list, key, k0);
      assert [] + [t] == [t];
    }
    forall k | k in m' ensures m'[k] == Rows(list + [t], key, k) {
      RowsSnoc(list, t, key, k);
    }
  }

  // ---- what a grouped table is, from the rows and the order list -------------------------------

  /** Row `i` is the first one filed under `k`. */
  ghost predicate OpensGroup(list: seq<Trade>, key: KeyFn, k: string, i: nat) {
    i < |list| && key(list[i]) == Some(k) && forall j :: 0 <= j < i ==> key(list[j]) != Some(k)
  }

  ghost predicate AppearsFirst(list: seq<Trade>, key: KeyFn, a: string, b: string) {
    exists i: nat, j: nat :: i < j && OpensGroup(list, key, a, i) && OpensGroup(list, key, b, j)
  }

  /** Where `k` first stands in an order list; -1 for a key outside it. */
  predicate IsPlace(names: seq<string>, k: string, p: int) {
    (p == -1 && k !in names) || (0 <= p < |names| && names[p] == k && k !in names[..p])
  }

  /** Row `a` belongs ahead of row `b`: best result first, or by place in the list with keys outside it
      ahead of all others; equals in order of first appearance. */
  ghost predicate Precedes(list: seq<Trade>, key: KeyFn, order: Option<seq<string>>, a: GroupRow, b: GroupRow) {
    match order
    case None => a.perf.r > b.perf.r || (a.perf.r == b.perf.r && AppearsFirst(list, key, a.key, b.key))
    case Some(names) =>
      exists p, q :: && IsPlace(names, a.key, p) && IsPlace(names, b.key, q)
                     && (p < q || (p == q && AppearsFirst(list, key, a.key, b.key)))
  }

  function Filed(key: KeyFn, k: string): Trade -> bool {
    t => key(t) == Some(k)
  }

  /** A table row shows the figures of the rows filed under its key, which is not empty. */
  ghost predicate IsGroupRow(list: seq<Trade>, key: KeyFn, unit: Unit, beRound: bool, g: GroupRow) {
    && g.key != ""
    && (exists t :: t in list && key(t) == Some(g.key))
    && exists runs :: Tallies(list, Filed(key, g.key), unit, beRound, runs) && Shows(g.perf, runs[|list|])
  }

  ghost predicate IsGroupTable(out: seq<GroupRow>, list: seq<Trade>, key: KeyFn, order: Option<seq<string>>,
                               unit: Unit, beRound: bool)
  {
    && (forall g :: g in out ==> IsGroupRow(list, key, unit, beRound, g))
    && (forall t :: t in list && key(t).Some? && key(t).value != "" ==> HoldsKey(out, key(t).value))
    && (forall i, j :: 0 <= i < j < |out| ==>
          out[i].key != out[j].key && Precedes(list, key, order, out[i], out[j]))
  }

  predicate HoldsKey(out: seq<GroupRow>, k: string) {
    exists i :: 0 <= i < |out| && out[i].key == k
  }

  lemma {:induction false} SelectSame<T(!new)>(s: seq<T>, p: T -> bool, q: T -> bool)
    requires forall x :: p(x) == q(x)
    ensures Select(s, p) == Select(s, q)
  {
    if s != [] {
      SelectSame(s[..|s| - 1], p, q);
    }
  }

  lemma {:induction false} IndexOfIsPlace(names: seq<string>, k: string)
    ensures IsPlace(names, k, IndexOf(names, k))
  {
    if names != [] && names[0] != k {
      IndexOfIsPlace(names[1..], k);
      var p := IndexOf(names, k);
      assert names == [names[0]] + names[1..];
      if p >= 0 {
        assert names[..p] == [names[0]] + names[1..][..p - 1];
      }
    }
  }

  lemma GroupRowMeans(list: seq<Trade>, key: KeyFn, unit: Unit, beRound: bool, k: string)
    requires k in Keys(list, key)
    ensures IsGroupRow(list, key, unit, beRound, PerfRow(list, key, unit, beRound)(k))
  {
    KeysMembers(list, key);
    SelectSame(list, HasKey(key, k), Filed(key, k));
    var runs := PerfMeans(list, Filed(key, k), unit, beRound);
  }

  lemma FirstRowsAppear(list: seq<Trade>, key: KeyFn, a: string, b: string)
    requires a != b && Before(Keys(list, key), a, b)
    ensures AppearsFirst(list, key, a, b)
  {
    KeysByFirstRow(list, key, a, b);
    var i, j :| 0 <= i < j < |list| && FirstOf(list, key, a, i) && FirstOf(list, key, b, j);
    assert OpensGroup(list, key, a, i) && OpensGroup(list, key, b, j);
  }

  lemma EarlierPrecedes(list: seq<Trade>, key: KeyFn, order: Option<seq<string>>, a: GroupRow, b: GroupRow)
    requires a.key != b.key
    requires Rank(order)(a) < Rank(order)(b)
          || (Rank(order)(a) == Rank(order)(b) && Before(Keys(list, key), a.key, b.key))
    ensures Precedes(list, key, order, a, b)
  {
    if Rank(order)(a) == Rank(order)(b) {
      FirstRowsAppear(list, key, a.key, b.key);
    }
    if order.Some? {
      IndexOfIsPlace(order.value, a.key);
      IndexOfIsPlace(order.value, b.key);
    }
  }

  lemma SortedKeysPrecede(list: seq<Trade>, key: KeyFn, order: Option<seq<string>>, unit: Unit, beRound: bool,
                          keys: seq<string>, i: nat, j: nat)
    requires keys == StableSort(Keys(list, key), Compose(Rank(order), PerfRow(list, key, unit, beRound)))
    requires i < j < |keys|
    ensures var f := PerfRow(list, key, unit, beRound);
      keys[i] != keys[j] && Precedes(list, key, order, f(keys[i]), f(keys[j]))
  {
    var f := PerfRow(list, key, unit, beRound);
    var rank := Compose(Rank(order), f);
    KeysMembers(list, key);
    StableSortMembers(Keys(list, key), rank);
    StableSortDistinct(Keys(list, key), rank);
    BeforeByIndex(keys, i, j);
    StableSortBefore(Keys(list, key), rank, keys[i], keys[j]);
    EarlierPrecedes(list, key, order, f(keys[i]), f(keys[j]));
  }

  /** The groups groupPerf shapes and sorts are the table the rows and the order list call for. */
  lemma GroupTable(list: seq<Trade>, key: KeyFn, order: Option<seq<string>>, unit: Unit, beRound: bool)
    ensures IsGroupTable(ExpectedGroups(list, key, order, unit, beRound), list, key, order, unit, beRound)
  {
    var f := PerfRow(list, key, unit, beRound);
    var keys := StableSort(Keys(list, key), Compose(Rank(order), f));
    var out := ExpectedGroups(list, key, order, unit, beRound);
    StableSortMap(Keys(list, key), f, Rank(order));
    StableSortMembers(Keys(list, key), Compose(Rank(order), f));
    KeysMembers(list, key);
    forall g | g in out ensures IsGroupRow(list, key, unit, beRound, g) {
      var i :| 0 <= i < |out| && out[i] == g;
      GroupRowMeans(list, key, unit, beRound, keys[i]);
    }
    forall t | t in list && key(t).Some? && key(t).value != "" ensures HoldsKey(out, key(t).value) {
      assert key(t).value in keys;
      var i :| 0 <= i < |keys| && keys[i] == key(t).value;
      assert out[i].key == key(t).value;
    }
    forall i, j | 0 <= i < j < |out|
      ensures out[i].key != out[j].key && Precedes(list, key, order, out[i], out[j])
    {
      SortedKeysPrecede(list, key, order, unit, beRound, keys, i, j);
    }
  }

  /** groupPerf: a Map from key to its trades, filled in list order, then shaped and sorted. */
  method GroupPerf(list: seq<Trade>, key: KeyFn, order: Option<seq<string>>, unit: Unit, beRound: bool)
    returns (out: seq<GroupRow>)
    ensures out == ExpectedGroups(list, key, order, unit, beRound)
    ensures IsGroupTable(out, list, key, order, unit, beRound)
  {
    var keys: seq<string>, m: map<string, seq<Trade>> := [], map[];
    for i := 0 to |list|
      invariant Buckets(list[..i], key, keys, m)
    {
      assert list[..i + 1] == list[..i] + [list[i]];
      var t := list[i];
      if !Grouped(t, key) {
        BucketsSkip(list[..i], t, key, keys, m);
        continue;
      }
      var k := key(t).value;
      ghost var before := m;
      if k !in m {
        keys, m := keys + [k], m[k := []];
        assert [] + [t] == [t];
      }
      m := m[k := m[k] + [t]];
      BucketsAdd(list[..i], t, key, if k in before then keys else keys[..|keys| - 1], before, m);
    }
    assert list[..|list|] == list;
    var shaped := seq(|keys|, i requires 0 <= i < |keys| && keys[i] in m =>
      GroupRow(keys[i], PerfOf(m[keys[i]], unit, beRound)));
    assert shaped == Map(keys, PerfRow(list, key, unit, beRound));
    out := OrderGroups(shaped, order);
    GroupTable(list, key, order, unit, beRound);
  }

  // ---- the SQL side ----------------------------------------------------------------------

  predicate IsMinClose(m: int, rows: seq<Trade>) {
    (exists t :: t in rows && t.closeTime == m) && forall t :: t in rows ==> m <= t.closeTime
  }

  predicate IsMinId(m: int, rows: seq<Trade>) {
    (exists t :: t in rows && t.id == m) && forall t :: t in rows ==> m <= t.id
  }

  /** ORDER BY x.first_at, x.first_id. */
  predicate GroupBefore(a: SqlGroup, b: SqlGroup) {
    a.firstAt < b.firstAt || (a.firstAt == b.firstAt && a.firstId < b.firstId)
  }

  /** What `aggGroup(groupCte)` may return: one row per key, aggregated over that key's rows,
      with MIN(close_time) and MIN(id) taken independently, in (first_at, first_id) order. */
  ghost predicate IsGroupResult(out: seq<SqlGroup>, rows: seq<Trade>, key: KeyFn, unit: Unit, beRound: bool) {
    && (forall i, j :: 0 <= i < j < |out| ==> out[i].key != out[j].key && GroupBefore(out[i], out[j]))
    && (forall t :: t in rows && Grouped(t, key) ==> exists i :: 0 <= i < |out| && out[i].key == key(t).value)
    && (forall i :: 0 <= i < |out| ==>
          && out[i].agg == SqlAgg(Rows(rows, key, out[i].key), unit, beRound)
          && IsMinClose(out[i].firstAt, Rows(rows, key, out[i].key))
          && IsMinId(out[i].firstId, Rows(rows, key, out[i].key)))
  }

  function ShapedRow(): SqlGroup -> GroupRow {
    (g: SqlGroup) => GroupRow(g.key, ShapePerf(g.agg))
  }

  /** shapeGroups. */
  function ShapeGroups(out: seq<SqlGroup>, order: Option<seq<string>>): seq<GroupRow> {
    OrderGroups(Map(out, ShapedRow()), order)
  }

  function KeyOf(): SqlGroup -> string {
    (g: SqlGroup) => g.key
  }

  /** The grouping column does not depend on the snapped Fixed R. */
  ghost predicate IgnoresFixedR(key: KeyFn) {
    forall t: Trade, r :: key(t.(fixedR := r)) == key(t)
  }

  lemma {:induction false} SnapRows(rows: seq<Trade>, key: KeyFn, k: string, beRound: bool)
    requires IgnoresFixedR(key)
    ensures Rows(SnapBeRounding(rows, beRound), key, k) == SnapBeRounding(Rows(rows, key, k), beRound)
  {
    if rows == [] {
      assert SnapBeRounding(rows, beRound) == [];
    } else {
      var init, t := rows[..|rows| - 1], rows[|rows| - 1];
      assert rows == init + [t];
      SnapRows(init, key, k, beRound);
      SnapSnoc(init, t, beRound);
      SelectSnoc(init, t, HasKey(key, k));
      SelectSnoc(SnapBeRounding(init, beRound), Snap(t, beRound), HasKey(key, k));
      SnapSnoc(Rows(init, key, k), t, beRound);
    }
  }

  lemma {:induction false} SnapKeys(rows: seq<Trade>, key: KeyFn, beRound: bool)
    requires IgnoresFixedR(key)
    ensures Keys(SnapBeRounding(rows, beRound), key) == Keys(rows, key)
  {
    if rows == [] {
      assert SnapBeRounding(rows, beRound) == [];
    } else {
      var init, t := rows[..|rows| - 1], rows[|rows| - 1];
      assert rows == init + [t];
      SnapKeys(init, key, beRound);
      SnapSnoc(init, t, beRound);
      KeysSnoc(init, t, key);
      KeysSnoc(SnapBeRounding(init, beRound), Snap(t, beRound), key);
    }
  }

  /** The JavaScript row for a key, computed from the stored rows. */
  function JsRow(rows: seq<Trade>, key: KeyFn, unit: Unit, beRound: bool): string -> GroupRow {
    PerfRow(SnapBeRounding(rows, beRound), key, unit, beRound)
  }

  lemma SqlRowsAreJsRows(out: seq<SqlGroup>, rows: seq<Trade>, key: KeyFn, unit: Unit, beRound: bool)
    requires IgnoresFixedR(key) && IsGroupResult(out, rows, key, unit, beRound)
    ensures Map(out, ShapedRow()) == Map(Map(out, KeyOf()), JsRow(rows, key, unit, beRound))
  {
    forall i | 0 <= i < |out|
      ensures ShapedRow()(out[i]) == JsRow(rows, key, unit, beRound)(out[i].key)
    {
      SnapRows(rows, key, out[i].key, beRound);
      ShapedAggregatesArePerf(Rows(rows, key, out[i].key), unit, beRound);
    }
  }

  lemma SameKeys(out: seq<SqlGroup>, rows: seq<Trade>, key: KeyFn, unit: Unit, beRound: bool)
    requires IsGroupResult(out, rows, key, unit, beRound)
    ensures Distinct(Map(out, KeyOf())) && Distinct(Keys(rows, key))
    ensures forall k :: k in Map(out, KeyOf()) <==> k in Keys(rows, key)
  {
    KeysMembers(rows, key);
    var ks := Map(out, KeyOf());
    forall k ensures k in ks <==> k in Keys(rows, key) {
      if k in ks {
        OutKeyHasRow(out, rows, key, unit, beRound, k);
      }
      if k in Keys(rows, key) {
        RowHasOutKey(out, rows, key, unit, beRound, k);
      }
    }
  }

  lemma OutKeyHasRow(out: seq<SqlGroup>, rows: seq<Trade>, key: KeyFn, unit: Unit, beRound: bool, k: string)
    requires IsGroupResult(out, rows, key, unit, beRound) && k in Map(out, KeyOf())
    ensures k in Keys(rows, key)
  {
    KeysMembers(rows, key);
    var i :| 0 <= i < |out| && Map(out, KeyOf())[i] == k;
    SelectMembers(rows, HasKey(key, k));
  }

  lemma RowHasOutKey(out: seq<SqlGroup>, rows: seq<Trade>, key: KeyFn, unit: Unit, beRound: bool, k: string)
    requires IsGroupResult(out, rows, key, unit, beRound) && k in Keys(rows, key)
    ensures k in Map(out, KeyOf())
  {
    KeysMembers(rows, key);
    var t :| t in rows && Grouped(t, key) && key(t).value == k;
    var i :| 0 <= i < |out| && out[i].key == key(t).value;
    assert Map(out, KeyOf())[i] == k;
  }

  /** As a keyed table the two agree, whatever the ids. */
  lemma KeyedTablesAgree(out: seq<SqlGroup>, rows: seq<Trade>, key: KeyFn, order: Option<seq<string>>,
                         unit: Unit, beRound: bool, g: GroupRow)
    requires IgnoresFixedR(key) && IsGroupResult(out, rows, key, unit, beRound)
    ensures g in ShapeGroups(out, order)
       <==> g in ExpectedGroups(SnapBeRounding(rows, beRound), key, order, unit, beRound)
  {
    var f := JsRow(rows, key, unit, beRound);
    var sqlKeys, jsKeys := Map(out, KeyOf()), Keys(rows, key);
    SqlRowsAreJsRows(out, rows, key, unit, beRound);
    SameKeys(out, rows, key, unit, beRound);
    SnapKeys(rows, key, beRound);
    StableSortMembers(Map(sqlKeys, f), Rank(order));
    StableSortMembers(Map(jsKeys, f), Rank(order));
    MapMembers(sqlKeys, f, g);
    MapMembers(jsKeys, f, g);
  }

  lemma MapMembers<T(!new), U>(s: seq<T>, f: T -> U, y: U)
    ensures y in Map(s, f) <==> exists x :: x in s && f(x) == y
  {
    if y in Map(s, f) {
      var i :| 0 <= i < |s| && Map(s, f)[i] == y;
      assert s[i] in s;
    }
    forall x | x in s && f(x) == y ensures y in Map(s, f) {
      var i :| 0 <= i < |s| && s[i] == x;
      assert Map(s, f)[i] == y;
    }
  }

  // ---- as an ordered list ----------------------------------------------------------------

  /** `t` is the first row of `rows` in its group. */
  predicate FirstOf(rows: seq<Trade>, key: KeyFn, k: string, i: nat)
    requires i < |rows|
  {
    HasKey(key, k)(rows[i]) && forall j :: 0 <= j < i ==> !HasKey(key, k)(rows[j])
  }

  /** Key order is the order of first rows. */
  lemma {:induction false} KeysByFirstRow(rows: seq<Trade>, key: KeyFn, a: string, b: string)
    requires a != b && Before(Keys(rows, key), a, b)
    ensures exists i, j :: 0 <= i < j < |rows| && FirstOf(rows, key, a, i) && FirstOf(rows, key, b, j)
  {
    var init, t := rows[..|rows| - 1], rows[|rows| - 1];
    assert rows == init + [t];
    KeysSnoc(init, t, key);
    if Before(Keys(init, key), a, b) {
      KeysByFirstRow(init, key, a, b);
      var i, j :| 0 <= i < j < |init| && FirstOf(init, key, a, i) && FirstOf(init, key, b, j);
      assert FirstOf(rows, key, a, i) && FirstOf(rows, key, b, j);
    } else {
      KeysMembers(init, key);
      assert b == key(t).value && a in Keys(init, key) && b !in Keys(init, key);
      var i := FirstRow(init, key, a);
      assert FirstOf(rows, key, a, i) && FirstOf(rows, key, b, |init|);
    }
  }

  lemma {:induction false} FirstRow(rows: seq<Trade>, key: KeyFn, k: string) returns (i: nat)
    requires exists t :: t in rows && Grouped(t, key) && key(t).value == k
    ensures i < |rows| && FirstOf(rows, key, k, i)
  {
    var t :| t in rows && Grouped(t, key) && key(t).value == k;
    i := 0;
    while !HasKey(key, k)(rows[i])
      invariant i < |rows|
      invariant forall j :: 0 <= j < i ==> !HasKey(key, k)(rows[j])
      decreases |rows| - i
    {
      assert exists m :: i < m < |rows| && rows[m] == t;
      i := i + 1;
    }
  }

  /** Rows come in close order, so the group that appears first never closes later. */
  lemma EarlierGroupClosesEarlier(rows: seq<Trade>, key: KeyFn, a: string, b: string, ma: int, mb: int)
    requires InCloseOrder(rows) && a != b && Before(Keys(rows, key), a, b)
    requires IsMinClose(ma, Rows(rows, key, a)) && IsMinClose(mb, Rows(rows, key, b))
    ensures ma <= mb
  {
    KeysByFirstRow(rows, key, a, b);
    var i, j :| 0 <= i < j < |rows| && FirstOf(rows, key, a, i) && FirstOf(rows, key, b, j);
    SelectMembers(rows, HasKey(key, a));
    SelectMembers(rows, HasKey(key, b));
    assert rows[i] in Rows(rows, key, a);
    var t :| t in Rows(rows, key, b) && t.closeTime == mb;
    var n :| 0 <= n < |rows| && rows[n] == t;
    assert j <= n && RowBefore(rows[i], rows[n]);
  }

  ghost predicate MinCloseTie(rows: seq<Trade>, key: KeyFn, a: string, b: string) {
    exists m :: IsMinClose(m, Rows(rows, key, a)) && IsMinClose(m, Rows(rows, key, b))
  }

  ghost predicate MinIdsInOrder(rows: seq<Trade>, key: KeyFn, a: string, b: string) {
    forall ia, ib :: IsMinId(ia, Rows(rows, key, a)) && IsMinId(ib, Rows(rows, key, b)) ==> ia < ib
  }

  /** No two groups that sort equal and share their first close time have their lowest ids the
      other way round from their first rows. */
  ghost predicate NoTieInversion(rows: seq<Trade>, key: KeyFn, rank: string -> real) {
    forall a, b :: a != b && rank(a) == rank(b) && Before(Keys(rows, key), a, b) && MinCloseTie(rows, key, a, b)
      ==> MinIdsInOrder(rows, key, a, b)
  }

  /** The sort rank of a key's row, on either side. */
  function KeyRank(rows: seq<Trade>, key: KeyFn, order: Option<seq<string>>, unit: Unit, beRound: bool)
    : string -> real
  {
    Compose(Rank(order), JsRow(rows, key, unit, beRound))
  }

  lemma SqlKeyOrder(out: seq<SqlGroup>, rows: seq<Trade>, key: KeyFn, unit: Unit, beRound: bool, i: nat, j: nat)
    requires IsGroupResult(out, rows, key, unit, beRound) && i < |out| && j < |out| && i != j
    ensures Before(Map(out, KeyOf()), out[i].key, out[j].key) <==> GroupBefore(out[i], out[j])
  {
    var ks := Map(out, KeyOf());
    assert ks[i] == out[i].key && ks[j] == out[j].key;
    BeforeByIndex(ks, i, j);
    assert if i < j then GroupBefore(out[i], out[j]) else GroupBefore(out[j], out[i]);
  }

  lemma OneMinClose(rows: seq<Trade>, m: int, n: int)
    requires IsMinClose(m, rows) && IsMinClose(n, rows)
    ensures m == n
  {
  }

  /** A pair in the same relative order on both sides, unless it is a tie inversion. */
  lemma PairAgrees(out: seq<SqlGroup>, rows: seq<Trade>, key: KeyFn, unit: Unit, beRound: bool, i: nat, j: nat)
    requires InCloseOrder(rows) && IsGroupResult(out, rows, key, unit, beRound)
    requires i < |out| && j < |out| && i != j
    requires Before(Keys(rows, key), out[i].key, out[j].key)
    ensures Before(Map(out, KeyOf()), out[i].key, out[j].key)
      <==> (MinCloseTie(rows, key, out[i].key, out[j].key) ==> MinIdsInOrder(rows, key, out[i].key, out[j].key))
  {
    var a, b := out[i], out[j];
    assert a.key != b.key by {
      assert if i < j then a.key != b.key else b.key != a.key;
    }
    SqlKeyOrder(out, rows, key, unit, beRound, i, j);
    EarlierGroupClosesEarlier(rows, key, a.key, b.key, a.firstAt, b.firstAt);
    if MinCloseTie(rows, key, a.key, b.key) {
      var m :| IsMinClose(m, Rows(rows, key, a.key)) && IsMinClose(m, Rows(rows, key, b.key));
      OneMinClose(Rows(rows, key, a.key), m, a.firstAt);
      OneMinClose(Rows(rows, key, b.key), m, b.firstAt);
    }
  }

  /** Sorting two lists of the same keys gives one list exactly when equal ranks come in one order. */
  lemma {:induction false} SortsAgree(xs: seq<string>, ys: seq<string>, rank: string -> real)
    requires Distinct(xs) && Distinct(ys) && forall x :: x in xs <==> x in ys
    ensures StableSort(xs, rank) == StableSort(ys, rank)
      <==> forall a, b :: a != b && rank(a) == rank(b) && Before(xs, a, b) ==> Before(ys, a, b)
  {
    if forall a, b :: a != b && rank(a) == rank(b) && Before(xs, a, b) ==> Before(ys, a, b) {
      StableSortDistinct(xs, rank);
      StableSortDistinct(ys, rank);
      StableSortMembers(xs, rank);
      StableSortMembers(ys, rank);
      forall a, b | a in StableSort(xs, rank) && b in StableSort(xs, rank) && a != b
          && Before(StableSort(xs, rank), a, b)
        ensures Before(StableSort(ys, rank), a, b)
      {
        StableSortBefore(xs, rank, a, b);
        StableSortBefore(ys, rank, a, b);
      }
      SameOrderSameList(StableSort(xs, rank), StableSort(ys, rank));
    }
    if StableSort(xs, rank) == StableSort(ys, rank) {
      forall a, b | a != b && rank(a) == rank(b) && Before(xs, a, b) ensures Before(ys, a, b) {
        StableSortBefore(xs, rank, a, b);
        StableSortBefore(ys, rank, a, b);
      }
    }
  }

  lemma PairsAgreeExactlyWithoutTieInversion(out: seq<SqlGroup>, rows: seq<Trade>, key: KeyFn,
                                             unit: Unit, beRound: bool, rank: string -> real)
    requires InCloseOrder(rows) && IsGroupResult(out, rows, key, unit, beRound)
    ensures (forall a, b :: a != b && rank(a) == rank(b) && Before(Keys(rows, key), a, b)
              ==> Before(Map(out, KeyOf()), a, b))
      <==> NoTieInversion(rows, key, rank)
  {
    var ks := Map(out, KeyOf());
    SameKeys(out, rows, key, unit, beRound);
    forall a, b | a != b && rank(a) == rank(b) && Before(Keys(rows, key), a, b)
      ensures Before(ks, a, b) <==> (MinCloseTie(rows, key, a, b) ==> MinIdsInOrder(rows, key, a, b))
    {
      assert a in ks && b in ks;
      var i :| 0 <= i < |ks| && ks[i] == a;
      var j :| 0 <= j < |ks| && ks[j] == b;
      PairAgrees(out, rows, key, unit, beRound, i, j);
    }
  }

  lemma MapInjective(xs: seq<string>, ys: seq<string>, rows: seq<Trade>, key: KeyFn, unit: Unit, beRound: bool)
    ensures Map(xs, JsRow(rows, key, unit, beRound)) == Map(ys, JsRow(rows, key, unit, beRound)) <==> xs == ys
  {
    var f := JsRow(rows, key, unit, beRound);
    if Map(xs, f) == Map(ys, f) {
      forall i | 0 <= i < |xs| ensures xs[i] == ys[i] {
        assert Map(xs, f)[i].key == xs[i] && Map(ys, f)[i].key == ys[i];
      }
    }
  }

  /** The grouped list the database path returns is groupPerf's list, order and all, exactly when
      no tie is inverted. */
  lemma OrderedListsAgreeExactly(out: seq<SqlGroup>, rows: seq<Trade>, key: KeyFn, order: Option<seq<string>>,
                                 unit: Unit, beRound: bool)
    requires IgnoresFixedR(key) && InCloseOrder(rows) && IsGroupResult(out, rows, key, unit, beRound)
    ensures ShapeGroups(out, order) == ExpectedGroups(SnapBeRounding(rows, beRound), key, order, unit, beRound)
      <==> NoTieInversion(rows, key, KeyRank(rows, key, order, unit, beRound))
  {
    var f := JsRow(rows, key, unit, beRound);
    var rank := KeyRank(rows, key, order, unit, beRound);
    var sqlKeys, jsKeys := Map(out, KeyOf()), Keys(rows, key);
    SqlRowsAreJsRows(out, rows, key, unit, beRound);
    SameKeys(out, rows, key, unit, beRound);
    SnapKeys(rows, key, beRound);
    StableSortMap(sqlKeys, f, Rank(order));
    StableSortMap(jsKeys, f, Rank(order));
    MapInjective(StableSort(sqlKeys, rank), StableSort(jsKeys, rank), rows, key, unit, beRound);
    SortsAgree(jsKeys, sqlKeys, rank);
    PairsAgreeExactlyWithoutTieInversion(out, rows, key, unit, beRound, rank);
  }

  /** Ids that grow along the close order never invert a tie. */
  lemma IdsInCloseOrderNeverInvert(rows: seq<Trade>, key: KeyFn, rank: string -> real)
    requires InCloseOrder(rows) && forall i, j :: 0 <= i < j < |rows| ==> rows[i].id < rows[j].id
    ensures NoTieInversion(rows, key, rank)
  {
    forall a, b | a != b && Before(Keys(rows, key), a, b) ensures MinIdsInOrder(rows, key, a, b) {
      LowestIdIsFirst(rows, key, a, b);
    }
  }

  lemma LowestIdIsFirst(rows: seq<Trade>, key: KeyFn, a: string, b: string)
    requires forall i, j :: 0 <= i < j < |rows| ==> rows[i].id < rows[j].id
    requires a != b && Before(Keys(rows, key), a, b)
    ensures MinIdsInOrder(rows, key, a, b)
  {
    KeysByFirstRow(rows, key, a, b);
    forall ia, ib | IsMinId(ia, Rows(rows, key, a)) && IsMinId(ib, Rows(rows, key, b)) ensures ia < ib {
      var i, j :| 0 <= i < j < |rows| && FirstOf(rows, key, a, i) && FirstOf(rows, key, b, j);
      SelectMembers(rows, HasKey(key, a));
      SelectMembers(rows, HasKey(key, b));
      assert rows[i] in Rows(rows, key, a);
      var t :| t in Rows(rows, key, b) && t.id == ib;
      var n :| 0 <= n < |rows| && rows[n] == t;
      assert j <= n;
    }
  }

  function SetupKey(): KeyFn {
    (t: Trade) => t.setup
  }

  /** Three rows whose lowest ids reverse a shared first close time, with equal results: the query returns
      `out`, and the two paths list the groups in opposite orders. */
  lemma TieInversionHappens(a: Trade, b1: Trade, b2: Trade) returns (out: seq<SqlGroup>)
    requires a.setup == Some("A") && b1.setup == Some("B") && b2.setup == Some("B")
    requires a.fixedR == b1.fixedR == Some(1.0) && b2.fixedR == Some(0.0)
    requires a.closeTime == b1.closeTime < b2.closeTime && b2.id < a.id < b1.id
    ensures InCloseOrder([a, b1, b2]) && IsGroupResult(out, [a, b1, b2], SetupKey(), R, false)
    ensures ShapeGroups(out, None)
         != ExpectedGroups(SnapBeRounding([a, b1, b2], false), SetupKey(), None, R, false)
  {
    out := TieResult(a, b1, b2);
    TieInverted(a, b1, b2);
    InvertedListsDiffer(out, [a, b1, b2]);
  }

  lemma InvertedListsDiffer(out: seq<SqlGroup>, rows: seq<Trade>)
    requires InCloseOrder(rows) && IsGroupResult(out, rows, SetupKey(), R, false)
    requires !NoTieInversion(rows, SetupKey(), KeyRank(rows, SetupKey(), None, R, false))
    ensures ShapeGroups(out, None) != ExpectedGroups(SnapBeRounding(rows, false), SetupKey(), None, R, false)
  {
    OrderedListsAgreeExactly(out, rows, SetupKey(), None, R, false);
  }

  lemma TieInverted(a: Trade, b1: Trade, b2: Trade)
    requires a.setup == Some("A") && b1.setup == Some("B") && b2.setup == Some("B")
    requires a.fixedR == b1.fixedR == Some(1.0) && b2.fixedR == Some(0.0)
    requires a.closeTime == b1.closeTime < b2.closeTime && b2.id < a.id < b1.id
    ensures !NoTieInversion([a, b1, b2], SetupKey(), KeyRank([a, b1, b2], SetupKey(), None, R, false))
  {
    var rows := [a, b1, b2];
    ThreeRows(a, b1, b2);
    EqualResults(a, b1, b2, rows);
    TieOf(a, b1, b2);
    assert !MinIdsInOrder(rows, SetupKey(), "A", "B") by {
      assert IsMinId(a.id, Rows(rows, SetupKey(), "A")) && IsMinId(b2.id, Rows(rows, SetupKey(), "B"));
    }
  }

  lemma TieResult(a: Trade, b1: Trade, b2: Trade) returns (out: seq<SqlGroup>)
    requires a.setup == Some("A") && b1.setup == Some("B") && b2.setup == Some("B")
    requires a.closeTime == b1.closeTime < b2.closeTime && b2.id < a.id < b1.id
    ensures InCloseOrder([a, b1, b2]) && IsGroupResult(out, [a, b1, b2], SetupKey(), R, false)
  {
    out := [SqlGroup("B", SqlAgg([b1, b2], R, false), b1.closeTime, b2.id),
            SqlGroup("A", SqlAgg([a], R, false), a.closeTime, a.id)];
    ThreeRows(a, b1, b2);
    TieOf(a, b1, b2);
    assert out[0].key == "B" && out[1].key == "A";
  }

  lemma TieOf(a: Trade, b1: Trade, b2: Trade)
    requires a.closeTime == b1.closeTime < b2.closeTime && b2.id < a.id < b1.id
    ensures IsMinClose(a.closeTime, [a]) && IsMinClose(a.closeTime, [b1, b2])
    ensures IsMinId(a.id, [a]) && IsMinId(b2.id, [b1, b2])
  {
    assert [a][0] == a && [b1, b2][0] == b1 && [b1, b2][1] == b2;
  }

  lemma ThreeRows(a: Trade, b1: Trade, b2: Trade)
    requires a.setup == Some("A") && b1.setup == Some("B") && b2.setup == Some("B")
    ensures Before(Keys([a, b1, b2], SetupKey()), "A", "B")
    ensures Rows([a, b1, b2], SetupKey(), "A") == [a]
    ensures Rows([a, b1, b2], SetupKey(), "B") == [b1, b2]
  {
    var key := SetupKey();
    assert [] + [a] == [a] && [a] + [b1] == [a, b1] && [a, b1] + [b2] == [a, b1, b2];
    KeysSnoc([], a, key);
    KeysSnoc([a], b1, key);
    KeysSnoc([a, b1], b2, key);
    var ks := Keys([a, b1, b2], key);
    assert ks[0] == "A" && ks[1] == "B";
    RowsOf(a, b1, b2, "A");
    RowsOf(a, b1, b2, "B");
  }

  lemma RowsOf(a: Trade, b1: Trade, b2: Trade, k: string)
    requires a.setup == Some("A") && b1.setup == Some("B") && b2.setup == Some("B") && k in {"A", "B"}
    ensures Rows([a, b1, b2], SetupKey(), k) == if k == "A" then [a] else [b1, b2]
  {
    assert [] + [a] == [a] && [a] + [b1] == [a, b1] && [a, b1] + [b2] == [a, b1, b2];
    RowsSnoc([], a, SetupKey(), k);
    RowsSnoc([a], b1, SetupKey(), k);
    RowsSnoc([a, b1], b2, SetupKey(), k);
  }

  lemma EqualResults(a: Trade, b1: Trade, b2: Trade, rows: seq<Trade>)
    requires a.fixedR == b1.fixedR == Some(1.0) && b2.fixedR == Some(0.0)
    requires Rows(rows, SetupKey(), "A") == [a] && Rows(rows, SetupKey(), "B") == [b1, b2]
    ensures var rank := KeyRank(rows, SetupKey(), None, R, false); rank("A") == rank("B")
  {
    SnapRows(rows, SetupKey(), "A", false);
    SnapRows(rows, SetupKey(), "B", false);
    ShapedAggregatesArePerf([a], R, false);
    ShapedAggregatesArePerf([b1, b2], R, false);
    assert [b1, b2][..1] == [b1];
    assert SumVal([a], R, false) == SumVal([b1, b2], R, false);
  }
}

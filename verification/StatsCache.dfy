/** The per-worker analytics cache: an insertion-ordered Map used as a bounded LRU with expiry. */
module StatsCache {
  import opened Prelude

  /** One Map entry, in insertion order. */
  datatype Slot<V> = Slot(key: string, value: V, owner: Option<int>, expiresAt: int)

  type Entries<V> = seq<Slot<V>>

  function NotKey<V>(key: string): Slot<V> -> bool {
    (s: Slot<V>) => s.key != key
  }

  /** entries.delete(key). */
  function Without<V>(c: Entries<V>, key: string): Entries<V> {
    Select(c, NotKey(key))
  }

  /** entries.get(key). */
  function Find<V>(c: Entries<V>, key: string): Option<Slot<V>> {
    if c == [] then None
    else if c[|c| - 1].key == key then Some(c[|c| - 1])
    else Find(c[..|c| - 1], key)
  }

  /** invalidateUser drops an entry when either side's user is unknown or they are the same. */
  predicate Matches(owner: Option<int>, user: Option<int>) {
    user.None? || owner.None? || owner == user
  }

  function Spared<V>(user: Option<int>): Slot<V> -> bool {
    (s: Slot<V>) => !Matches(s.owner, user)
  }

  function Purge<V>(c: Entries<V>, user: Option<int>): Entries<V> {
    Select(c, Spared(user))
  }

  /** The entries some user other than `u` owns. */
  function Others<V>(u: int): Slot<V> -> bool {
    (s: Slot<V>) => s.owner.Some? && s.owner.value != u
  }

  /** What is left after an invalidation: for a known user exactly what somebody else owns, in order; for an
      unknown one nothing. */
  function Left<V>(c: Entries<V>, user: Option<int>): Entries<V> {
    if user.None? then [] else Select(c, Others(user.value))
  }

  lemma {:induction false} PurgeLeavesOthers<V>(c: Entries<V>, user: Option<int>)
    ensures Purge(c, user) == Left(c, user)
  {
    if c != [] {
      var init, s := c[..|c| - 1], c[|c| - 1];
      assert c == init + [s];
      PurgeLeavesOthers(init, user);
      SelectSnoc(init, s, Spared<V>(user));
      if user.Some? {
        SelectSnoc(init, s, Others<V>(user.value));
      }
    }
  }

  predicate Live<V>(s: Slot<V>, now: int) {
    s.expiresAt > now
  }

  predicate IsHit<V>(c: Entries<V>, key: string, now: int) {
    Find(c, key).Some? && Live(Find(c, key).value, now)
  }

  function AfterGet<V>(c: Entries<V>, key: string, now: int): Entries<V> {
    if Find(c, key).None? then c
    else if !Live(Find(c, key).value, now) then Without(c, key)
    else Without(c, key) + [Find(c, key).value]
  }

  lemma {:induction false} FoundExactly<V(!new)>(c: Entries<V>, key: string)
    ensures Find(c, key).Some? ==> Find(c, key).value in c && Find(c, key).value.key == key
    ensures Find(c, key).None? ==> forall s :: s in c ==> s.key != key
    ensures Keyed(c) ==> forall s :: s in c && s.key == key ==> Find(c, key) == Some(s)
  {
    if c != [] {
      var init := c[..|c| - 1];
      assert c == init + [c[|c| - 1]];
      FoundExactly(init, key);
    }
  }

  /** Evicting the oldest until `max` remain. */
  function Newest<V>(c: Entries<V>, max: nat): Entries<V> {
    if |c| > max then c[|c| - max..] else c
  }

  lemma OneEvicted<V>(c: Entries<V>, max: nat)
    requires |c| > max
    ensures Newest(c[1..], max) == Newest(c, max)
  {
    var rest := c[1..];
    if |rest| > max {
      assert rest[|rest| - max..] == c[|c| - max..];
    }
  }

  function AfterSet<V>(c: Entries<V>, s: Slot<V>, max: nat): Entries<V> {
    Newest(Without(c, s.key) + [s], max)
  }

  predicate Keyed<V>(c: Entries<V>) {
    forall i, j :: 0 <= i < j < |c| ==> c[i].key != c[j].key
  }

  class Cache<V(!new)> {
    var entries: Entries<V>
    var hits: nat
    var misses: nat
    var evictions: nat
    var invalidations: nat
    const maxEntries: nat
    const ttlMs: int

    constructor (maxEntries: nat, ttlMs: int)
      ensures this.maxEntries == maxEntries && this.ttlMs == ttlMs
      ensures entries == [] && hits == misses == evictions == invalidations == 0
    {
      this.maxEntries, this.ttlMs := maxEntries, ttlMs;
      entries, hits, misses, evictions, invalidations := [], 0, 0, 0, 0;
    }

    method Get(key: string, now: int) returns (r: Option<V>)
      modifies this
      ensures entries == AfterGet(old(entries), key, now)
      ensures r == if IsHit(old(entries), key, now) then Some(Find(old(entries), key).value.value) else None
      ensures r.Some? ==> exists s :: s in old(entries) && s.key == key && s.expiresAt > now && r == Some(s.value)
      ensures r.None? && Keyed(old(entries)) ==> forall s :: s in old(entries) && s.key == key ==> s.expiresAt <= now
      ensures hits == old(hits) + (if r.Some? then 1 else 0)
      ensures misses == old(misses) + (if r.Some? then 0 else 1)
      ensures evictions == old(evictions) && invalidations == old(invalidations)
    {
      FoundExactly(entries, key);
      var hit := Find(entries, key);
      if hit.None? {
        misses := misses + 1;
        return None;
      }
      if hit.value.expiresAt <= now {
        entries := Without(entries, key);
        misses := misses + 1;
        return None;
      }
      entries := Without(entries, key);
      entries := entries + [hit.value];
      hits := hits + 1;
      return Some(hit.value.value);
    }

    method Set(key: string, value: V, owner: Option<int>, now: int)
      modifies this
      ensures entries == AfterSet(old(entries), Slot(key, value, owner, now + ttlMs), maxEntries)
      ensures hits == old(hits) && misses == old(misses) && invalidations == old(invalidations)
      ensures |entries| + (evictions - old(evictions)) == |Without(old(entries), key)| + 1
    {
      entries := Without(entries, key);
      entries := entries + [Slot(key, value, owner, now + ttlMs)];
      ghost var all := entries;
      while |entries| > maxEntries
        invariant Newest(entries, maxEntries) == Newest(all, maxEntries)
        invariant |entries| + (evictions - old(evictions)) == |all|
        invariant hits == old(hits) && misses == old(misses) && invalidations == old(invalidations)
        decreases |entries|
      {
        OneEvicted(entries, maxEntries);
        entries := entries[1..];
        evictions := evictions + 1;
      }
    }

    method InvalidateUser(user: Option<int>)
      modifies this
      ensures entries == Purge(old(entries), user) == Left(old(entries), user)
      ensures invalidations == old(invalidations) + |old(entries)| - |entries|
      ensures hits == old(hits) && misses == old(misses) && evictions == old(evictions)
    {
      PurgeLeavesOthers(entries, user);
      if user.None? {
        SelectNone(entries, Spared(user));
        invalidations := invalidations + |entries|;
        entries := [];
        return;
      }
      ghost var before := entries;
      var kept: Entries<V> := [];
      var i := 0;
      while i < |entries|
        invariant 0 <= i <= |entries| && entries == before
        invariant kept == Purge(before[..i], user)
        invariant invalidations == old(invalidations) + i - |kept|
        invariant hits == old(hits) && misses == old(misses) && evictions == old(evictions)
      {
        var e := entries[i];
        assert before[..i + 1] == before[..i] + [e];
        SelectSnoc(before[..i], e, Spared(user));
        if e.owner == user || e.owner.None? {
          invalidations := invalidations + 1;
        } else {
          kept := kept + [e];
        }
        i := i + 1;
      }
      assert before[..|before|] == before;
      entries := kept;
    }
  }

  // ---- runs of operations ----------------------------------------------------------------

  datatype Op<V> =
    | Get(key: string, now: int)
    | Set(slot: Slot<V>)
    | Invalidate(user: Option<int>)
    | Clear

  function Apply<V>(c: Entries<V>, op: Op<V>, max: nat): Entries<V> {
    match op
    case Get(key, now) => AfterGet(c, key, now)
    case Set(slot) => AfterSet(c, slot, max)
    case Invalidate(user) => Purge(c, user)
    case Clear => []
  }

  function Run<V>(ops: seq<Op<V>>, max: nat): Entries<V> {
    if ops == [] then [] else Apply(Run(ops[..|ops| - 1], max), ops[|ops| - 1], max)
  }

  /** The reference: an unbounded table that forgets only on expiry seen, invalidation or clear. */
  function Remembered<V>(ops: seq<Op<V>>, key: string): Option<Slot<V>> {
    if ops == [] then None
    else
      var before := Remembered(ops[..|ops| - 1], key);
      match ops[|ops| - 1]
      case Get(k, now) => if k == key && before.Some? && before.value.expiresAt <= now then None else before
      case Set(slot) => if slot.key == key then Some(slot) else before
      case Invalidate(user) =>
        if before.Some? && (before.value.owner.None? || user.None? || before.value.owner == user) then None else before
      case Clear => None
  }

  /** The last operation of a run sets `key`, or hits it. */
  predicate Touches<V>(c: Entries<V>, op: Op<V>, key: string) {
    (op.Set? && op.slot.key == key) || (op.Get? && op.key == key && IsHit(c, key, op.now))
  }

  /** Position of the last operation that touched `key`, from 1; 0 when none did. */
  function LastTouch<V>(ops: seq<Op<V>>, max: nat, key: string): nat {
    if ops == [] then 0
    else if Touches(Run(ops[..|ops| - 1], max), ops[|ops| - 1], key) then |ops|
    else LastTouch(ops[..|ops| - 1], max, key)
  }

  /** The key an operation touches, if any. */
  function TouchedKey<V>(c: Entries<V>, op: Op<V>): set<string> {
    match op
    case Set(slot) => {slot.key}
    case Get(k, now) => if IsHit(c, k, now) then {k} else {}
    case _ => {}
  }

  /** Distinct other keys touched since `key` last was. */
  function TouchedSince<V>(ops: seq<Op<V>>, max: nat, key: string): set<string> {
    if ops == [] then {}
    else
      var c, op := Run(ops[..|ops| - 1], max), ops[|ops| - 1];
      if Touches(c, op, key) then {} else TouchedSince(ops[..|ops| - 1], max, key) + TouchedKey(c, op)
  }

  // ---- lookups after each operation --------------------------------------------------------

  lemma {:induction false} FindMember<V(!new)>(c: Entries<V>, key: string)
    requires Keyed(c)
    ensures Find(c, key).Some? ==> Find(c, key).value in c && Find(c, key).value.key == key
    ensures Find(c, key).None? ==> forall i :: 0 <= i < |c| ==> c[i].key != key
    ensures forall i :: 0 <= i < |c| && c[i].key == key ==> Find(c, key) == Some(c[i])
  {
    if c != [] {
      FindMember(c[..|c| - 1], key);
    }
  }

  lemma {:induction false} FindSelect<V(!new)>(c: Entries<V>, p: Slot<V> -> bool, key: string)
    requires Keyed(c)
    ensures Keyed(Select(c, p)) && |Select(c, p)| <= |c|
    ensures Find(Select(c, p), key)
         == if Find(c, key).Some? && p(Find(c, key).value) then Find(c, key) else None
    ensures forall i :: 0 <= i < |Select(c, p)| ==> Find(c, Select(c, p)[i].key) == Some(Select(c, p)[i])
  {
    if c != [] {
      var init, s := c[..|c| - 1], c[|c| - 1];
      assert c == init + [s];
      FindSelect(init, p, key);
      SelectSnoc(init, s, p);
      FindMember(init, s.key);
      FindMember(init, key);
      var kept := Select(init, p);
      forall i | 0 <= i < |kept| ensures kept[i].key != s.key {
        assert Find(init, kept[i].key) == Some(kept[i]);
        FindMember(init, kept[i].key);
      }
    }
  }

  lemma {:induction false} FindSuffix<V(!new)>(c: Entries<V>, n: nat, key: string)
    requires Keyed(c) && n <= |c|
    ensures Keyed(c[n..])
    ensures Find(c[n..], key).Some? ==> Find(c[n..], key) == Find(c, key)
    ensures forall i :: n <= i < |c| && c[i].key == key ==> Find(c[n..], key) == Some(c[i])
  {
    FindMember(c, key);
    FindMember(c[n..], key);
    forall i | n <= i < |c| && c[i].key == key ensures Find(c[n..], key) == Some(c[i]) {
      assert c[n..][i - n] == c[i];
    }
  }

  lemma FindAppend<V(!new)>(c: Entries<V>, s: Slot<V>, key: string)
    requires Keyed(c) && Find(c, s.key).None?
    ensures Keyed(c + [s])
    ensures Find(c + [s], key) == if key == s.key then Some(s) else Find(c, key)
  {
    FindMember(c, s.key);
    assert (c + [s])[..|c|] == c;
  }

  /** A key's entry moved to the back. */
  lemma FindMoved<V(!new)>(c: Entries<V>, s: Slot<V>, key: string)
    requires Keyed(c)
    ensures var d := Without(c, s.key) + [s];
      Keyed(d) && Find(d, key) == if key == s.key then Some(s) else Find(c, key)
    ensures |Without(c, s.key)| <= |c|
    ensures Find(c, s.key).Some? ==> |Without(c, s.key)| < |c|
  {
    FindMember(c, s.key);
    FindMember(c, key);
    FindSelect(c, NotKey(s.key), s.key);
    FindSelect(c, NotKey(s.key), key);
    FindAppend(Without(c, s.key), s, key);
    if Find(c, s.key).Some? {
      ShorterWithout(c, s.key);
    }
  }

  lemma {:induction false} ShorterWithout<V(!new)>(c: Entries<V>, key: string)
    requires Keyed(c) && Find(c, key).Some?
    ensures |Without(c, key)| < |c|
  {
    var init, s := c[..|c| - 1], c[|c| - 1];
    assert c == init + [s];
    SelectSnoc(init, s, NotKey<V>(key));
    FindSelect(init, NotKey<V>(key), key);
    if s.key != key {
      ShorterWithout(init, key);
    }
  }

  // ---- bounded, keyed, and never wrong -----------------------------------------------------

  lemma FindAfterGet<V(!new)>(c: Entries<V>, k: string, now: int, max: nat, key: string)
    requires Keyed(c) && |c| <= max
    ensures var d := AfterGet(c, k, now);
      && Keyed(d) && |d| <= max
      && Find(d, key) == if k == key && Find(c, key).Some? && !Live(Find(c, key).value, now) then None
                         else Find(c, key)
  {
    if Find(c, k).Some? {
      FindMember(c, k);
      FindMember(c, key);
      if Live(Find(c, k).value, now) {
        FindMoved(c, Find(c, k).value, key);
      } else {
        FindSelect(c, NotKey(k), key);
      }
    }
  }

  lemma FindAfterSet<V(!new)>(c: Entries<V>, slot: Slot<V>, max: nat, key: string)
    requires Keyed(c) && |c| <= max && max >= 1
    ensures var d := AfterSet(c, slot, max);
      && Keyed(d) && |d| <= max
      && (key == slot.key ==> Find(d, key) == Some(slot))
      && (key != slot.key && Find(d, key).Some? ==> Find(d, key) == Find(c, key))
  {
    FindMoved(c, slot, key);
    var d := Without(c, slot.key) + [slot];
    assert d[|d| - 1] == slot;
    FindMember(d, key);
    if |d| > max {
      FindSuffix(d, |d| - max, key);
    }
  }

  /** What Find gives after an operation, except that a Set may evict. */
  lemma FindAfter<V(!new)>(c: Entries<V>, op: Op<V>, max: nat, key: string)
    requires Keyed(c) && |c| <= max && max >= 1
    ensures var d := Apply(c, op, max); Keyed(d) && |d| <= max
    ensures var d := Apply(c, op, max);
      match op
      case Get(k, now) => Find(d, key) == if k == key && Find(c, key).Some? && !Live(Find(c, key).value, now)
                                          then None else Find(c, key)
      case Set(slot) => if key == slot.key then Find(d, key) == Some(slot)
                        else Find(d, key).Some? ==> Find(d, key) == Find(c, key)
      case Invalidate(user) => Find(d, key) == if Find(c, key).Some? && Matches(Find(c, key).value.owner, user)
                                               then None else Find(c, key)
      case Clear => d == []
  {
    match op
    case Get(k, now) => FindAfterGet(c, k, now, max, key);
    case Set(slot) => FindAfterSet(c, slot, max, key);
    case Invalidate(user) => FindSelect(c, Spared(user), key);
    case Clear =>
  }

  /** The size never exceeds `maxEntries`, keys are unique, and whatever is found is exactly what the
      unbounded reference remembers: the last value set, with no expiry or invalidation since. */
  lemma {:induction false} BoundedAndFaithful<V(!new)>(ops: seq<Op<V>>, max: nat, key: string)
    requires max >= 1
    ensures Keyed(Run(ops, max)) && |Run(ops, max)| <= max
    ensures Find(Run(ops, max), key).Some? ==> Find(Run(ops, max), key) == Remembered(ops, key)
  {
    if ops != [] {
      BoundedAndFaithful(ops[..|ops| - 1], max, key);
      FindAfter(Run(ops[..|ops| - 1], max), ops[|ops| - 1], max, key);
    }
  }

  // ---- Map order is recency order ----------------------------------------------------------

  predicate Ordered<V>(c: Entries<V>, f: string -> nat) {
    forall i, j :: 0 <= i < j < |c| ==> f(c[i].key) < f(c[j].key)
  }

  lemma {:induction false} OrderedSelect<V(!new)>(c: Entries<V>, p: Slot<V> -> bool, f: string -> nat)
    requires Ordered(c, f)
    ensures Ordered(Select(c, p), f)
  {
    if c != [] {
      var init, s := c[..|c| - 1], c[|c| - 1];
      assert c == init + [s];
      OrderedSelect(init, p, f);
      SelectSnoc(init, s, p);
      SelectMembers(init, p);
      forall i | 0 <= i < |Select(init, p)| ensures f(Select(init, p)[i].key) < f(s.key) {
        assert Select(init, p)[i] in init;
      }
    }
  }

  function Recency<V>(ops: seq<Op<V>>, max: nat): string -> nat {
    k => LastTouch(ops, max, k)
  }

  lemma {:induction false} TouchBound<V(!new)>(ops: seq<Op<V>>, max: nat, key: string)
    ensures LastTouch(ops, max, key) <= |ops|
  {
    if ops != [] {
      TouchBound(ops[..|ops| - 1], max, key);
    }
  }

  lemma OrderedAs<V(!new)>(c: Entries<V>, f: string -> nat, g: string -> nat)
    requires Ordered(c, f) && forall s :: s in c ==> f(s.key) == g(s.key)
    ensures Ordered(c, g)
  {
    assert forall i :: 0 <= i < |c| ==> c[i] in c;
  }

  /** The touched entry goes last, the others keep their order. */
  lemma OrderedMove<V(!new)>(c: Entries<V>, s: Slot<V>, f: string -> nat, g: string -> nat, n: nat)
    requires Keyed(c) && Ordered(c, f)
    requires forall k :: f(k) < n && (k != s.key ==> g(k) == f(k)) && g(s.key) == n
    ensures Ordered(Without(c, s.key) + [s], g)
  {
    OrderedSelect(c, NotKey(s.key), f);
    SelectMembers(c, NotKey(s.key));
    OrderedAs(Without(c, s.key), f, g);
    var w := Without(c, s.key);
    forall i | 0 <= i < |w| ensures g(w[i].key) < n {
      assert w[i] in w;
    }
  }

  /** Map order is recency order after any run. */
  lemma {:induction false} OrderIsRecency<V(!new)>(ops: seq<Op<V>>, max: nat)
    requires max >= 1
    ensures Ordered(Run(ops, max), Recency(ops, max))
  {
    if ops != [] {
      var init, op := ops[..|ops| - 1], ops[|ops| - 1];
      var c := Run(init, max);
      OrderIsRecency(init, max);
      forall k ensures LastTouch(init, max, k) < |ops| && Keyed(c) {
        TouchBound(init, max, k);
        BoundedAndFaithful(init, max, k);
      }
      var f, g := Recency(init, max), Recency(ops, max);
      match op
      case Set(slot) =>
        OrderedMove(c, slot, f, g, |ops|);
      case Get(k, now) =>
        FindMember(c, k);
        if IsHit(c, k, now) {
          OrderedMove(c, Find(c, k).value, f, g, |ops|);
        } else {
          OrderedSelect(c, NotKey(k), f);
          OrderedAs(Apply(c, op, max), f, g);
        }
      case Invalidate(user) =>
        OrderedSelect(c, Spared(user), f);
        OrderedAs(Apply(c, op, max), f, g);
      case Clear =>
    }
  }

  // ---- a live entry is not evicted early ---------------------------------------------------

  lemma {:induction false} LaterTouchIsSince<V(!new)>(ops: seq<Op<V>>, max: nat, key: string, other: string)
    requires LastTouch(ops, max, other) > LastTouch(ops, max, key) && other != key
    ensures other in TouchedSince(ops, max, key)
  {
    var init, c, op := ops[..|ops| - 1], Run(ops[..|ops| - 1], max), ops[|ops| - 1];
    if Touches(c, op, key) {
      TouchBound(init, max, other);
    } else if !Touches(c, op, other) {
      LaterTouchIsSince(init, max, key, other);
    }
  }

  lemma {:induction false} KeysFill<V(!new)>(c: Entries<V>, n: nat, keys: set<string>)
    requires Keyed(c) && n <= |c| && forall j :: n <= j < |c| ==> c[j].key in keys
    ensures |keys| >= |c| - n
    decreases |c| - n
  {
    if n < |c| {
      forall j | n + 1 <= j < |c| ensures c[j].key in keys - {c[n].key} {
      }
      KeysFill(c, n + 1, keys - {c[n].key});
    }
  }

  /** While fewer than `maxEntries` other keys have been touched since a key's own last touch, the
      bounded cache still holds whatever the unbounded reference remembers for it. */
  lemma {:induction false} NotEvictedEarly<V(!new)>(ops: seq<Op<V>>, max: nat, key: string)
    requires max >= 1 && Remembered(ops, key).Some? && |TouchedSince(ops, max, key)| < max
    ensures Find(Run(ops, max), key) == Remembered(ops, key)
  {
    var init, op := ops[..|ops| - 1], ops[|ops| - 1];
    var c := Run(init, max);
    BoundedAndFaithful(init, max, key);
    FindAfter(c, op, max, key);
    if op.Set? && op.slot.key == key {
    } else if op.Get? && op.key == key && Touches(c, op, key) {
    } else {
      SinceGrows(init, op, max, key);
      NotEvictedEarly(init, max, key);
      if op.Set? {
        SetKeeps(init, op.slot, max, key);
      }
    }
  }

  lemma SinceGrows<V(!new)>(init: seq<Op<V>>, op: Op<V>, max: nat, key: string)
    requires !Touches(Run(init, max), op, key)
    ensures TouchedSince(init + [op], max, key) == TouchedSince(init, max, key) + TouchedKey(Run(init, max), op)
    ensures |TouchedSince(init, max, key)| <= |TouchedSince(init + [op], max, key)|
  {
    assert (init + [op])[..|init|] == init;
    SubsetSize(TouchedSince(init, max, key), TouchedSince(init + [op], max, key));
  }

  lemma {:induction false} SubsetSize(a: set<string>, b: set<string>)
    requires a <= b
    ensures |a| <= |b|
  {
    if x :| x in a {
      SubsetSize(a - {x}, b - {x});
    }
  }

  /** A Set of another key evicts `key` only once `max` other keys stand behind it. */
  lemma SetKeeps<V(!new)>(init: seq<Op<V>>, slot: Slot<V>, max: nat, key: string)
    requires max >= 1 && slot.key != key && Find(Run(init, max), key).Some?
    requires |TouchedSince(init + [Set(slot)], max, key)| < max
    ensures Find(Run(init + [Set(slot)], max), key) == Find(Run(init, max), key)
  {
    var c, ops := Run(init, max), init + [Op<V>.Set(slot)];
    assert ops[..|init|] == init;
    BoundedAndFaithful(init, max, key);
    FindMoved(c, slot, key);
    var d := Without(c, slot.key) + [slot];
    FindMember(d, key);
    var p :| 0 <= p < |d| && d[p] == Find(c, key).value;
    if |d| > max {
      MovedOrder(init, slot, max);
      BehindAreSince(d, ops, max, p, key);
      NotAmongTheOldest(d, max, p);
    }
  }

  lemma NotAmongTheOldest<V(!new)>(d: Entries<V>, max: nat, p: nat)
    requires Keyed(d) && |d| > max && |d| - max <= p < |d|
    ensures Find(Newest(d, max), d[p].key) == Some(d[p])
  {
    FindSuffix(d, |d| - max, d[p].key);
  }

  lemma BehindAreSince<V(!new)>(d: Entries<V>, ops: seq<Op<V>>, max: nat, p: nat, key: string)
    requires Keyed(d) && Ordered(d, Recency(ops, max)) && p < |d| && d[p].key == key
    ensures |TouchedSince(ops, max, key)| >= |d| - p - 1
  {
    forall j | p < j < |d| ensures d[j].key in TouchedSince(ops, max, key) {
      assert Recency(ops, max)(d[p].key) < Recency(ops, max)(d[j].key);
      LaterTouchIsSince(ops, max, key, d[j].key);
    }
    KeysFill(d, p + 1, TouchedSince(ops, max, key));
  }

  lemma MovedOrder<V(!new)>(init: seq<Op<V>>, slot: Slot<V>, max: nat)
    requires max >= 1
    ensures Ordered(Without(Run(init, max), slot.key) + [slot], Recency(init + [Set(slot)], max))
  {
    var ops := init + [Op<V>.Set(slot)];
    assert ops[..|init|] == init;
    OrderIsRecency(init, max);
    forall k ensures LastTouch(init, max, k) < |ops| && Keyed(Run(init, max)) {
      TouchBound(init, max, k);
      BoundedAndFaithful(init, max, k);
    }
    OrderedMove(Run(init, max), slot, Recency(init, max), Recency(ops, max), |ops|);
  }
}

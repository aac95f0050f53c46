/** Deals to journal rows, request-sized batches, and the upsert that absorbs every overlap. */
module Ingest {
  import opened Prelude
  import opened Paging

  // ---- dealsToTrades ---------------------------------------------------------------------

  /** The mechanical columns a payload overwrites. */
  datatype Mech = Mech(sell: bool, openTime: int, closeTime: int, figures: int)

  /** An ingest payload after derivation: COALESCEd columns may be absent. */
  datatype Payload = Payload(
    ticket: int, account: int, mech: Mech,
    mfePips: Option<real>, maxR: Option<real>, userId: Option<int>)

  function ByTime(): Deal -> real {
    (d: Deal) => d.ts as real
  }

  /** Side and open time from the opening deal; without one the side is buy, whatever the closing deal says,
      and the open time is the closing deal's. */
  function MechOf(d: Deal, opener: Option<Deal>): Mech {
    Mech(opener.Some? && opener.value.sell, if opener.Some? then opener.value.ts else d.ts, d.ts, d.figures)
  }

  /** dealToTrade. */
  function DealToTrade(d: Deal, opener: Option<Deal>, login: int, owner: Option<int>): Payload {
    Payload(d.dealId, login, MechOf(d, opener), None, None, owner)
  }

  /** The first opening deal of a position in `s`. */
  function OpenerIn(s: seq<Deal>, pos: int): Option<Deal> {
    if s == [] then None
    else
      var earlier, d := OpenerIn(s[..|s| - 1], pos), s[|s| - 1];
      if earlier.Some? then earlier
      else if !d.closing && d.positionId == pos then Some(d) else None
  }

  function TradesOf(ordered: seq<Deal>, login: int, owner: Option<int>): seq<Payload> {
    if ordered == [] then []
    else
      var init, d := ordered[..|ordered| - 1], ordered[|ordered| - 1];
      var before := TradesOf(init, login, owner);
      if d.closing then before + [DealToTrade(d, OpenerIn(init, d.positionId), login, owner)] else before
  }

  function Opened(m: map<int, Deal>, pos: int): Option<Deal> {
    if pos in m then Some(m[pos]) else None
  }

  method DealsToTrades(deals: seq<Deal>, login: int, owner: Option<int>) returns (trades: seq<Payload>)
    ensures trades == TradesOf(StableSort(deals, ByTime()), login, owner)
  {
    var openByPosition: map<int, Deal> := map[];
    var ordered := StableSort(deals, ByTime());
    trades := [];
    for i := 0 to |ordered|
      invariant trades == TradesOf(ordered[..i], login, owner)
      invariant forall p :: OpenerIn(ordered[..i], p) == Opened(openByPosition, p)
    {
      assert ordered[..i + 1][..i] == ordered[..i];
      var d := ordered[i];
      var pos := d.positionId;
      if !d.closing {
        if pos !in openByPosition {
          openByPosition := openByPosition[pos := d];
        }
        continue;
      }
      trades := trades + [DealToTrade(d, Opened(openByPosition, pos), login, owner)];
    }
    assert ordered[..|ordered|] == ordered;
  }

  lemma EarlierIsOlder(init: seq<Deal>, d: Deal)
    requires Sorted(init + [d])
    ensures forall x :: x in init ==> x.ts <= d.ts
  {
    var s := init + [d];
    forall x | x in init ensures x.ts <= d.ts {
      var i :| 0 <= i < |init| && init[i] == x;
      assert s[i] == x && s[|init|] == d;
    }
  }

  /** The opener found is the earliest opening deal of the position, and none is missed. */
  lemma {:induction false} OpenerIsEarliest(s: seq<Deal>, pos: int)
    requires Sorted(s)
    ensures OpenerIn(s, pos).None? <==> forall d :: d in s && d.positionId == pos ==> d.closing
    ensures OpenerIn(s, pos).Some? ==> var o := OpenerIn(s, pos).value;
      o in s && !o.closing && o.positionId == pos
      && forall d :: d in s && d.positionId == pos && !d.closing ==> o.ts <= d.ts
  {
    if s != [] {
      var init, d := s[..|s| - 1], s[|s| - 1];
      assert s == init + [d];
      OpenerIsEarliest(init, pos);
      EarlierIsOlder(init, d);
    }
  }

  ghost predicate ComesFrom(p: Payload, d: Deal, login: int) {
    p.ticket == d.dealId && p.account == login && p.mech.closeTime == d.ts && p.mech.figures == d.figures
  }

  ghost predicate HasSource(p: Payload, s: seq<Deal>, login: int) {
    exists d :: d in s && d.closing && ComesFrom(p, d, login)
  }

  ghost predicate HasRow(d: Deal, trades: seq<Payload>, login: int) {
    exists p :: p in trades && ComesFrom(p, d, login)
  }

  ghost predicate OneRowEach(trades: seq<Payload>, s: seq<Deal>, login: int) {
    && (forall p :: p in trades ==> HasSource(p, s, login))
    && (forall d :: d in s && d.closing ==> HasRow(d, trades, login))
  }

  lemma OneRowMore(trades: seq<Payload>, p: Payload, s: seq<Deal>, d: Deal, login: int)
    requires OneRowEach(trades, s, login) && (d.closing ==> ComesFrom(p, d, login))
    ensures OneRowEach(if d.closing then trades + [p] else trades, s + [d], login)
  {
    var all, more := s + [d], if d.closing then trades + [p] else trades;
    assert d in all && (d.closing ==> p in more);
    forall x | x in trades ensures HasSource(x, all, login) {
      var e :| e in s && e.closing && ComesFrom(x, e, login);
      assert e in all;
    }
    forall e | e in s && e.closing ensures HasRow(e, more, login) {
      var x :| x in trades && ComesFrom(x, e, login);
      assert x in more;
    }
  }

  /** One row per closing deal: each closing deal has one, and every row is some closing deal's. */
  lemma {:induction false} OneRowPerClosingDeal(s: seq<Deal>, login: int, owner: Option<int>)
    ensures OneRowEach(TradesOf(s, login, owner), s, login)
  {
    if s != [] {
      var init, d := s[..|s| - 1], s[|s| - 1];
      assert s == init + [d];
      OneRowPerClosingDeal(init, login, owner);
      OneRowMore(TradesOf(init, login, owner), DealToTrade(d, OpenerIn(init, d.positionId), login, owner),
                 init, d, login);
    }
  }

  /** What a backfilled row leaves to other sources: it names its owner and carries no excursion figures. */
  lemma {:induction false} OtherColumns(s: seq<Deal>, login: int, owner: Option<int>)
    ensures forall p :: p in TradesOf(s, login, owner) ==>
      p.account == login && p.userId == owner && p.mfePips.None? && p.maxR.None?
  {
    if s != [] {
      OtherColumns(s[..|s| - 1], login, owner);
    }
  }

  // ---- splitBatch ------------------------------------------------------------------------

  const BATCH_LIMIT: nat := 500

  method SplitBatch<T>(trades: seq<T>, limit: nat) returns (out: seq<seq<T>>)
    requires limit > 0
    ensures Flatten(out) == trades
    ensures forall c :: 0 <= c < |out| ==> 0 < |out[c]| <= limit
    ensures forall c :: 0 <= c < |out| - 1 ==> |out[c]| == limit
  {
    out := [];
    var i := 0;
    while i < |trades|
      invariant Flatten(out) == trades[..Min(i, |trades|)]
      invariant 0 <= i
      invariant forall c :: 0 <= c < |out| ==> 0 < |out[c]| <= limit
      invariant i <= |trades| ==> forall c :: 0 <= c < |out| ==> |out[c]| == limit
      invariant forall c :: 0 <= c < |out| - 1 ==> |out[c]| == limit
      decreases |trades| - i
    {
      var end := Min(i + limit, |trades|);
      assert trades[..end] == trades[..i] + trades[i..end];
      FlattenSnoc(out, trades[i..end]);
      out := out + [trades[i..end]];
      i := i + limit;
    }
    assert trades[..|trades|] == trades;
  }

  // ---- the upsert ------------------------------------------------------------------------

  /** A stored trade; `tag` stands for the discretionary columns the user owns. */
  datatype Row = Row(mech: Mech, mfePips: Option<real>, maxR: Option<real>, userId: Option<int>, tag: Option<string>)

  /** trades, keyed by its unique (account_id, mt5_ticket). */
  type Table = map<(int, int), Row>

  function KeyOf(p: Payload): (int, int) {
    (p.account, p.ticket)
  }

  /** COALESCE(EXCLUDED.c, trades.c). */
  function Coalesce<T>(a: Option<T>, b: Option<T>): Option<T> {
    if a.Some? then a else b
  }

  function Upsert(t: Table, p: Payload): Table {
    var k := KeyOf(p);
    if k !in t then t[k := Row(p.mech, p.mfePips, p.maxR, p.userId, None)]
    else
      var r := t[k];
      t[k := Row(p.mech, Coalesce(p.mfePips, r.mfePips), Coalesce(p.maxR, r.maxR), Coalesce(p.userId, r.userId), r.tag)]
  }

  function UpsertAll(t: Table, ps: seq<Payload>): Table {
    if ps == [] then t else Upsert(UpsertAll(t, ps[..|ps| - 1]), ps[|ps| - 1])
  }

  lemma UpsertAllSnoc(t: Table, ps: seq<Payload>, p: Payload)
    ensures UpsertAll(t, ps + [p]) == Upsert(UpsertAll(t, ps), p)
  {
    assert (ps + [p])[..|ps|] == ps;
  }

  lemma {:induction false} UpsertAllAppend(t: Table, a: seq<Payload>, b: seq<Payload>)
    ensures UpsertAll(t, a + b) == UpsertAll(UpsertAll(t, a), b)
  {
    if b == [] {
      assert a + b == a;
    } else {
      var init, p := b[..|b| - 1], b[|b| - 1];
      assert a + b == (a + init) + [p] && b == init + [p];
      UpsertAllAppend(t, a, init);
      UpsertAllSnoc(t, a + init, p);
    }
  }

  /** The last value of a column among the payloads for a key that carry one. */
  function Last<T>(ps: seq<Payload>, k: (int, int), col: Payload -> Option<T>): Option<T> {
    if ps == [] then None
    else
      var p := ps[|ps| - 1];
      if KeyOf(p) == k && col(p).Some? then col(p) else Last(ps[..|ps| - 1], k, col)
  }

  function MechCol(): Payload -> Option<Mech> {
    (p: Payload) => Some(p.mech)
  }

  function MfeCol(): Payload -> Option<real> {
    (p: Payload) => p.mfePips
  }

  function MaxRCol(): Payload -> Option<real> {
    (p: Payload) => p.maxR
  }

  function UserCol(): Payload -> Option<int> {
    (p: Payload) => p.userId
  }

  /** What a key's row is after a run of payloads, column by column. */
  ghost predicate Settled(t: Table, ps: seq<Payload>, k: (int, int), t': Table) {
    if Last(ps, k, MechCol()).None? then (k in t' <==> k in t) && (k in t ==> t'[k] == t[k])
    else
      && k in t'
      && t'[k].mech == Last(ps, k, MechCol()).value
      && t'[k].mfePips == (if Last(ps, k, MfeCol()).Some? then Last(ps, k, MfeCol())
                       else if k in t then t[k].mfePips else None)
      && t'[k].maxR == (if Last(ps, k, MaxRCol()).Some? then Last(ps, k, MaxRCol())
                       else if k in t then t[k].maxR else None)
      && t'[k].userId == (if Last(ps, k, UserCol()).Some? then Last(ps, k, UserCol())
                       else if k in t then t[k].userId else None)
      && t'[k].tag == if k in t then t[k].tag else None
  }

  /** Mechanical columns hold the last payload's values, the preserved ones the last value that was
      not NULL, and the user's tags never move. */
  lemma {:induction false} UpsertColumns(t: Table, ps: seq<Payload>, k: (int, int))
    ensures Settled(t, ps, k, UpsertAll(t, ps))
    ensures Last(ps, k, MechCol()).None? <==> forall p :: p in ps ==> KeyOf(p) != k
    ensures Last(ps, k, MechCol()).None? ==>
      Last(ps, k, MfeCol()).None? && Last(ps, k, MaxRCol()).None? && Last(ps, k, UserCol()).None?
  {
    if ps != [] {
      assert ps == ps[..|ps| - 1] + [ps[|ps| - 1]];
      UpsertColumns(t, ps[..|ps| - 1], k);
    }
  }

  /** Replaying the same payloads in the same order changes nothing. */
  lemma ReplayIsNoOp(t: Table, ps: seq<Payload>)
    ensures UpsertAll(UpsertAll(t, ps), ps) == UpsertAll(t, ps)
  {
    var once := UpsertAll(t, ps);
    var twice := UpsertAll(once, ps);
    forall k ensures (k in twice <==> k in once) && (k in once ==> twice[k] == once[k]) {
      UpsertColumns(t, ps, k);
      UpsertColumns(once, ps, k);
    }
  }

  /** The table gains exactly the keys of the payloads. */
  lemma UpsertKeys(t: Table, ps: seq<Payload>)
    ensures forall k :: k in UpsertAll(t, ps) <==> k in t || exists p :: p in ps && KeyOf(p) == k
  {
    forall k ensures k in UpsertAll(t, ps) <==> k in t || exists p :: p in ps && KeyOf(p) == k {
      UpsertColumns(t, ps, k);
    }
  }

  // ---- one batch request -----------------------------------------------------------------

  datatype Result = Result(ticket: int, ok: bool)

  /** The payloads of a batch whose row is stored: one bad row fails itself. */
  function Accepted(ps: seq<Payload>, rejects: Payload -> bool): seq<Payload> {
    Select(ps, Not(rejects))
  }

  function Not(p: Payload -> bool): Payload -> bool {
    x => !p(x)
  }

  lemma AcceptedAppend(a: seq<Payload>, b: seq<Payload>, rejects: Payload -> bool)
    ensures Accepted(a + b, rejects) == Accepted(a, rejects) + Accepted(b, rejects)
  {
    SelectAppend(a, b, Not(rejects));
  }

  lemma AcceptedSnoc(trades: seq<Payload>, i: nat, rejects: Payload -> bool)
    requires i < |trades|
    ensures Accepted(trades[..i + 1], rejects)
         == if rejects(trades[i]) then Accepted(trades[..i], rejects) else Accepted(trades[..i], rejects) + [trades[i]]
  {
    assert trades[..i + 1] == trades[..i] + [trades[i]];
    SelectSnoc(trades[..i], trades[i], Not(rejects));
  }

  /** One result per trade, in order: its ticket and whether its row was stored. */
  ghost predicate Reported(results: seq<Result>, trades: seq<Payload>, n: nat, rejects: Payload -> bool) {
    && |results| == n <= |trades|
    && forall j :: 0 <= j < n ==> results[j] == Result(trades[j].ticket, !rejects(trades[j]))
  }

  class TradeTable {
    var rows: Table

    constructor ()
      ensures rows == map[]
    {
      rows := map[];
    }

    /** The loop of the batch route over ingestOne; `rejects` says which rows throw. */
    method IngestBatch(trades: seq<Payload>, rejects: Payload -> bool) returns (results: seq<Result>, accepted: nat)
      modifies this
      ensures rows == UpsertAll(old(rows), Accepted(trades, rejects))
      ensures accepted == |Accepted(trades, rejects)| && Reported(results, trades, |trades|, rejects)
    {
      results, accepted := [], 0;
      for i := 0 to |trades|
        invariant rows == UpsertAll(old(rows), Accepted(trades[..i], rejects))
        invariant accepted == |Accepted(trades[..i], rejects)|
        invariant Reported(results, trades, i, rejects)
      {
        AcceptedSnoc(trades, i, rejects);
        if rejects(trades[i]) {
          results := results + [Result(trades[i].ticket, false)];
        } else {
          UpsertAllSnoc(old(rows), Accepted(trades[..i], rejects), trades[i]);
          rows := Upsert(rows, trades[i]);
          results := results + [Result(trades[i].ticket, true)];
          accepted := accepted + 1;
        }
      }
      assert trades[..|trades|] == trades;
    }

    /** Posting a window's trades in request-sized chunks stores what one pass over them would; every trade
        sent counts as posted, refused or not. */
    method PostAll(trades: seq<Payload>, rejects: Payload -> bool) returns (posted: nat)
      modifies this
      ensures rows == UpsertAll(old(rows), Accepted(trades, rejects)) && posted == |trades|
    {
      var chunks := SplitBatch(trades, BATCH_LIMIT);
      posted := 0;
      for i := 0 to |chunks|
        invariant rows == UpsertAll(old(rows), Accepted(Flatten(chunks[..i]), rejects))
        invariant posted == |Flatten(chunks[..i])|
      {
        assert chunks[..i + 1] == chunks[..i] + [chunks[i]];
        FlattenSnoc(chunks[..i], chunks[i]);
        AcceptedAppend(Flatten(chunks[..i]), chunks[i], rejects);
        UpsertAllAppend(old(rows), Accepted(Flatten(chunks[..i]), rejects), Accepted(chunks[i], rejects));
        var _, _ := IngestBatch(chunks[i], rejects);
        posted := posted + |chunks[i]|;
      }
      assert chunks[..|chunks|] == chunks;
    }
  }
}

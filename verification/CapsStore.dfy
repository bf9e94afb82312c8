/**
 The spend-cap rows of one token and their cached copy, as one process sees
 them when nothing else happens.
 */
module CapsStore {
  import opened Options
  import opened SpendLedger
  import CapsCache

  /** A row of the table `spend_caps`. */
  datatype CapRow = CapRow(period: string, limit: int)

  function PeriodOf(name: string): Option<Period> {
    if name == "daily" then Some(Daily)
    else if name == "monthly" then Some(Monthly)
    else if name == "lifetime" then Some(Lifetime)
    else None
  }

  function WithCap(caps: Caps, p: Period, limit: int): Caps {
    match p
    case Daily => caps.(daily := Some(limit))
    case Monthly => caps.(monthly := Some(limit))
    case Lifetime => caps.(lifetime := Some(limit))
  }

  const NO_CAPS := Caps(None, None, None)

  /** The caps that a list of rows amounts to; rows of unknown periods are skipped. */
  function CapsOf(rows: seq<CapRow>): Caps {
    if rows == [] then NO_CAPS
    else
      var row := rows[|rows| - 1];
      match PeriodOf(row.period)
      case None => CapsOf(rows[..|rows| - 1])
      case Some(p) => WithCap(CapsOf(rows[..|rows| - 1]), p, row.limit)
  }

  /** INSERT ... ON CONFLICT (token_id, period) DO UPDATE. */
  function Upserted(rows: seq<CapRow>, period: string, limit: int): seq<CapRow> {
    if rows == [] then [CapRow(period, limit)]
    else if rows[0].period == period then [CapRow(period, limit)] + rows[1..]
    else [rows[0]] + Upserted(rows[1..], period, limit)
  }

  function Deleted(rows: seq<CapRow>, period: string): seq<CapRow> {
    if rows == [] then []
    else (if rows[0].period == period then [] else [rows[0]]) + Deleted(rows[1..], period)
  }

  ghost predicate UniquePeriods(rows: seq<CapRow>) {
    forall i, j :: 0 <= i < j < |rows| ==> rows[i].period != rows[j].period
  }

  /** Each cap is the limit of the row that bears its name; rows of other names are not looked at. */
  ghost predicate ByName(caps: Caps, rows: seq<CapRow>) {
    && (forall limit :: caps.daily == Some(limit) <==> CapRow("daily", limit) in rows)
    && (forall limit :: caps.monthly == Some(limit) <==> CapRow("monthly", limit) in rows)
    && (forall limit :: caps.lifetime == Some(limit) <==> CapRow("lifetime", limit) in rows)
  }

  class Store {
    var rows: seq<CapRow>
    var cached: Option<(Caps, nat)>
    var clock: nat

    ghost predicate Valid()
      reads this
    {
      UniquePeriods(rows)
    }

    constructor ()
      ensures Valid() && rows == [] && cached == None && clock == 0
    {
      rows, cached, clock := [], None, 0;
    }

    /** `load_spend_caps`. */
    method LoadSpendCaps() returns (caps: Caps)
      ensures caps == CapsOf(rows)
      ensures Valid() ==> ByName(caps, rows)
    {
      caps := NO_CAPS;
      for i := 0 to |rows|
        invariant caps == CapsOf(rows[..i])
      {
        assert rows[..i + 1][..i] == rows[..i];
        var limit := rows[i].limit;
        match PeriodOf(rows[i].period)
        case Some(p) => caps := WithCap(caps, p, limit);
        case None =>
      }
      assert rows[..|rows|] == rows;
      if UniquePeriods(rows) {
        CapsByName(rows);
      }
    }

    /** `load_spend_caps_cached`: the cached copy while it lives, else the rows, cached for a minute. */
    method LoadSpendCapsCached(edge: bool) returns (caps: Caps)
      modifies this`cached
      ensures var hit := old(cached).Some? && (clock < old(cached).value.1 || (clock == old(cached).value.1 && !edge));
        && caps == (if hit then old(cached).value.0 else CapsOf(rows))
        && (!hit && Valid() ==> ByName(caps, rows))
        && cached == if hit then old(cached) else Some((CapsOf(rows), clock + 60))
    {
      if cached.Some? && (clock < cached.value.1 || (clock == cached.value.1 && !edge)) {
        return cached.value.0;
      }
      caps := LoadSpendCaps();
      cached := Some((caps, clock + CapsCache.CACHE_TTL));
    }

    /** `upsert_spend_cap`: the row, then the cached copy. */
    method UpsertSpendCap(period: string, limit: int)
      requires Valid()
      modifies this
      ensures Valid() && clock == old(clock) && cached == None
      ensures rows == Upserted(old(rows), period, limit)
      ensures forall p: Period ::
        CapsOf(rows).For(p) == if PeriodOf(period) == Some(p) then Some(limit) else CapsOf(old(rows)).For(p)
      ensures CapsOf(rows).daily == if period == "daily" then Some(limit) else CapsOf(old(rows)).daily
      ensures CapsOf(rows).monthly == if period == "monthly" then Some(limit) else CapsOf(old(rows)).monthly
      ensures CapsOf(rows).lifetime == if period == "lifetime" then Some(limit) else CapsOf(old(rows)).lifetime
    {
      NamedPeriods(period);
      UpsertedCaps(rows, period, limit);
      rows := Upserted(rows, period, limit);
      cached := None;
    }

    /** `delete_spend_cap`. */
    method DeleteSpendCap(period: string)
      requires Valid()
      modifies this
      ensures Valid() && clock == old(clock) && cached == None
      ensures rows == Deleted(old(rows), period)
      ensures forall p: Period ::
        CapsOf(rows).For(p) == if PeriodOf(period) == Some(p) then None else CapsOf(old(rows)).For(p)
      ensures CapsOf(rows).daily == if period == "daily" then None else CapsOf(old(rows)).daily
      ensures CapsOf(rows).monthly == if period == "monthly" then None else CapsOf(old(rows)).monthly
      ensures CapsOf(rows).lifetime == if period == "lifetime" then None else CapsOf(old(rows)).lifetime
    {
      NamedPeriods(period);
      DeletedCaps(rows, period);
      rows := Deleted(rows, period);
      cached := None;
    }
  }

  /** With one row a period, the cap of a period is the limit of its row. */
  lemma {:induction false} CapFromRow(rows: seq<CapRow>, p: Period)
    requires UniquePeriods(rows)
    ensures forall i :: 0 <= i < |rows| && PeriodOf(rows[i].period) == Some(p) ==> CapsOf(rows).For(p) == Some(rows[i].limit)
    ensures (forall i :: 0 <= i < |rows| ==> PeriodOf(rows[i].period) != Some(p)) ==> CapsOf(rows).For(p) == None
  {
    if rows != [] {
      CapFromRow(rows[..|rows| - 1], p);
    }
  }

  /** The names of the periods, in the words of the table. */
  lemma NamedPeriods(name: string)
    ensures PeriodOf(name) == Some(Daily) <==> name == "daily"
    ensures PeriodOf(name) == Some(Monthly) <==> name == "monthly"
    ensures PeriodOf(name) == Some(Lifetime) <==> name == "lifetime"
    ensures forall caps: Caps ::
      caps.For(Daily) == caps.daily && caps.For(Monthly) == caps.monthly && caps.For(Lifetime) == caps.lifetime
  {
  }

  lemma CapNamed(rows: seq<CapRow>, name: string, p: Period, limit: int)
    requires UniquePeriods(rows) && PeriodOf(name) == Some(p)
    ensures CapsOf(rows).For(p) == Some(limit) <==> CapRow(name, limit) in rows
  {
    CapFromRow(rows, p);
    if CapRow(name, limit) in rows {
      var i :| 0 <= i < |rows| && rows[i] == CapRow(name, limit);
    }
    if CapsOf(rows).For(p) == Some(limit) {
      var i :| 0 <= i < |rows| && PeriodOf(rows[i].period) == Some(p);
      PeriodNames(rows[i].period, name);
      assert rows[i] == CapRow(name, limit);
    }
  }

  /** With one row a period, each cap is the limit of the row of its name, and absent without one. */
  lemma CapsByName(rows: seq<CapRow>)
    requires UniquePeriods(rows)
    ensures ByName(CapsOf(rows), rows)
  {
    NamedPeriods("daily");
    NamedPeriods("monthly");
    NamedPeriods("lifetime");
    forall limit
      ensures CapsOf(rows).daily == Some(limit) <==> CapRow("daily", limit) in rows
      ensures CapsOf(rows).monthly == Some(limit) <==> CapRow("monthly", limit) in rows
      ensures CapsOf(rows).lifetime == Some(limit) <==> CapRow("lifetime", limit) in rows
    {
      CapNamed(rows, "daily", Daily, limit);
      CapNamed(rows, "monthly", Monthly, limit);
      CapNamed(rows, "lifetime", Lifetime, limit);
    }
  }

  lemma {:induction false} UpsertedRows(rows: seq<CapRow>, period: string, limit: int)
    requires UniquePeriods(rows)
    ensures var r := Upserted(rows, period, limit);
      && UniquePeriods(r)
      && CapRow(period, limit) in r
      && (forall row :: row in r && row.period != period ==> row in rows)
      && (forall row :: row in rows && row.period != period ==> row in r)
  {
    if rows != [] && rows[0].period != period {
      UpsertedRows(rows[1..], period, limit);
      var rest := Upserted(rows[1..], period, limit);
      assert forall row :: row in rows <==> row == rows[0] || row in rows[1..];
      forall i | 0 <= i < |rest|
        ensures rest[i].period != rows[0].period
      {
        assert rest[i] in rest;
      }
    } else if rows != [] {
      assert forall row :: row in rows <==> row == rows[0] || row in rows[1..];
    }
  }

  lemma {:induction false} DeletedRows(rows: seq<CapRow>, period: string)
    requires UniquePeriods(rows)
    ensures var r := Deleted(rows, period);
      && UniquePeriods(r)
      && (forall row :: row in r <==> row in rows && row.period != period)
  {
    if rows != [] {
      DeletedRows(rows[1..], period);
      var rest := Deleted(rows[1..], period);
      assert forall row :: row in rows <==> row == rows[0] || row in rows[1..];
      forall i | 0 <= i < |rest|
        ensures rest[i].period != rows[0].period
      {
        assert rest[i] in rest;
      }
    }
  }

  lemma PeriodNames(a: string, b: string)
    ensures PeriodOf(a).Some? && PeriodOf(a) == PeriodOf(b) ==> a == b
  {
  }

  /** Rows that agree on a period's row agree on its cap. */
  lemma SameCap(rows: seq<CapRow>, others: seq<CapRow>, p: Period)
    requires UniquePeriods(rows) && UniquePeriods(others)
    requires forall row: CapRow :: PeriodOf(row.period) == Some(p) ==> (row in rows <==> row in others)
    ensures CapsOf(rows).For(p) == CapsOf(others).For(p)
  {
    CapFromRow(rows, p);
    CapFromRow(others, p);
    if exists i :: 0 <= i < |rows| && PeriodOf(rows[i].period) == Some(p) {
      var i :| 0 <= i < |rows| && PeriodOf(rows[i].period) == Some(p);
      assert rows[i] in others;
    } else {
      assert forall i :: 0 <= i < |others| && PeriodOf(others[i].period) == Some(p) ==> others[i] in rows;
    }
  }

  /** An upsert changes the cap of its own period and no other. */
  lemma UpsertedCaps(rows: seq<CapRow>, period: string, limit: int)
    requires UniquePeriods(rows)
    ensures UniquePeriods(Upserted(rows, period, limit))
    ensures forall p: Period ::
      CapsOf(Upserted(rows, period, limit)).For(p)
      == if PeriodOf(period) == Some(p) then Some(limit) else CapsOf(rows).For(p)
  {
    UpsertedRows(rows, period, limit);
    forall p: Period
      ensures CapsOf(Upserted(rows, period, limit)).For(p)
           == if PeriodOf(period) == Some(p) then Some(limit) else CapsOf(rows).For(p)
    {
      var r := Upserted(rows, period, limit);
      if PeriodOf(period) == Some(p) {
        CapFromRow(r, p);
      } else {
        SameCap(r, rows, p);
      }
    }
  }

  /** A delete clears the cap of its own period and no other. */
  lemma DeletedCaps(rows: seq<CapRow>, period: string)
    requires UniquePeriods(rows)
    ensures UniquePeriods(Deleted(rows, period))
    ensures forall p: Period ::
      CapsOf(Deleted(rows, period)).For(p)
      == if PeriodOf(period) == Some(p) then None else CapsOf(rows).For(p)
  {
    DeletedRows(rows, period);
    var r := Deleted(rows, period);
    forall p: Period
      ensures CapsOf(r).For(p) == if PeriodOf(period) == Some(p) then None else CapsOf(rows).For(p)
    {
      if PeriodOf(period) == Some(p) {
        CapFromRow(r, p);
        forall i | 0 <= i < |r|
          ensures PeriodOf(r[i].period) != Some(p)
        {
          assert r[i] in r;
          PeriodNames(r[i].period, period);
        }
      } else {
        SameCap(r, rows, p);
      }
    }
  }
}

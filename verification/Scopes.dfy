/** The shared table of application and session scopes, and the store and reaper that
    work on it one SQL statement at a time. */
module Scopes {

  datatype Kind = Application | Session

  datatype Key = Key(kind: Kind, app: string, id: string)

  /** A row.  `stamp` is not a column: it tells apart the rows that successive stores put
      under one key. */
  datatype Row = Row(data: string, expiresAt: int, lastAccess: int, startTime: int, cfcPath: string, stamp: nat)

  type Rows = map<Key, Row>

  predicate Live(r: Row, now: int)
  {
    r.expiresAt == 0 || r.expiresAt > now
  }

  predicate Expired(r: Row, now: int)
  {
    0 < r.expiresAt <= now
  }

  // --------------------------------------------------------------- statements

  function Upserted(rows: Rows, k: Key, data: string, expiresAt: int, now: int, startTime: int, cfcPath: string,
                    stamp: nat): Rows
  {
    rows[k := Row(data, expiresAt, now,
                  if startTime > 0 || k !in rows then startTime else rows[k].startTime,
                  if cfcPath != "" || k !in rows then cfcPath else rows[k].cfcPath,
                  stamp)]
  }

  function Touched(rows: Rows, k: Key, expiresAt: int, now: int): Rows
  {
    if k in rows && Live(rows[k], now) then rows[k := rows[k].(expiresAt := expiresAt, lastAccess := now)] else rows
  }

  /** The lazy purge of one row, which looks at the row's expiry again. */
  function Purged(rows: Rows, k: Key, now: int): Rows
  {
    if k in rows && Expired(rows[k], now) then rows - {k} else rows
  }

  function WithoutExpired(rows: Rows, now: int): Rows
  {
    map k | k in rows && !Expired(rows[k], now) :: rows[k]
  }

  function WithoutApplication(rows: Rows, app: string): Rows
  {
    map k | k in rows && k.app != app :: rows[k]
  }

  /** The row of session `id` under `id'`; a row already there makes the statement fail. */
  function Rotated(rows: Rows, app: string, id: string, id': string): Rows
  {
    var from, to := Key(Session, app, id), Key(Session, app, id');
    if from !in rows || to in rows then rows else (rows - {from})[to := rows[from]]
  }

  // ------------------------------------------------------------ query results

  datatype Record = Record(key: Key, row: Row)

  /** `batch` lists the rows that are expired at `now`, each once, in any order. */
  ghost predicate Lists(batch: seq<Record>, rows: Rows, now: int)
  {
    && (forall i :: 0 <= i < |batch| ==>
          batch[i].key in rows && rows[batch[i].key] == batch[i].row && 0 < batch[i].row.expiresAt <= now)
    && (forall i, j :: 0 <= i < j < |batch| ==> batch[i].key != batch[j].key)
    && (forall k :: k in rows && 0 < rows[k].expiresAt <= now ==> exists i :: 0 <= i < |batch| && batch[i].key == k)
  }

  lemma NothingListed(batch: seq<Record>, rows: Rows, now: int)
    requires Lists(batch, rows, now)
    ensures batch == [] <==> forall k :: k in rows ==> !Expired(rows[k], now)
    ensures batch == [] ==> WithoutExpired(rows, now) == rows
  {
    if batch != [] { assert batch[0].key in rows; }
  }

  /** What the reaper tells applications. */
  datatype Call = SessionEnd(session: Record, application: string) | ApplicationEnd(app: Record)

  /** The component files that load, if the reaper has a template cache at all. */
  datatype Loads = NoTemplates | Templates(paths: set<string>)

  /** A record has a handler: it names a component file and that loads. */
  predicate Heard(r: Record, loads: Loads)
  {
    loads.Templates? && r.row.cfcPath != "" && r.row.cfcPath in loads.paths
  }

  /** The records of one kind that have a handler. */
  function Of(batch: seq<Record>, kind: Kind, loads: Loads): seq<Record>
  {
    if batch == [] then []
    else (if batch[0].key.kind == kind && Heard(batch[0], loads) then [batch[0]] else []) + Of(batch[1..], kind, loads)
  }

  lemma {:induction false} OfAppend(batch: seq<Record>, r: Record, kind: Kind, loads: Loads)
    ensures Of(batch + [r], kind, loads) == Of(batch, kind, loads) + if r.key.kind == kind && Heard(r, loads) then [r] else []
  {
    hide Heard;
    if batch != [] {
      assert (batch + [r])[1..] == batch[1..] + [r];
      OfAppend(batch[1..], r, kind, loads);
    }
  }

  /** Which records of the batch they are: those of that kind that name a component that loads,
      in the batch's order. */
  ghost predicate Picked(at: seq<nat>, batch: seq<Record>, kind: Kind, loads: Loads)
  {
    && (forall i :: 0 <= i < |at| ==> at[i] < |batch|)
    && (forall i, j :: 0 <= i < j < |at| ==> at[i] < at[j])
    && (forall j :: 0 <= j < |batch| ==>
          (j in at <==> batch[j].key.kind == kind && loads.Templates? && batch[j].row.cfcPath != "" && batch[j].row.cfcPath in loads.paths))
  }

  lemma {:induction false} OfPicks(batch: seq<Record>, kind: Kind, loads: Loads) returns (at: seq<nat>)
    ensures Picked(at, batch, kind, loads) && |at| == |Of(batch, kind, loads)|
    ensures forall i :: 0 <= i < |at| ==> Of(batch, kind, loads)[i] == batch[at[i]]
    decreases |batch|
  {
    if batch == [] { return []; }
    var n := |batch| - 1;
    var front := OfPicks(batch[..n], kind, loads);
    OfAppend(batch[..n], batch[n], kind, loads);
    assert batch == batch[..n] + [batch[n]];
    at := front;
    if batch[n].key.kind == kind && Heard(batch[n], loads) { at := front + [n]; }
    PickedNext(front, batch, kind, loads, at);
  }

  lemma PickedNext(front: seq<nat>, batch: seq<Record>, kind: Kind, loads: Loads, at: seq<nat>)
    requires batch != [] && Picked(front, batch[..|batch| - 1], kind, loads)
    requires var r := batch[|batch| - 1]; at == if r.key.kind == kind && Heard(r, loads) then front + [|batch| - 1] else front
    ensures Picked(at, batch, kind, loads)
  {
    var n := |batch| - 1;
    forall j | 0 <= j < n ensures batch[j] == batch[..n][j] && (j in at <==> j in front) {}
    assert n !in front;
  }

  /** A record is announced as often as it was claimed if it has a handler, and else never. */
  lemma {:induction false} HeardOnly(batch: seq<Record>, kind: Kind, loads: Loads, r: Record)
    ensures multiset(Of(batch, kind, loads))[r] == if r.key.kind == kind && Heard(r, loads) then multiset(batch)[r] else 0
  {
    hide Heard;
    if batch != [] {
      HeardOnly(batch[1..], kind, loads, r);
      assert batch == [batch[0]] + batch[1..];
    }
  }

  /** Each expired row is announced exactly once if it names a component that loads, and
      is not announced otherwise. */
  lemma AnnouncedOnce(batch: seq<Record>, rows: Rows, now: int, loads: Loads, k: Key)
    requires Lists(batch, rows, now) && k in rows && Expired(rows[k], now)
    ensures var r := Record(k, rows[k]); multiset(Of(batch, k.kind, loads))[r] == if Heard(r, loads) then 1 else 0
  {
    var r := Record(k, rows[k]);
    HeardOnly(batch, k.kind, loads, r);
    ListedOnce(batch, rows, now, k);
    hide Heard, Lists;
  }

  lemma ListedOnce(batch: seq<Record>, rows: Rows, now: int, k: Key)
    requires Lists(batch, rows, now) && k in rows && Expired(rows[k], now)
    ensures multiset(batch)[Record(k, rows[k])] == 1
  {
    var i :| 0 <= i < |batch| && batch[i].key == k;
    var r := Record(k, rows[k]);
    assert r !in batch[..i] && r !in batch[i + 1..];
    hide Lists, Expired;
    assert batch == batch[..i] + [r] + batch[i + 1..];
    OnceBetween(batch[..i], r, batch[i + 1..]);
  }

  lemma OnceBetween(a: seq<Record>, r: Record, c: seq<Record>)
    requires r !in a && r !in c
    ensures multiset(a + [r] + c)[r] == 1
  {
  }

  function Living(rows: Rows, now: int): Rows
  {
    map k | k in rows && Live(rows[k], now) :: rows[k]
  }

  /** The applications that are expired at `now`, by name. */
  ghost function ClaimedApplications(rows: Rows, now: int): map<string, Record>
  {
    map k | k in rows && k.kind.Application? && k.id == "" && Expired(rows[k], now) :: k.app := Record(k, rows[k])
  }

  /** The data an ending session sees as its application: what was claimed with it, unless
      that is empty, and else what the table still holds. */
  function ApplicationOf(claimed: map<string, Record>, left: Rows, app: string): string
  {
    var k := Key(Application, app, "");
    if app in claimed && claimed[app].row.data != "" then claimed[app].row.data
    else if k in left then left[k].data else ""
  }

  lemma ApplicationIs(rows: Rows, now: int)
    requires forall k :: k in rows && k.kind.Application? ==> k.id == ""
    ensures forall app ::
              var k := Key(Application, app, "");
              ApplicationOf(ClaimedApplications(rows, now), Living(WithoutExpired(rows, now), now), app) ==
              if k !in rows then ""
              else if 0 < rows[k].expiresAt <= now && rows[k].data != "" then rows[k].data
              else if rows[k].expiresAt == 0 || rows[k].expiresAt > now then rows[k].data
              else ""
  {
  }

  function SessionCalls(sessions: seq<Record>, claimed: map<string, Record>, left: Rows): seq<Call>
  {
    seq(|sessions|, i requires 0 <= i < |sessions| =>
      SessionEnd(sessions[i], ApplicationOf(claimed, left, sessions[i].key.app)))
  }

  function ApplicationCalls(applications: seq<Record>): seq<Call>
  {
    seq(|applications|, i requires 0 <= i < |applications| => ApplicationEnd(applications[i]))
  }

  // -------------------------------------------------------------------- store

  /** The store as one process sees it when nobody else is at work. */
  class ScopeStore {
    var rows: Rows
    var nextCfid: map<string, int>
    var stores: nat

    /** Applications have a single row. */
    ghost predicate Valid()
      reads this
    {
      forall k :: k in rows && k.kind.Application? ==> k.id == ""
    }

    constructor ()
      ensures Valid() && rows == map[]
    {
      rows, nextCfid, stores := map[], map[], 0;
    }

    method LoadRow(k: Key, now: int) returns (found: bool, data: string, startTime: int)
      modifies this`rows
      ensures found <==> k in old(rows) && (old(rows)[k].expiresAt == 0 || old(rows)[k].expiresAt > now)
      ensures found ==> data == old(rows)[k].data && startTime == old(rows)[k].startTime
      ensures forall x :: x in rows ==> x in old(rows) && rows[x] == old(rows)[x]
      ensures forall x :: x in old(rows) ==> (x !in rows <==> x == k && 0 < old(rows)[x].expiresAt <= now)
    {
      found, data, startTime := false, "", 0;
      if k in rows && Live(rows[k], now) {
        found, data, startTime := true, rows[k].data, rows[k].startTime;
      }
      if !found {
        rows := Purged(rows, k, now);
      }
    }

    /** A start time or path that is not given keeps the stored one. */
    method StoreRow(k: Key, data: string, expiresAt: int, now: int, startTime: int, cfcPath: string)
      requires Valid() && (k.kind.Application? ==> k.id == "")
      modifies this`rows, this`stores
      ensures Valid() && rows.Keys == old(rows).Keys + {k}
      ensures forall x :: x in old(rows) && x != k ==> rows[x] == old(rows)[x]
      ensures rows[k].data == data && rows[k].expiresAt == expiresAt && rows[k].lastAccess == now
      ensures rows[k].stamp == old(stores) && stores == old(stores) + 1
      ensures rows[k].startTime == if startTime > 0 || k !in old(rows) then startTime else old(rows)[k].startTime
      ensures rows[k].cfcPath == if cfcPath != "" || k !in old(rows) then cfcPath else old(rows)[k].cfcPath
    {
      rows := Upserted(rows, k, data, expiresAt, now, startTime, cfcPath, stores);
      stores := stores + 1;
    }

    method TouchRow(k: Key, expiresAt: int, now: int) returns (touched: bool)
      modifies this`rows
      ensures touched <==> k in old(rows) && (old(rows)[k].expiresAt == 0 || old(rows)[k].expiresAt > now)
      ensures rows == if touched then old(rows)[k := old(rows)[k].(expiresAt := expiresAt, lastAccess := now)] else old(rows)
    {
      touched := k in rows && Live(rows[k], now);
      rows := Touched(rows, k, expiresAt, now);
    }

    /** The earliest expiry that is scheduled. */
    method EarliestExpiry() returns (found: bool, earliest: int)
      ensures found <==> exists k :: k in rows && rows[k].expiresAt > 0
      ensures found ==> exists k :: k in rows && rows[k].expiresAt == earliest > 0
      ensures found ==> forall k :: k in rows && rows[k].expiresAt > 0 ==> earliest <= rows[k].expiresAt
    {
      found, earliest := false, 0;
      var todo := rows.Keys;
      while todo != {}
        invariant todo <= rows.Keys
        invariant found ==> exists k :: k in rows && rows[k].expiresAt == earliest > 0
        invariant forall k :: k in rows && k !in todo && rows[k].expiresAt > 0 ==> found && earliest <= rows[k].expiresAt
      {
        var k :| k in todo;
        todo := todo - {k};
        if rows[k].expiresAt > 0 && (!found || rows[k].expiresAt < earliest) {
          found, earliest := true, rows[k].expiresAt;
        }
      }
    }

    method ClaimExpired(now: int) returns (batch: seq<Record>)
      modifies this`rows
      ensures Lists(batch, old(rows), now)
      ensures rows == WithoutExpired(old(rows), now)
      ensures forall k :: k in rows <==> k in old(rows) && !(0 < old(rows)[k].expiresAt <= now)
      ensures forall k :: k in rows ==> rows[k] == old(rows)[k]
    {
      batch := [];
      var todo := rows.Keys;
      while todo != {}
        invariant todo <= rows.Keys
        invariant forall i :: 0 <= i < |batch| ==> batch[i].key in rows && batch[i].key !in todo
        invariant forall i :: 0 <= i < |batch| ==> rows[batch[i].key] == batch[i].row && Expired(batch[i].row, now)
        invariant forall i, j :: 0 <= i < j < |batch| ==> batch[i].key != batch[j].key
        invariant forall k :: k in rows && k !in todo && Expired(rows[k], now) ==> exists i :: 0 <= i < |batch| && batch[i].key == k
      {
        var k :| k in todo;
        todo := todo - {k};
        if Expired(rows[k], now) {
          ghost var before := batch;
          batch := batch + [Record(k, rows[k])];
          assert batch[|before|].key == k;
          forall x | x in rows && x !in todo && Expired(rows[x], now) ensures exists i :: 0 <= i < |batch| && batch[i].key == x {
            if x != k {
              var i :| 0 <= i < |before| && before[i].key == x;
              assert batch[i].key == x;
            }
          }
        }
      }
      NothingListed(batch, rows, now);
      if batch != [] {
        rows := WithoutExpired(rows, now);
      }
    }

    method NextCfid() returns (cfid: int)
      modifies this`nextCfid
      ensures cfid == if "cfid" in old(nextCfid) then old(nextCfid)["cfid"] else 1
      ensures nextCfid == old(nextCfid)["cfid" := cfid + 1]
    {
      cfid := 1;
      if "cfid" in nextCfid { cfid := nextCfid["cfid"]; }
      nextCfid := nextCfid["cfid" := cfid + 1];
    }

    /** An ending session's application: claimed with it, or what the table still holds. */
    method ApplicationData(app: string, claimedApps: map<string, Record>, now: int) returns (data: string)
      requires forall k :: k in rows ==> !Expired(rows[k], now)
      modifies this`rows
      ensures rows == old(rows)
      ensures data == ApplicationOf(claimedApps, Living(rows, now), app)
    {
      data := "";
      if app in claimedApps && claimedApps[app].row.data != "" {
        data := claimedApps[app].row.data;
      } else {
        var found, stored, _ := LoadRow(Key(Application, app, ""), now);
        assert rows == old(rows);
        if found { data := stored; }
      }
    }

    method EndSessions(batch: seq<Record>, claimedApps: map<string, Record>, now: int, loads: Loads) returns (calls: seq<Call>)
      requires forall k :: k in rows ==> !Expired(rows[k], now)
      modifies this`rows
      ensures rows == old(rows)
      ensures calls == SessionCalls(Of(batch, Session, loads), claimedApps, Living(rows, now))
    {
      calls := [];
      for i := 0 to |batch|
        invariant rows == old(rows)
        invariant calls == SessionCalls(Of(batch[..i], Session, loads), claimedApps, Living(rows, now))
      {
        hide Living, ApplicationOf, Expired, Heard;
        OfAppend(batch[..i], batch[i], Session, loads);
        if batch[i].key.kind.Session? {
          var data := ApplicationData(batch[i].key.app, claimedApps, now);
          if Heard(batch[i], loads) { calls := calls + [SessionEnd(batch[i], data)]; }
        }
        assert batch[..i + 1] == batch[..i] + [batch[i]];
      }
      assert batch[..|batch|] == batch;
    }

    /** Every expired row leaves the table.  Those whose component loads are announced, the
        sessions before the applications, and each session with its application's data. */
    method Reap(now: int, loads: Loads)
      returns (batch: seq<Record>, calls: seq<Call>, ghost sessions: seq<nat>, ghost applications: seq<nat>)
      requires Valid()
      modifies this`rows
      ensures Valid() && rows == WithoutExpired(old(rows), now)
      ensures forall k :: k in rows <==> k in old(rows) && !(0 < old(rows)[k].expiresAt <= now)
      ensures forall k :: k in rows ==> rows[k] == old(rows)[k]
      ensures Lists(batch, old(rows), now)
      ensures forall i :: 0 <= i < |sessions| ==> sessions[i] < |batch|
      ensures forall i :: 0 <= i < |applications| ==> applications[i] < |batch|
      ensures forall i, j :: 0 <= i < j < |sessions| ==> sessions[i] < sessions[j]
      ensures forall i, j :: 0 <= i < j < |applications| ==> applications[i] < applications[j]
      ensures forall j :: j in sessions <==>
                && 0 <= j < |batch| && batch[j].key.kind.Session?
                && loads.Templates? && batch[j].row.cfcPath != "" && batch[j].row.cfcPath in loads.paths
      ensures forall j :: j in applications <==>
                && 0 <= j < |batch| && batch[j].key.kind.Application?
                && loads.Templates? && batch[j].row.cfcPath != "" && batch[j].row.cfcPath in loads.paths
      ensures |calls| == |sessions| + |applications|
      ensures forall i :: 0 <= i < |sessions| ==> calls[i].SessionEnd? && calls[i].session == batch[sessions[i]]
      ensures forall i :: 0 <= i < |applications| ==> calls[|sessions| + i] == ApplicationEnd(batch[applications[i]])
      ensures forall i :: 0 <= i < |sessions| ==>
                var k := Key(Application, batch[sessions[i]].key.app, "");
                calls[i].application ==
                if k !in old(rows) then ""
                else if 0 < old(rows)[k].expiresAt <= now && old(rows)[k].data != "" then old(rows)[k].data
                else if old(rows)[k].expiresAt == 0 || old(rows)[k].expiresAt > now then old(rows)[k].data
                else ""
      ensures calls == SessionCalls(Of(batch, Session, loads), ClaimedApplications(old(rows), now), Living(rows, now))
                       + ApplicationCalls(Of(batch, Application, loads))
    {
      hide Lists, Heard, ApplicationOf, ClaimedApplications, Of, WithoutExpired, Living, Live;
      batch := ClaimExpired(now);
      var claimedApps := IndexApplications(batch, old(rows), now);
      calls := EndSessions(batch, claimedApps, now, loads);
      var endings := EndApplications(batch, loads);
      sessions := OfPicks(batch, Session, loads);
      applications := OfPicks(batch, Application, loads);
      calls := calls + endings;
      ApplicationIs(old(rows), now);
    }

    /** One turn of the reaper's loop: it reaps and turns again at once, or sleeps until `wake`. */
    method Turn(now: int, loads: Loads) returns (wake: int)
      requires Valid()
      modifies this`rows
      ensures Valid()
      ensures wake > now ==> rows == old(rows)
      ensures wake > now ==> forall k :: k in rows && rows[k].expiresAt > 0 ==> wake <= rows[k].expiresAt
      ensures (forall k :: k in old(rows) ==> old(rows)[k].expiresAt <= 0) ==> wake == now + 60
      ensures (exists k :: k in old(rows) && old(rows)[k].expiresAt > 0) ==>
                (exists k :: k in old(rows) && old(rows)[k].expiresAt == wake) && forall k :: k in old(rows) && old(rows)[k].expiresAt > 0 ==> wake <= old(rows)[k].expiresAt
      ensures wake <= now ==> rows == WithoutExpired(old(rows), now) && rows != old(rows)
    {
      var found, earliest := EarliestExpiry();
      if found {
        wake := earliest;
        if earliest <= now {
          var batch, calls, _, _ := Reap(now, loads);
        }
      } else {
        wake := now + 60;
      }
    }
  }

  method IndexApplications(batch: seq<Record>, ghost rows: Rows, now: int) returns (claimedApps: map<string, Record>)
    requires Lists(batch, rows, now)
    requires forall k :: k in rows && k.kind.Application? ==> k.id == ""
    ensures claimedApps == ClaimedApplications(rows, now)
  {
    hide ClaimedApplications, Expired;
    claimedApps := map[];
    for i := 0 to |batch|
      invariant forall app :: app in claimedApps <==> exists j :: 0 <= j < i && batch[j].key == Key(Application, app, "")
      invariant forall app :: app in claimedApps ==>
                  claimedApps[app] in batch && claimedApps[app].key == Key(Application, app, "")
    {
      if batch[i].key.kind.Application? {
        claimedApps := claimedApps[batch[i].key.app := batch[i]];
      }
    }
    IndexIs(batch, rows, now, claimedApps);
  }

  lemma IndexIs(batch: seq<Record>, rows: Rows, now: int, index: map<string, Record>)
    requires Lists(batch, rows, now)
    requires forall app :: app in index <==> exists j :: 0 <= j < |batch| && batch[j].key == Key(Application, app, "")
    requires forall app :: app in index ==> index[app] in batch && index[app].key == Key(Application, app, "")
    requires forall k :: k in rows && k.kind.Application? ==> k.id == ""
    ensures index == ClaimedApplications(rows, now)
  {
  }

  method EndApplications(batch: seq<Record>, loads: Loads) returns (calls: seq<Call>)
    ensures calls == ApplicationCalls(Of(batch, Application, loads))
  {
    calls := [];
    for i := 0 to |batch|
      invariant calls == ApplicationCalls(Of(batch[..i], Application, loads))
    {
      OfAppend(batch[..i], batch[i], Application, loads);
      if batch[i].key.kind.Application? && Heard(batch[i], loads) {
        calls := calls + [ApplicationEnd(batch[i])];
      }
      assert batch[..i + 1] == batch[..i] + [batch[i]];
    }
    assert batch[..|batch|] == batch;
  }
}

/** Any number of workers and reapers at work on the shared tables at once.  Every SQL
    statement is one step; a `BEGIN IMMEDIATE` transaction holds the write lock, works on a
    copy that others do not see, and publishes it with its commit. */
module ScopeProtocol {
  import opened Scopes

  type Pid = nat

  /** What a process is in the middle of. */
  datatype Task =
    | Missed(key: Key, now: int)                  // found no live row, about to purge it
    | Opened(now: int)                            // claiming: holds the lock
    | Selected(now: int, batch: seq<Record>)
    | Deleted(now: int, batch: seq<Record>)
    | SeqOpened                                   // drawing a CFID: holds the lock
    | SeqRead(next: int)
    | SeqWritten(next: int)

  datatype Transaction = None | Held(owner: Pid, rows: Rows, seqRow: map<string, int>)

  datatype Claim = Claim(owner: Pid, now: int, batch: seq<Record>)

  /** How a stored row came to an end. */
  datatype Fate = Claimed(claim: nat, now: int) | Swept(now: int) | Replaced | Removed

  /** `stores`, `promised`, `fates`, `claims` and `drawn` are history: the number of rows
      ever stored, the expiry last written for each, how each ended, the committed claims
      and the CFIDs handed out. */
  datatype State = State(
    rows: Rows, seqRow: map<string, int>, lock: Transaction, tasks: map<Pid, Task>,
    stores: nat, promised: map<nat, int>, fates: map<nat, Fate>, claims: seq<Claim>, drawn: seq<int>)

  function Start(): State
  {
    State(map[], map[], None, map[], 0, map[], map[], [], [])
  }

  datatype Step =
    | Store(key: Key, data: string, expiresAt: int, now: int, startTime: int, cfcPath: string)
    | Touch(key: Key, expiresAt: int, now: int)
    | StopApplication(app: string)
    | EndSession(app: string, id: string)
    | Rotate(app: string, id: string, id': string)
    | Sweep(now: int)
    | Miss(p: Pid, key: Key, now: int)
    | Purge(p: Pid)
    | Begin(p: Pid, now: int)
    | Select(p: Pid, batch: seq<Record>)
    | Delete(p: Pid)
    | Commit(p: Pid)
    | BeginSeq(p: Pid)
    | ReadSeq(p: Pid)
    | WriteSeq(p: Pid)
    | CommitSeq(p: Pid)
    | Fail(p: Pid)                                // an error or a crash: the lock and the copy are lost

  function Stamps(rows: Rows): set<nat>
  {
    set k | k in rows :: rows[k].stamp
  }

  function NextOf(seqRow: map<string, int>): int
  {
    if "cfid" in seqRow then seqRow["cfid"] else 1
  }

  function Ended(fates: map<nat, Fate>, gone: set<nat>, fate: Fate): map<nat, Fate>
  {
    fates + map n | n in gone :: fate
  }

  /** Publishes `rows`: the rows that are gone have met `fate`. */
  function Publish(s: State, rows: Rows, fate: Fate): State
  {
    s.(rows := rows, fates := Ended(s.fates, Stamps(s.rows) - Stamps(rows), fate))
  }

  function Done(s: State, p: Pid): State
  {
    s.(tasks := s.tasks - {p})
  }

  /** A statement of its own waits for the lock. */
  ghost predicate Enabled(s: State, e: Step)
  {
    match e
    case Store(k, _, _, _, _, _) => s.lock.None?
    case Touch(_, _, _) => s.lock.None?
    case StopApplication(_) => s.lock.None?
    case EndSession(_, _) => s.lock.None?
    case Rotate(_, _, _) => s.lock.None?
    case Sweep(_) => s.lock.None?
    case Miss(p, k, now) => p !in s.tasks && !(k in s.rows && Live(s.rows[k], now))
    case Purge(p) => s.lock.None? && p in s.tasks && s.tasks[p].Missed?
    case Begin(p, _) => s.lock.None? && p !in s.tasks
    case Select(p, batch) => p in s.tasks && s.tasks[p].Opened? && s.lock.Held? && Lists(batch, s.lock.rows, s.tasks[p].now)
    case Delete(p) => p in s.tasks && s.tasks[p].Selected? && s.tasks[p].batch != [] && s.lock.Held?
    case Commit(p) =>
      p in s.tasks && s.lock.Held? && (s.tasks[p].Deleted? || (s.tasks[p].Selected? && s.tasks[p].batch == []))
    case BeginSeq(p) => s.lock.None? && p !in s.tasks
    case ReadSeq(p) => p in s.tasks && s.tasks[p].SeqOpened? && s.lock.Held?
    case WriteSeq(p) => p in s.tasks && s.tasks[p].SeqRead? && s.lock.Held?
    case CommitSeq(p) => p in s.tasks && s.tasks[p].SeqWritten? && s.lock.Held?
    case Fail(p) => p in s.tasks
  }

  ghost function After(s: State, e: Step): State
    requires Enabled(s, e)
  {
    match e
    case Store(k, data, expiresAt, now, startTime, cfcPath) =>
      Publish(s, Upserted(s.rows, k, data, expiresAt, now, startTime, cfcPath, s.stores), Replaced)
        .(stores := s.stores + 1, promised := s.promised[s.stores := expiresAt])
    case Touch(k, expiresAt, now) =>
      if k in s.rows && Live(s.rows[k], now) then
        Publish(s, Touched(s.rows, k, expiresAt, now), Replaced).(promised := s.promised[s.rows[k].stamp := expiresAt])
      else s
    case StopApplication(app) => Publish(s, WithoutApplication(s.rows, app), Removed)
    case EndSession(app, id) => Publish(s, s.rows - {Key(Session, app, id)}, Removed)
    case Rotate(app, id, id') => Publish(s, Rotated(s.rows, app, id, id'), Removed)
    case Sweep(now) => Publish(s, WithoutExpired(s.rows, now), Swept(now))
    case Miss(p, k, now) => s.(tasks := s.tasks[p := Missed(k, now)])
    case Purge(p) =>
      var t := s.tasks[p];
      Done(Publish(s, Purged(s.rows, t.key, t.now), Swept(t.now)), p)
    case Begin(p, now) => s.(lock := Held(p, s.rows, s.seqRow), tasks := s.tasks[p := Opened(now)])
    case Select(p, batch) => s.(tasks := s.tasks[p := Selected(s.tasks[p].now, batch)])
    case Delete(p) =>
      var t := s.tasks[p];
      s.(lock := s.lock.(rows := WithoutExpired(s.lock.rows, t.now)), tasks := s.tasks[p := Deleted(t.now, t.batch)])
    case Commit(p) =>
      var t := s.tasks[p];
      Done(Publish(s, s.lock.rows, Claimed(|s.claims|, t.now)), p)
        .(seqRow := s.lock.seqRow, lock := None, claims := s.claims + [Claim(p, t.now, t.batch)])
    case BeginSeq(p) => s.(lock := Held(p, s.rows, s.seqRow), tasks := s.tasks[p := SeqOpened])
    case ReadSeq(p) => s.(tasks := s.tasks[p := SeqRead(NextOf(s.lock.seqRow))])
    case WriteSeq(p) =>
      var n := s.tasks[p].next;
      s.(lock := s.lock.(seqRow := s.lock.seqRow["cfid" := n + 1]), tasks := s.tasks[p := SeqWritten(n)])
    case CommitSeq(p) =>
      Done(Publish(s, s.lock.rows, Removed), p)
        .(seqRow := s.lock.seqRow, lock := None, drawn := s.drawn + [s.tasks[p].next])
    case Fail(p) => Done(s, p).(lock := if s.lock.Held? && s.lock.owner == p then None else s.lock)
  }

  // ---------------------------------------------------------------- invariant

  ghost predicate Distinct(rows: Rows)
  {
    forall k, k' :: k in rows && k' in rows && rows[k].stamp == rows[k'].stamp ==> k == k'
  }

  /** Every row ever stored is in the table or has met one fate. */
  ghost predicate Accounted(stamps: set<nat>, stores: nat, fates: map<nat, Fate>)
  {
    && stamps !! fates.Keys
    && forall n: nat :: n < stores <==> n in fates || n in stamps
  }

  /** A row carries the expiry that was last written for it. */
  ghost predicate KeepsPromises(rows: Rows, promised: map<nat, int>)
  {
    forall k :: k in rows ==> rows[k].stamp in promised && promised[rows[k].stamp] == rows[k].expiresAt
  }

  /** What was swept or claimed was due at its remover's time. */
  ghost predicate DueWhenTaken(promised: map<nat, int>, fates: map<nat, Fate>)
  {
    forall n :: n in fates && (fates[n].Swept? || fates[n].Claimed?) ==> n in promised && 0 < promised[n] <= fates[n].now
  }

  function Stamp(claims: seq<Claim>, c: nat, i: nat): nat
    requires c < |claims| && i < |claims[c].batch|
  {
    claims[c].batch[i].row.stamp
  }

  /** The rows of a claim are those whose fate it was, once each. */
  ghost predicate ClaimsFated(fates: map<nat, Fate>, claims: seq<Claim>)
  {
    ClaimedRowsFated(fates, claims) && ClaimedRowsDistinct(claims) && FatesClaimed(fates, claims)
  }

  ghost predicate ClaimedRowsFated(fates: map<nat, Fate>, claims: seq<Claim>)
  {
    forall c, i :: 0 <= c < |claims| && 0 <= i < |claims[c].batch| ==>
      Stamp(claims, c, i) in fates && fates[Stamp(claims, c, i)] == Claimed(c, claims[c].now)
  }

  ghost predicate ClaimedRowsDistinct(claims: seq<Claim>)
  {
    forall c, i, j :: 0 <= c < |claims| && 0 <= i < j < |claims[c].batch| ==> Stamp(claims, c, i) != Stamp(claims, c, j)
  }

  ghost predicate FatesClaimed(fates: map<nat, Fate>, claims: seq<Claim>)
  {
    forall n :: n in fates && fates[n].Claimed? ==>
      fates[n].claim < |claims| && exists i :: 0 <= i < |claims[fates[n].claim].batch| && Stamp(claims, fates[n].claim, i) == n
  }

  ghost predicate Drawn(s: State)
  {
    && (forall i :: 0 <= i < |s.drawn| ==> s.drawn[i] == i + 1)
    && NextOf(s.seqRow) == |s.drawn| + 1
  }

  /** Only the holder of the lock is in a transaction, and it knows what it works on. */
  ghost predicate Locked(s: State)
  {
    && (forall p :: p in s.tasks && !s.tasks[p].Missed? ==> s.lock.Held? && s.lock.owner == p)
    && (s.lock.Held? ==> s.lock.owner in s.tasks && !s.tasks[s.lock.owner].Missed? && Working(s, s.tasks[s.lock.owner]))
  }

  ghost predicate Working(s: State, t: Task)
    requires s.lock.Held?
  {
    match t
    case Missed(_, _) => false
    case Opened(_) => s.lock.rows == s.rows && s.lock.seqRow == s.seqRow
    case Selected(now, batch) => s.lock.rows == s.rows && s.lock.seqRow == s.seqRow && Lists(batch, s.rows, now)
    case Deleted(now, batch) =>
      s.lock.rows == WithoutExpired(s.rows, now) && s.lock.seqRow == s.seqRow && Lists(batch, s.rows, now)
    case SeqOpened => s.lock.rows == s.rows && s.lock.seqRow == s.seqRow
    case SeqRead(n) => s.lock.rows == s.rows && s.lock.seqRow == s.seqRow && n == NextOf(s.seqRow)
    case SeqWritten(n) => s.lock.rows == s.rows && NextOf(s.lock.seqRow) == n + 1 && n == NextOf(s.seqRow)
  }

  ghost predicate Kept(rows: Rows, stores: nat, promised: map<nat, int>, fates: map<nat, Fate>, claims: seq<Claim>)
  {
    && Distinct(rows) && KeepsPromises(rows, promised)
    && Accounted(Stamps(rows), stores, fates)
    && (forall n: nat :: n in promised <==> n < stores)
    && DueWhenTaken(promised, fates)
    && ClaimsFated(fates, claims)
  }

  ghost predicate Inv(s: State)
  {
    Kept(s.rows, s.stores, s.promised, s.fates, s.claims) && Drawn(s) && Locked(s)
  }

  lemma StartKeeps()
    ensures Inv(Start())
  {
  }

  lemma EndedFates(fates: map<nat, Fate>, gone: set<nat>, fate: Fate)
    requires gone !! fates.Keys
    ensures var fates' := Ended(fates, gone, fate);
            && fates'.Keys == fates.Keys + gone
            && (forall n :: n in fates ==> fates'[n] == fates[n])
            && (forall n :: n in gone ==> fates'[n] == fate)
  {
  }

  lemma EndedAccounted(stamps: set<nat>, stores: nat, fates: map<nat, Fate>, stamps': set<nat>, fate: Fate)
    requires Accounted(stamps, stores, fates) && stamps' <= stamps
    ensures Accounted(stamps', stores, Ended(fates, stamps - stamps', fate))
  {
    EndedFates(fates, stamps - stamps', fate);
  }

  lemma EndedDue(promised: map<nat, int>, fates: map<nat, Fate>, gone: set<nat>, fate: Fate)
    requires DueWhenTaken(promised, fates) && gone !! fates.Keys
    requires fate.Swept? || fate.Claimed? ==> forall n :: n in gone ==> n in promised && 0 < promised[n] <= fate.now
    ensures DueWhenTaken(promised, Ended(fates, gone, fate))
  {
    EndedFates(fates, gone, fate);
    hide Ended;
  }

  lemma EndedFated(fates: map<nat, Fate>, gone: set<nat>, fate: Fate, claims: seq<Claim>)
    requires ClaimsFated(fates, claims) && gone !! fates.Keys && !fate.Claimed?
    ensures ClaimsFated(Ended(fates, gone, fate), claims)
  {
    EndedFates(fates, gone, fate);
    hide Ended;
  }

  /** Rows that leave the table otherwise than in a claim. */
  lemma EndKeeps(s: State, rows: Rows, fate: Fate)
    requires Kept(s.rows, s.stores, s.promised, s.fates, s.claims)
    requires Distinct(rows) && KeepsPromises(rows, s.promised) && Stamps(rows) <= Stamps(s.rows)
    requires !fate.Claimed?
    requires fate.Swept? ==> forall n :: n in Stamps(s.rows) && n !in Stamps(rows) ==> n in s.promised && 0 < s.promised[n] <= fate.now
    ensures Kept(rows, s.stores, s.promised, Publish(s, rows, fate).fates, s.claims)
  {
    hide Distinct, KeepsPromises, Accounted, DueWhenTaken, ClaimsFated, Stamps, Ended;
    var gone := Stamps(s.rows) - Stamps(rows);
    AccountedApart(Stamps(s.rows), s.stores, s.fates);
    EndedAccounted(Stamps(s.rows), s.stores, s.fates, Stamps(rows), fate);
    EndedDue(s.promised, s.fates, gone, fate);
    EndedFated(s.fates, gone, fate, s.claims);
  }

  lemma AccountedApart(stamps: set<nat>, stores: nat, fates: map<nat, Fate>)
    requires Accounted(stamps, stores, fates)
    ensures stamps !! fates.Keys
  {
  }

  lemma SubtableKept(s: State, rows: Rows, fate: Fate)
    requires Kept(s.rows, s.stores, s.promised, s.fates, s.claims)
    requires forall k :: k in rows ==> k in s.rows && rows[k] == s.rows[k]
    requires !fate.Claimed?
    requires fate.Swept? ==> forall k :: k in s.rows && k !in rows ==> Expired(s.rows[k], fate.now)
    ensures Kept(rows, s.stores, s.promised, Publish(s, rows, fate).fates, s.claims)
  {
    SubtableGone(s.rows, rows);
    hide Publish, Accounted, ClaimsFated, DueWhenTaken;
    EndKeeps(s, rows, fate);
  }

  lemma SubtableGone(rows: Rows, rows': Rows)
    requires forall k :: k in rows' ==> k in rows && rows'[k] == rows[k]
    requires Distinct(rows)
    ensures Distinct(rows') && Stamps(rows') <= Stamps(rows)
    ensures forall n :: n in Stamps(rows) && n !in Stamps(rows') <==> exists k :: k in rows && k !in rows' && rows[k].stamp == n
  {
    assert forall k :: k in rows' ==> rows'[k].stamp in Stamps(rows');
  }

  lemma InsertKept(rows: Rows, stores: nat, promised: map<nat, int>, fates: map<nat, Fate>, claims: seq<Claim>,
                   k: Key, row: Row)
    requires Kept(rows, stores, promised, fates, claims) && k !in rows && row.stamp == stores
    ensures Kept(rows[k := row], stores + 1, promised[stores := row.expiresAt], fates, claims)
  {
    hide ClaimsFated;
    var rows' := rows[k := row];
    assert Stamps(rows') == Stamps(rows) + {stores} by {
      assert rows'[k].stamp == stores;
      forall x | x in rows ensures rows[x].stamp in Stamps(rows') { assert rows'[x] == rows[x]; }
    }
    forall x | x in rows ensures rows[x].stamp != stores { assert rows[x].stamp in Stamps(rows); }
  }

  lemma StoreKept(s: State, e: Step)
    requires Kept(s.rows, s.stores, s.promised, s.fates, s.claims) && e.Store? && Enabled(s, e)
    ensures var s' := After(s, e); Kept(s'.rows, s'.stores, s'.promised, s'.fates, s'.claims)
  {
    var rows := Upserted(s.rows, e.key, e.data, e.expiresAt, e.now, e.startTime, e.cfcPath, s.stores);
    hide Upserted, Kept, Publish;
    UpsertedShape(s.rows, e, s.stores);
    PutKept(s, rows, e.key, rows[e.key]);
  }

  lemma UpsertedShape(rows: Rows, e: Step, stamp: nat)
    requires e.Store?
    ensures var rows' := Upserted(rows, e.key, e.data, e.expiresAt, e.now, e.startTime, e.cfcPath, stamp);
            && e.key in rows' && rows'[e.key].stamp == stamp && rows'[e.key].expiresAt == e.expiresAt
            && rows' == (rows - {e.key})[e.key := rows'[e.key]]
  {
  }

  lemma PutKept(s: State, rows: Rows, k: Key, row: Row)
    requires Kept(s.rows, s.stores, s.promised, s.fates, s.claims) && row.stamp == s.stores
    requires rows == (s.rows - {k})[k := row]
    ensures Kept(rows, s.stores + 1, s.promised[s.stores := row.expiresAt], Publish(s, rows, Replaced).fates, s.claims)
  {
    var rest := s.rows - {k};
    StoresUnused(s);
    hide Kept, Stamps, Ended;
    SubtableKept(s, rest, Replaced);
    InsertKept(rest, s.stores, s.promised, Publish(s, rest, Replaced).fates, s.claims, k, row);
    StampsInsert(rest, k, row);
    assert Stamps(s.rows) - Stamps(rest) == Stamps(s.rows) - Stamps(rows);
  }

  lemma StoresUnused(s: State)
    requires Kept(s.rows, s.stores, s.promised, s.fates, s.claims)
    ensures s.stores !in Stamps(s.rows)
  {
    hide ClaimsFated, DueWhenTaken, Distinct, KeepsPromises;
  }

  lemma StampsInsert(rows: Rows, k: Key, row: Row)
    requires k !in rows
    ensures Stamps(rows[k := row]) == Stamps(rows) + {row.stamp}
  {
    var rows' := rows[k := row];
    assert rows'[k].stamp == row.stamp;
    forall x | x in rows ensures rows[x].stamp in Stamps(rows') { assert rows'[x] == rows[x]; }
  }

  /** Rows that change their key or times, but not their number. */
  lemma MoveKept(s: State, rows: Rows, promised: map<nat, int>)
    requires Kept(s.rows, s.stores, s.promised, s.fates, s.claims)
    requires Distinct(rows) && KeepsPromises(rows, promised) && Stamps(rows) == Stamps(s.rows)
    requires promised.Keys == s.promised.Keys && forall n :: n in s.fates && n in promised ==> promised[n] == s.promised[n]
    ensures Kept(rows, s.stores, promised, s.fates, s.claims) && Publish(s, rows, Removed).fates == s.fates
    ensures Publish(s, rows, Replaced).fates == s.fates
  {
    hide ClaimsFated, Distinct, KeepsPromises, Stamps;
    assert Stamps(s.rows) - Stamps(rows) == {};
  }

  lemma TouchKept(s: State, k: Key, expiresAt: int, now: int)
    requires Kept(s.rows, s.stores, s.promised, s.fates, s.claims)
    requires k in s.rows && Live(s.rows[k], now)
    ensures var rows, promised := Touched(s.rows, k, expiresAt, now), s.promised[s.rows[k].stamp := expiresAt];
            && Kept(rows, s.stores, promised, s.fates, s.claims)
            && Publish(s, rows, Replaced).fates == s.fates
  {
    var rows, promised := Touched(s.rows, k, expiresAt, now), s.promised[s.rows[k].stamp := expiresAt];
    assert s.rows[k].stamp in Stamps(s.rows);
    assert Distinct(rows) && KeepsPromises(rows, promised) by { hide ClaimsFated, Accounted, DueWhenTaken; }
    assert Stamps(rows) == Stamps(s.rows) by {
      forall x | x in s.rows ensures s.rows[x].stamp in Stamps(rows) { assert rows[x].stamp == s.rows[x].stamp; }
    }
    assert promised.Keys == s.promised.Keys;
    MoveKept(s, rows, promised);
  }

  lemma RotateKept(s: State, app: string, id: string, id': string)
    requires Kept(s.rows, s.stores, s.promised, s.fates, s.claims)
    ensures var rows := Rotated(s.rows, app, id, id');
            && Kept(rows, s.stores, s.promised, s.fates, s.claims)
            && Publish(s, rows, Removed).fates == s.fates
  {
    var rows := Rotated(s.rows, app, id, id');
    var from, to := Key(Session, app, id), Key(Session, app, id');
    if from in s.rows && to !in s.rows {
      var rest := s.rows - {from};
      assert Distinct(rows) && KeepsPromises(rows, s.promised) by { hide ClaimsFated, Accounted, DueWhenTaken; }
      StampsInsert(rest, to, s.rows[from]);
      StampsInsert(rest, from, s.rows[from]);
      assert rest[from := s.rows[from]] == s.rows;
    }
    hide Rotated, Kept;
    assert Distinct(rows) && KeepsPromises(rows, s.promised) && Stamps(rows) == Stamps(s.rows);
    MoveKept(s, rows, s.promised);
  }

  // ------------------------------------------------------------------- claims

  lemma ListsExpired(batch: seq<Record>, rows: Rows, now: int, n: nat)
    requires Lists(batch, rows, now) && Distinct(rows)
    ensures n in Stamps(rows) - Stamps(WithoutExpired(rows, now)) <==> exists i :: 0 <= i < |batch| && batch[i].row.stamp == n
    ensures forall i, j :: 0 <= i < j < |batch| ==> batch[i].row.stamp != batch[j].row.stamp
  {
    var rest := WithoutExpired(rows, now);
    SubtableGone(rows, rest);
    if i :| 0 <= i < |batch| && batch[i].row.stamp == n {
      assert batch[i].key in rows && batch[i].key !in rest;
    }
    if n in Stamps(rows) - Stamps(rest) {
      var k :| k in rows && k !in rest && rows[k].stamp == n;
      var i :| 0 <= i < |batch| && batch[i].key == k;
      assert batch[i].row.stamp == n;
    }
  }

  lemma StampsKept(claims: seq<Claim>, claim: Claim)
    ensures forall c, i :: 0 <= c < |claims| && 0 <= i < |claims[c].batch| ==> Stamp(claims + [claim], c, i) == Stamp(claims, c, i)
    ensures forall i :: 0 <= i < |claim.batch| ==> Stamp(claims + [claim], |claims|, i) == claim.batch[i].row.stamp
  {
  }

  lemma ClaimFated(fates: map<nat, Fate>, claims: seq<Claim>, gone: set<nat>, claim: Claim)
    requires ClaimsFated(fates, claims) && gone !! fates.Keys
    requires forall n :: n in gone <==> exists i :: 0 <= i < |claim.batch| && claim.batch[i].row.stamp == n
    requires forall i, j :: 0 <= i < j < |claim.batch| ==> claim.batch[i].row.stamp != claim.batch[j].row.stamp
    ensures ClaimsFated(Ended(fates, gone, Claimed(|claims|, claim.now)), claims + [claim])
  {
    var fate, claims' := Claimed(|claims|, claim.now), claims + [claim];
    var fates' := Ended(fates, gone, fate);
    EndedFates(fates, gone, fate);
    hide Ended;
    StampsKept(claims, claim);
    hide Stamp;
    assert ClaimedRowsFated(fates', claims') by { hide FatesClaimed, ClaimedRowsDistinct; }
    assert ClaimedRowsDistinct(claims') by { hide FatesClaimed, ClaimedRowsFated; }
    hide ClaimedRowsFated, ClaimedRowsDistinct;
    forall n | n in fates' && fates'[n].Claimed?
      ensures fates'[n].claim < |claims'|
      ensures exists i :: 0 <= i < |claims'[fates'[n].claim].batch| && Stamp(claims', fates'[n].claim, i) == n
    {
      if n in gone {
        var i :| 0 <= i < |claim.batch| && claim.batch[i].row.stamp == n;
        assert Stamp(claims', |claims|, i) == n;
      } else {
        var i :| 0 <= i < |claims[fates[n].claim].batch| && Stamp(claims, fates[n].claim, i) == n;
        assert Stamp(claims', fates[n].claim, i) == n;
      }
    }
  }

  lemma ClaimDue(rows: Rows, promised: map<nat, int>, now: int)
    requires Distinct(rows) && KeepsPromises(rows, promised)
    ensures var rest := WithoutExpired(rows, now);
            && KeepsPromises(rest, promised)
            && forall n :: n in Stamps(rows) - Stamps(rest) ==> n in promised && 0 < promised[n] <= now
  {
    SubtableGone(rows, WithoutExpired(rows, now));
    hide Stamps;
  }

  lemma ClaimKept(s: State, rows: Rows, claim: Claim)
    requires Kept(s.rows, s.stores, s.promised, s.fates, s.claims)
    requires Lists(claim.batch, s.rows, claim.now) && rows == WithoutExpired(s.rows, claim.now)
    ensures Kept(rows, s.stores, s.promised, Publish(s, rows, Claimed(|s.claims|, claim.now)).fates, s.claims + [claim])
  {
    var gone, fate := Stamps(s.rows) - Stamps(rows), Claimed(|s.claims|, claim.now);
    SubtableGone(s.rows, rows);
    forall n: nat ensures n in gone <==> exists i :: 0 <= i < |claim.batch| && claim.batch[i].row.stamp == n {
      ListsExpired(claim.batch, s.rows, claim.now, n);
    }
    ListsExpired(claim.batch, s.rows, claim.now, 0);
    ClaimDue(s.rows, s.promised, claim.now);
    hide Distinct, KeepsPromises, Accounted, DueWhenTaken, ClaimsFated, Stamps, Ended, WithoutExpired, Lists;
    AccountedApart(Stamps(s.rows), s.stores, s.fates);
    EndedAccounted(Stamps(s.rows), s.stores, s.fates, Stamps(rows), fate);
    EndedDue(s.promised, s.fates, gone, fate);
    ClaimFated(s.fates, s.claims, gone, claim);
  }

  // --------------------------------------------------------------- every step

  lemma UnlockedLocked(s: State, s': State)
    requires Locked(s) && s.lock.None? && s'.lock.None?
    requires forall p :: p in s'.tasks ==> p in s.tasks && s'.tasks[p] == s.tasks[p]
    ensures Locked(s')
  {
  }

  ghost predicate OwnStatement(e: Step)
  {
    e.Store? || e.Touch? || e.StopApplication? || e.EndSession? || e.Rotate? || e.Sweep? || e.Purge?
  }

  lemma StatementUnlocked(s: State, e: Step)
    requires Drawn(s) && Locked(s) && Enabled(s, e) && OwnStatement(e)
    ensures Drawn(After(s, e)) && Locked(After(s, e))
  {
    hide Working, Ended;
    UnlockedLocked(s, After(s, e));
  }

  lemma StatementKeeps(s: State, e: Step)
    requires Inv(s) && Enabled(s, e) && OwnStatement(e)
    ensures Inv(After(s, e))
  {
    StatementUnlocked(s, e);
    hide Drawn, Locked, Kept, Publish;
    match e
    case Store(_, _, _, _, _, _) => StoreKept(s, e);
    case Touch(k, expiresAt, now) => if k in s.rows && Live(s.rows[k], now) { TouchKept(s, k, expiresAt, now); }
    case StopApplication(app) => SubtableKept(s, WithoutApplication(s.rows, app), Removed);
    case EndSession(app, id) => SubtableKept(s, s.rows - {Key(Session, app, id)}, Removed);
    case Rotate(app, id, id') => RotateKept(s, app, id, id');
    case Sweep(now) => SubtableKept(s, WithoutExpired(s.rows, now), Swept(now));
    case Purge(p) => SubtableKept(s, Purged(s.rows, s.tasks[p].key, s.tasks[p].now), Swept(s.tasks[p].now));
  }

  lemma CommitKeeps(s: State, p: Pid)
    requires Inv(s) && Enabled(s, Commit(p))
    ensures Inv(After(s, Commit(p)))
  {
    CommitReady(s, p);
    ClaimKept(s, s.lock.rows, Claim(p, s.tasks[p].now, s.tasks[p].batch));
    hide Kept, Publish, Lists, WithoutExpired, Drawn, Locked;
  }

  /** A claim commits exactly the rows it copied. */
  lemma CommitReady(s: State, p: Pid)
    requires Locked(s) && Drawn(s) && Enabled(s, Commit(p))
    ensures var t := s.tasks[p];
            Lists(t.batch, s.rows, t.now) && s.lock.rows == WithoutExpired(s.rows, t.now) && s.lock.seqRow == s.seqRow
    ensures Drawn(After(s, Commit(p))) && Locked(After(s, Commit(p)))
  {
    hide Ended;
    var t := s.tasks[p];
    if t.Selected? { NothingListed(t.batch, s.rows, t.now); }
    hide Lists, WithoutExpired;
  }

  lemma CommitSeqKeeps(s: State, p: Pid)
    requires Inv(s) && Enabled(s, CommitSeq(p))
    ensures Inv(After(s, CommitSeq(p)))
  {
    SubtableKept(s, s.rows, Removed);
    hide Kept, Publish;
  }

  lemma TransactionKeeps(s: State, e: Step)
    requires Inv(s) && Enabled(s, e)
    requires !OwnStatement(e) && !e.Commit? && !e.CommitSeq?
    ensures Inv(After(s, e))
  {
    hide Kept, WithoutExpired, Lists;
  }

  lemma StepKeeps(s: State, e: Step)
    requires Inv(s) && Enabled(s, e)
    ensures Inv(After(s, e))
  {
    hide Inv, After, Enabled;
    if e.Commit? { CommitKeeps(s, e.p); }
    else if e.CommitSeq? { CommitSeqKeeps(s, e.p); }
    else if OwnStatement(e) { StatementKeeps(s, e); }
    else { TransactionKeeps(s, e); }
  }

  // ----------------------------------------------------------- single statements

  /** A touch renews a live row and nothing else. */
  lemma TouchDoes(s: State, k: Key, expiresAt: int, now: int)
    requires s.lock.None?
    ensures var s' := After(s, Touch(k, expiresAt, now));
            if k in s.rows && (s.rows[k].expiresAt == 0 || s.rows[k].expiresAt > now) then
              && s'.rows == s.rows[k := s.rows[k].(expiresAt := expiresAt, lastAccess := now)]
              && s'.promised == s.promised[s.rows[k].stamp := expiresAt]
            else s' == s
  {
    hide Ended;
  }

  /** The others take out or rename the rows they name and keep all others. */
  lemma RemovalsDo(s: State, app: string, id: string, id': string, now: int, x: Key)
    requires s.lock.None?
    ensures var rows := After(s, StopApplication(app)).rows;
            (x in rows <==> x in s.rows && x.app != app) && (x in rows ==> rows[x] == s.rows[x])
    ensures After(s, EndSession(app, id)).rows == s.rows - {Key(Session, app, id)}
    ensures var rows := After(s, Sweep(now)).rows;
            (x in rows <==> x in s.rows && !(0 < s.rows[x].expiresAt <= now)) && (x in rows ==> rows[x] == s.rows[x])
  {
    hide Ended, Stamps;
  }

  lemma RotateDoes(s: State, app: string, id: string, id': string)
    requires s.lock.None?
    ensures var rows, from, to := After(s, Rotate(app, id, id')).rows, Key(Session, app, id), Key(Session, app, id');
            rows == if from in s.rows && to !in s.rows then (s.rows - {from})[to := s.rows[from]] else s.rows
  {
    hide Ended, Stamps;
  }

  lemma {:induction false} BatchExists(rows: Rows, now: int) returns (batch: seq<Record>)
    ensures Lists(batch, rows, now)
    decreases |rows|
  {
    if forall k :: k in rows ==> !Expired(rows[k], now) { return []; }
    var k :| k in rows && Expired(rows[k], now);
    var rest := BatchExists(rows - {k}, now);
    batch := rest + [Record(k, rows[k])];
    BatchMore(rest, rows, k, now);
  }

  lemma BatchMore(rest: seq<Record>, rows: Rows, k: Key, now: int)
    requires k in rows && Expired(rows[k], now) && Lists(rest, rows - {k}, now)
    ensures Lists(rest + [Record(k, rows[k])], rows, now)
  {
    var batch := rest + [Record(k, rows[k])];
    forall x | x in rows && 0 < rows[x].expiresAt <= now ensures exists i :: 0 <= i < |batch| && batch[i].key == x {
      if x == k {
        assert batch[|rest|].key == x;
      } else {
        assert (rows - {k})[x] == rows[x];
        var i :| 0 <= i < |rest| && rest[i].key == x;
        assert batch[i].key == x;
      }
    }
  }

  /** Nobody is stuck: without a lock every statement of its own and every beginning can be
      done, and the holder of a lock can always go on to its commit. */
  lemma NobodyStuck(s: State, p: Pid, any: Step) returns (e: Step)
    requires Inv(s)
    ensures s.lock.None? && (any.Store? || any.Touch? || any.StopApplication? || any.EndSession? || any.Rotate? || any.Sweep?) ==>
              Enabled(s, any)
    ensures s.lock.None? && (any.Begin? || any.BeginSeq?) && any.p !in s.tasks ==> Enabled(s, any)
    ensures s.lock.None? && p in s.tasks ==> Enabled(s, Purge(p))
    ensures p in s.tasks ==> Enabled(s, Fail(p))
    ensures s.lock.Held? && s.lock.owner == p ==>
              Enabled(s, e) && (e.Select? || e.Delete? || e.Commit? || e.ReadSeq? || e.WriteSeq? || e.CommitSeq?) && e.p == p
  {
    e := Fail(p);
    hide Kept, Drawn, Lists, WithoutExpired;
    if s.lock.Held? && s.lock.owner == p {
      match s.tasks[p]
      case Opened(now) =>
        var batch := BatchExists(s.lock.rows, now);
        e := Select(p, batch);
      case Selected(now, batch) => e := if batch == [] then Commit(p) else Delete(p);
      case Deleted(_, _) => e := Commit(p);
      case SeqOpened => e := ReadSeq(p);
      case SeqRead(_) => e := WriteSeq(p);
      case SeqWritten(_) => e := CommitSeq(p);
      case _ =>
    }
  }

  // --------------------------------------------------------------- whole runs

  /** A run: some interleaving of everybody's steps, from the empty tables. */
  ghost predicate IsRun(states: seq<State>, steps: seq<Step>)
  {
    && |states| == |steps| + 1 && states[0] == Start()
    && forall i :: 0 <= i < |steps| ==> Enabled(states[i], steps[i]) && states[i + 1] == After(states[i], steps[i])
  }

  lemma {:induction false} RunKeeps(states: seq<State>, steps: seq<Step>, i: nat)
    requires IsRun(states, steps) && i < |states|
    ensures Inv(states[i])
  {
    if i == 0 {
      StartKeeps();
    } else {
      RunKeeps(states, steps, i - 1);
      hide Inv, After, Enabled;
      StepKeeps(states[i - 1], steps[i - 1]);
    }
  }

  /** No incarnation of a row is claimed twice, in one batch or in two, and none before the
      expiry last written for it. */
  lemma ClaimedOnceWhenDue(states: seq<State>, steps: seq<Step>, s: State, c: nat, i: nat, d: nat, j: nat)
    requires IsRun(states, steps) && s in states
    requires c < |s.claims| && i < |s.claims[c].batch| && d < |s.claims| && j < |s.claims[d].batch|
    ensures s.claims[c].batch[i].row.stamp == s.claims[d].batch[j].row.stamp ==> c == d && i == j
    ensures var n := s.claims[c].batch[i].row.stamp; n in s.promised && 0 < s.promised[n] <= s.claims[c].now
  {
    var k :| 0 <= k < |states| && states[k] == s;
    RunKeeps(states, steps, k);
    hide IsRun, Accounted, Locked, Drawn, FatesClaimed;
    var n := Stamp(s.claims, c, i);
    assert n in s.fates && s.fates[n] == Claimed(c, s.claims[c].now);
    assert Stamp(s.claims, d, j) in s.fates && s.fates[Stamp(s.claims, d, j)].claim == d;
    assert i != j && c == d ==> Stamp(s.claims, c, i) != Stamp(s.claims, c, j);
  }

  /** A fate is final, and nobody writes an expiry for a row that has met it. */
  lemma StepFinal(s: State, e: Step, n: nat)
    requires Inv(s) && Enabled(s, e) && n in s.fates
    ensures n in After(s, e).fates && After(s, e).fates[n] == s.fates[n]
    ensures n in s.promised && n in After(s, e).promised && After(s, e).promised[n] == s.promised[n]
  {
    hide DueWhenTaken, ClaimsFated, Drawn, Locked, Upserted, Rotated, Touched, Purged, WithoutExpired, WithoutApplication;
  }

  lemma {:induction false} FateFinal(states: seq<State>, steps: seq<Step>, i: nat, j: nat, n: nat)
    requires IsRun(states, steps) && i <= j < |states| && n in states[i].fates
    ensures n in states[j].fates && states[j].fates[n] == states[i].fates[n]
    ensures n in states[i].promised && n in states[j].promised && states[j].promised[n] == states[i].promised[n]
    decreases j
  {
    RunKeeps(states, steps, i);
    if i < j {
      FateFinal(states, steps, i, j - 1, n);
      RunKeeps(states, steps, j - 1);
      StepFinal(states[j - 1], steps[j - 1], n);
    }
    hide Locked, Drawn, After, Enabled, ClaimsFated, DueWhenTaken, KeepsPromises;
  }

  /** The step writes the expiry of row `n` again. */
  ghost predicate Rewrites(s: State, e: Step, n: nat)
  {
    e.Touch? && e.key in s.rows && Live(s.rows[e.key], e.now) && s.rows[e.key].stamp == n
  }

  lemma StepPromised(s: State, e: Step, n: nat)
    requires Inv(s) && Enabled(s, e) && n < s.stores && !Rewrites(s, e, n)
    ensures n < After(s, e).stores && n in s.promised && n in After(s, e).promised
    ensures After(s, e).promised[n] == s.promised[n]
  {
    hide Distinct, KeepsPromises, Accounted, DueWhenTaken, ClaimsFated, Drawn, Locked;
    hide Ended, Stamps, Upserted, Rotated, Touched, Purged, WithoutExpired, WithoutApplication, Lists;
  }

  lemma {:induction false} PromiseHolds(states: seq<State>, steps: seq<Step>, i: nat, j: nat, n: nat)
    requires IsRun(states, steps) && i <= j < |states| && n < states[i].stores
    requires forall m :: i <= m < j ==> !Rewrites(states[m], steps[m], n)
    ensures n < states[j].stores && n in states[i].promised && n in states[j].promised
    ensures states[j].promised[n] == states[i].promised[n]
    decreases j
  {
    hide Inv, After, Enabled, Rewrites;
    if i < j {
      PromiseHolds(states, steps, i, j - 1, n);
      RunKeeps(states, steps, j - 1);
      StepPromised(states[j - 1], steps[j - 1], n);
    } else {
      RunKeeps(states, steps, i);
      StoredPromised(states[i], n);
    }
  }

  lemma StoredPromised(s: State, n: nat)
    requires Inv(s) && n < s.stores
    ensures n in s.promised
  {
    hide Distinct, KeepsPromises, Accounted, DueWhenTaken, ClaimsFated, Drawn, Locked;
  }

  lemma RowPromised(s: State, k: Key)
    requires Inv(s) && k in s.rows
    ensures var n := s.rows[k].stamp; n < s.stores && n in s.promised && s.promised[n] == s.rows[k].expiresAt
  {
    hide Distinct, Accounted, DueWhenTaken, ClaimsFated, Drawn, Locked;
  }

  /** A row seen with some expiry, just stored or just touched, is not claimed before that
      time unless a later touch gives it another. */
  lemma TouchDelaysClaim(states: seq<State>, steps: seq<Step>, i: nat, j: nat, k: Key, c: nat, x: nat)
    requires IsRun(states, steps) && i <= j < |states| && k in states[i].rows
    requires c < |states[j].claims| && x < |states[j].claims[c].batch|
    requires states[j].claims[c].batch[x].row.stamp == states[i].rows[k].stamp
    requires forall m :: i <= m < j ==> !Rewrites(states[m], steps[m], states[i].rows[k].stamp)
    ensures 0 < states[i].rows[k].expiresAt <= states[j].claims[c].now
  {
    assert states[j] in states;
    RunKeeps(states, steps, i);
    hide IsRun, Rewrites, Inv;
    RowPromised(states[i], k);
    PromiseHolds(states, steps, i, j, states[i].rows[k].stamp);
    ClaimedOnceWhenDue(states, steps, states[j], c, x, c, x);
  }

  /** What a purge or a sweep takes was due at its own time, whatever happened to the row
      since the reader looked: a row live at the reader's `now` stays. */
  lemma PurgeSparesLive(s: State, p: Pid, k: Key)
    requires Enabled(s, Purge(p)) && k in s.rows && !Expired(s.rows[k], s.tasks[p].now)
    ensures var s' := After(s, Purge(p)); k in s'.rows && s'.rows[k] == s.rows[k]
  {
  }

  lemma SweptWhenDue(states: seq<State>, steps: seq<Step>, s: State, n: nat)
    requires IsRun(states, steps) && s in states && n in s.fates && s.fates[n].Swept?
    ensures n in s.promised && 0 < s.promised[n] <= s.fates[n].now
  {
    var k :| 0 <= k < |states| && states[k] == s;
    RunKeeps(states, steps, k);
    hide IsRun, Accounted, Locked, Drawn, ClaimsFated;
  }

  /** The CFIDs handed out so far are 1, 2, 3 and so on: none twice, and none left out. */
  lemma CfidsIncrease(states: seq<State>, steps: seq<Step>, s: State)
    requires IsRun(states, steps) && s in states
    ensures forall i :: 0 <= i < |s.drawn| ==> s.drawn[i] == i + 1
  {
    var k :| 0 <= k < |states| && states[k] == s;
    RunKeeps(states, steps, k);
    hide IsRun, Kept, Locked;
  }

  /** Nothing stored is lost or doubled: every row is in the table or has met its fate. */
  lemma RowsConserved(states: seq<State>, steps: seq<Step>, s: State)
    requires IsRun(states, steps) && s in states
    ensures |s.rows| + |s.fates| == s.stores
  {
    var k :| 0 <= k < |states| && states[k] == s;
    RunKeeps(states, steps, k);
    hide IsRun, Locked, Drawn, ClaimsFated, DueWhenTaken, KeepsPromises;
    StampsCount(s.rows);
    hide Distinct, Stamps;
    AccountedCount(Stamps(s.rows), s.stores, s.fates.Keys);
  }

  lemma {:induction false} AccountedCount(stamps: set<nat>, stores: nat, fated: set<nat>)
    requires stamps !! fated && forall n: nat :: n < stores <==> n in fated || n in stamps
    ensures |stamps| + |fated| == stores
    decreases stores
  {
    if stores > 0 {
      AccountedCount(stamps - {stores - 1}, stores - 1, fated - {stores - 1});
    }
  }

  lemma {:induction false} StampsCount(rows: Rows)
    requires Distinct(rows)
    ensures |Stamps(rows)| == |rows|
    decreases |rows|
  {
    if rows != map[] {
      var k :| k in rows;
      var rest := rows - {k};
      assert rest[k := rows[k]] == rows;
      SubtableGone(rows, rest);
      StampsCount(rest);
      StampsInsert(rest, k, rows[k]);
      assert rows[k].stamp !in Stamps(rest);
    }
  }

  // ------------------------------------------------------------------ no spin

  /** No row is due at `now`. */
  ghost predicate NoneDue(rows: Rows, now: int)
  {
    forall k :: k in rows ==> !Expired(rows[k], now)
  }

  ghost predicate WritesDue(e: Step, now: int)
  {
    (e.Store? || e.Touch?) && 0 < e.expiresAt <= now
  }

  /** A committed claim leaves nothing due, and what it copied is what it took. */
  lemma CommitTakesAll(s: State, p: Pid)
    requires Inv(s) && Enabled(s, Commit(p))
    ensures var s' := After(s, Commit(p));
            && NoneDue(s'.rows, s.tasks[p].now) && s'.claims == s.claims + [Claim(p, s.tasks[p].now, s.tasks[p].batch)]
            && (forall i :: 0 <= i < |s.tasks[p].batch| ==>
                  var r := s.tasks[p].batch[i]; r.key in s.rows && s.rows[r.key] == r.row && r.key !in s'.rows)
            && forall k :: k in s.rows && k !in s'.rows ==>
                 exists i :: 0 <= i < |s.tasks[p].batch| && s.tasks[p].batch[i] == Record(k, s.rows[k])
  {
    CommitReady(s, p);
  }

  lemma StepQuiet(s: State, e: Step, now: int)
    requires Locked(s) && Enabled(s, e) && NoneDue(s.rows, now) && !WritesDue(e, now)
    ensures NoneDue(After(s, e).rows, now)
  {
    hide Lists, Ended, Stamps;
  }

  /** After a claim at `now` nothing is due at `now` again until somebody stores or touches
      a row with an expiry that is already past: the reaper's immediate retry cannot spin. */
  lemma {:induction false} NoSpin(states: seq<State>, steps: seq<Step>, i: nat, j: nat, now: int)
    requires IsRun(states, steps) && i < j < |states|
    requires steps[i].Commit? && states[i].tasks[steps[i].p].now == now
    requires forall m :: i < m < j ==> !WritesDue(steps[m], now)
    ensures NoneDue(states[j].rows, now)
    decreases j
  {
    RunKeeps(states, steps, j - 1);
    hide NoneDue, WritesDue, After, Kept, Locked, Drawn;
    if j == i + 1 {
      CommitTakesAll(states[i], steps[i].p);
    } else {
      NoSpin(states, steps, i, j - 1, now);
      StepQuiet(states[j - 1], steps[j - 1], now);
    }
  }

  /** Such runs exist: a row is stored, falls due and is claimed. */
  lemma RunThatClaims() returns (states: seq<State>, steps: seq<Step>)
    ensures IsRun(states, steps) && |states[|states| - 1].claims| == 1 && |states[|states| - 1].claims[0].batch| == 1
  {
    hide Ended, Stamps, WithoutExpired;
    var k := Key(Session, "shop", "1");
    var row := Row("{}", 5, 1, 1, "", 0);
    var batch := [Record(k, row)];
    steps := [Store(k, "{}", 5, 1, 1, ""), Begin(7, 9), Select(7, batch), Delete(7), Commit(7)];
    var s1 := After(Start(), steps[0]);
    assert s1.rows == map[k := row];
    assert Lists(batch, s1.rows, 9) by { assert batch[0].key == k; }
    var s2 := After(s1, steps[1]);
    var s3 := After(s2, steps[2]);
    var s4 := After(s3, steps[3]);
    states := [Start(), s1, s2, s3, s4, After(s4, steps[4])];
  }
}

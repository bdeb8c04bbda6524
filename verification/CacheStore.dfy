/** The shared object cache: the operations of one process, and any interleaving of the
    statements of many. */
module CacheStore {

  type Id = (string, string)

  /** An entry.  `stamp` is not a column: it tells which put wrote the entry. */
  datatype Entry = Entry(value: string, timeToLive: int, timeToIdle: int, created: int, lastAccess: int,
                         lastUpdate: int, hits: nat, stamp: nat)

  type Rows = map<Id, Entry>

  predicate Expired(e: Entry, now: int)
  {
    || (e.timeToLive > 0 && e.created + e.timeToLive <= now)
    || (e.timeToIdle > 0 && e.lastAccess + e.timeToIdle <= now)
  }

  function Written(value: string, timeToLive: int, timeToIdle: int, now: int, stamp: nat): Entry
  {
    Entry(value, timeToLive, timeToIdle, now, now, now, 0, stamp)
  }

  function Hit(rows: Rows, k: Id, now: int): Rows
  {
    if k in rows then rows[k := rows[k].(hits := rows[k].hits + 1, lastAccess := now)] else rows
  }

  function Purged(rows: Rows, k: Id, now: int): Rows
  {
    if k in rows && Expired(rows[k], now) then rows - {k} else rows
  }

  /** Seconds of a millisecond count, rounded toward zero. */
  function Seconds(ms: int): (s: int)
    ensures ms >= 0 ==> 1000 * s <= ms < 1000 * (s + 1)
    ensures ms < 0 ==> 1000 * (s - 1) < ms <= 1000 * s
  {
    if ms >= 0 then ms / 1000 else -(-ms / 1000)
  }

  datatype Meta = Missing | Found(timeToLive: int, timeToIdle: int, hits: nat, created: int, lastAccess: int,
                                  lastUpdate: int, size: nat)

  // ------------------------------------------------------------- one process

  class Store {
    var regions: map<string, string>
    var rows: Rows
    var puts: nat

    /** Every entry is in a region that exists. */
    ghost predicate Valid()
      reads this
    {
      forall k :: k in rows ==> k.0 in regions
    }

    constructor ()
      ensures Valid() && rows == map[] && regions == map["OBJECT" := "{}", "TEMPLATE" := "{}", "QUERY" := "{}"]
    {
      regions, rows, puts := map["OBJECT" := "{}", "TEMPLATE" := "{}", "QUERY" := "{}"], map[], 0;
    }

    method Put(region: string, id: string, value: string, timeToLive: int, timeToIdle: int, now: int)
      requires Valid()
      modifies this
      ensures Valid() && regions == if region in old(regions) then old(regions) else old(regions)[region := "{}"]
      ensures rows.Keys == old(rows).Keys + {(region, id)}
      ensures forall k :: k in old(rows) && k != (region, id) ==> rows[k] == old(rows)[k]
      ensures rows[(region, id)] == Entry(value, timeToLive, timeToIdle, now, now, now, 0, old(puts)) && puts == old(puts) + 1
    {
      if region !in regions {
        regions := regions[region := "{}"];
      }
      rows := rows[(region, id) := Written(value, timeToLive, timeToIdle, now, puts)];
      puts := puts + 1;
    }

    /** A hit is an entry that has not expired; a miss deletes an entry that has. */
    method Get(region: string, id: string, now: int, quiet: bool) returns (found: bool, value: string)
      requires Valid()
      modifies this`rows
      ensures Valid()
      ensures found <==>
                && (region, id) in old(rows)
                && (old(rows)[(region, id)].timeToLive > 0 ==> now < old(rows)[(region, id)].created + old(rows)[(region, id)].timeToLive)
                && (old(rows)[(region, id)].timeToIdle > 0 ==> now < old(rows)[(region, id)].lastAccess + old(rows)[(region, id)].timeToIdle)
      ensures found ==> value == old(rows)[(region, id)].value
      ensures found && quiet ==> rows == old(rows)
      ensures found && !quiet ==>
                var e := old(rows)[(region, id)];
                rows == old(rows)[(region, id) :=
                  Entry(e.value, e.timeToLive, e.timeToIdle, e.created, now, e.lastUpdate, e.hits + 1, e.stamp)]
      ensures !found ==> rows == old(rows) - {(region, id)}
    {
      var k := (region, id);
      found, value := false, "";
      if k in rows && !Expired(rows[k], now) {
        found, value := true, rows[k].value;
      }
      if found {
        if !quiet { rows := Hit(rows, k, now); }
      } else {
        rows := Purged(rows, k, now);
      }
    }

    /** The ids that a read would hit (or all of them), oldest first. */
    method GetAllIds(region: string, now: int, includeExpired: bool) returns (ids: seq<string>)
      ensures forall id :: id in ids <==>
                && (region, id) in rows
                && (includeExpired
                    || (&& (rows[(region, id)].timeToLive > 0 ==> now < rows[(region, id)].created + rows[(region, id)].timeToLive)
                        && (rows[(region, id)].timeToIdle > 0 ==> now < rows[(region, id)].lastAccess + rows[(region, id)].timeToIdle)))
      ensures forall i, j :: 0 <= i < j < |ids| ==> ids[i] != ids[j]
      ensures forall i, j :: 0 <= i < j < |ids| && (region, ids[i]) in rows && (region, ids[j]) in rows ==>
                rows[(region, ids[i])].created <= rows[(region, ids[j])].created
    {
      ids := [];
      var todo := set k | k in rows && k.0 == region && (includeExpired || !Expired(rows[k], now)) :: k.1;
      ghost var all := todo;
      while todo != {}
        invariant todo <= all && forall id :: id in all ==> (id in ids) != (id in todo)
        invariant forall id :: id in ids ==> id in all
        invariant forall i, j :: 0 <= i < j < |ids| ==> ids[i] != ids[j]
        invariant forall id :: id in all ==> (region, id) in rows
        invariant forall i, j :: 0 <= i < j < |ids| ==> rows[(region, ids[i])].created <= rows[(region, ids[j])].created
        invariant forall i, id :: 0 <= i < |ids| && id in todo ==> rows[(region, ids[i])].created <= rows[(region, id)].created
      {
        var id := Oldest(region, todo);
        ids, todo := ids + [id], todo - {id};
      }
    }

    method Oldest(region: string, ids: set<string>) returns (oldest: string)
      requires ids != {} && forall id :: id in ids ==> (region, id) in rows
      ensures oldest in ids
      ensures forall id :: id in ids ==> rows[(region, oldest)].created <= rows[(region, id)].created
    {
      oldest :| oldest in ids;
      var todo := ids - {oldest};
      while todo != {}
        invariant todo <= ids && oldest in ids
        invariant forall id :: id in ids && id !in todo ==> rows[(region, oldest)].created <= rows[(region, id)].created
      {
        var id :| id in todo;
        todo := todo - {id};
        if rows[(region, id)].created < rows[(region, oldest)].created { oldest := id; }
      }
    }

    method Metadata(region: string, id: string, now: int) returns (meta: Meta)
      ensures meta.Found? <==>
                && (region, id) in rows
                && (rows[(region, id)].timeToLive > 0 ==> now < rows[(region, id)].created + rows[(region, id)].timeToLive)
                && (rows[(region, id)].timeToIdle > 0 ==> now < rows[(region, id)].lastAccess + rows[(region, id)].timeToIdle)
      ensures meta.Found? ==>
                var e := rows[(region, id)];
                meta == Found(Seconds(e.timeToLive), Seconds(e.timeToIdle), e.hits, e.created, e.lastAccess, e.lastUpdate, |e.value|)
    {
      meta := Missing;
      if (region, id) in rows && !Expired(rows[(region, id)], now) {
        var e := rows[(region, id)];
        meta := Found(Seconds(e.timeToLive), Seconds(e.timeToIdle), e.hits, e.created, e.lastAccess, e.lastUpdate, |e.value|);
      }
    }

    method RemoveRegion(region: string) returns (removed: bool)
      requires Valid()
      modifies this
      ensures Valid() && (removed <==> region in old(regions))
      ensures regions == old(regions) - {region}
      ensures forall k :: k in rows <==> k in old(rows) && k.0 != region
      ensures forall k :: k in rows ==> rows[k] == old(rows)[k]
    {
      if region !in regions { return false; }
      regions := regions - {region};
      rows := map k | k in rows && k.0 != region :: rows[k];
      removed := true;
    }
  }

  // ------------------------------------------------------------ many processes

  type Pid = nat

  /** Between the SELECT of a read and the statement that follows it. */
  datatype Task = Counting(key: Id, now: int) | Purging(key: Id, now: int)

  datatype Put = Put(key: Id, value: string, timeToLive: int, timeToIdle: int, now: int)

  /** A read that was served: the entry it saw, whose put that was, and how many puts there were
      by then. */
  datatype Served = Served(key: Id, value: string, now: int, put: nat, lastAccess: int, puts: nat)

  /** `puts`, `served` and `purged` are history. */
  datatype State = State(rows: Rows, tasks: map<Pid, Task>, puts: seq<Put>, served: seq<Served>, purged: seq<(Entry, int)>)

  datatype Step =
    | Write(put: Put)
    | Look(p: Pid, key: Id, now: int, quiet: bool)
    | Count(p: Pid)
    | Purge(p: Pid)
    | Remove(key: Id)
    | RemoveAll(region: string)
    | Crash(p: Pid)

  predicate Enabled(s: State, e: Step)
  {
    match e
    case Write(_) => true
    case Look(p, _, _, _) => p !in s.tasks
    case Count(p) => p in s.tasks && s.tasks[p].Counting?
    case Purge(p) => p in s.tasks && s.tasks[p].Purging?
    case Remove(_) => true
    case RemoveAll(_) => true
    case Crash(p) => p in s.tasks
  }

  function After(s: State, e: Step): State
    requires Enabled(s, e)
  {
    match e
    case Write(put) =>
      s.(rows := s.rows[put.key := Written(put.value, put.timeToLive, put.timeToIdle, put.now, |s.puts|)], puts := s.puts + [put])
    case Look(p, k, now, quiet) =>
      if k in s.rows && !Expired(s.rows[k], now) then
        s.(served := s.served + [Served(k, s.rows[k].value, now, s.rows[k].stamp, s.rows[k].lastAccess, |s.puts|)],
           tasks := if quiet then s.tasks else s.tasks[p := Counting(k, now)])
      else s.(tasks := s.tasks[p := Purging(k, now)])
    case Count(p) => s.(rows := Hit(s.rows, s.tasks[p].key, s.tasks[p].now), tasks := s.tasks - {p})
    case Purge(p) =>
      var t := s.tasks[p];
      s.(rows := Purged(s.rows, t.key, t.now), tasks := s.tasks - {p},
         purged := if t.key in s.rows && Expired(s.rows[t.key], t.now) then s.purged + [(s.rows[t.key], t.now)] else s.purged)
    case Remove(k) => s.(rows := s.rows - {k})
    case RemoveAll(region) => s.(rows := map k | k in s.rows && k.0 != region :: s.rows[k])
    case Crash(p) => s.(tasks := s.tasks - {p})
  }

  /** The time was given by a served read of `k`. */
  ghost predicate ReadAt(served: seq<Served>, k: Id, time: int)
  {
    exists i :: 0 <= i < |served| && served[i].key == k && served[i].now == time
  }

  /** Of the first `n` puts `i` is the last under the key `k`. */
  ghost predicate Newest(puts: seq<Put>, i: nat, k: Id, n: nat)
  {
    i < n <= |puts| && puts[i].key == k && forall j :: i < j < n ==> puts[j].key != k
  }

  /** An entry is the newest put's, and was last used when it was put or at some served read. */
  ghost predicate Intact(k: Id, e: Entry, puts: seq<Put>, served: seq<Served>)
  {
    && Newest(puts, e.stamp, k, |puts|)
    && puts[e.stamp] == Put(k, e.value, e.timeToLive, e.timeToIdle, e.created)
    && (e.lastAccess == e.created || ReadAt(served, k, e.lastAccess))
  }

  /** The read was served with what its put wrote, within both of the put's limits. */
  ghost predicate ServedFresh(h: Served, puts: seq<Put>, served: seq<Served>)
  {
    && Newest(puts, h.put, h.key, h.puts) && puts[h.put].value == h.value
    && (puts[h.put].timeToLive > 0 ==> h.now < puts[h.put].now + puts[h.put].timeToLive)
    && (puts[h.put].timeToIdle > 0 ==> h.now < h.lastAccess + puts[h.put].timeToIdle)
    && (h.lastAccess == puts[h.put].now || ReadAt(served, h.key, h.lastAccess))
  }

  ghost predicate Inv(s: State)
  {
    && (forall k :: k in s.rows ==> Intact(k, s.rows[k], s.puts, s.served))
    && (forall p :: p in s.tasks && s.tasks[p].Counting? ==> ReadAt(s.served, s.tasks[p].key, s.tasks[p].now))
    && (forall i :: 0 <= i < |s.served| ==> ServedFresh(s.served[i], s.puts, s.served))
    && (forall i :: 0 <= i < |s.purged| ==> Expired(s.purged[i].0, s.purged[i].1))
  }

  lemma ReadStays(served: seq<Served>, h: Served, k: Id, time: int)
    requires ReadAt(served, k, time)
    ensures ReadAt(served + [h], k, time)
  {
    var i :| 0 <= i < |served| && served[i].key == k && served[i].now == time;
    assert (served + [h])[i].key == k;
  }

  lemma ReadNow(served: seq<Served>, h: Served)
    ensures ReadAt(served + [h], h.key, h.now)
  {
    assert (served + [h])[|served|] == h;
  }

  lemma LookKeeps(s: State, p: Pid, k: Id, now: int, quiet: bool)
    requires Inv(s) && Enabled(s, Look(p, k, now, quiet))
    ensures Inv(After(s, Look(p, k, now, quiet)))
  {
    if k in s.rows && !Expired(s.rows[k], now) {
      var h := Served(k, s.rows[k].value, now, s.rows[k].stamp, s.rows[k].lastAccess, |s.puts|);
      ReadNow(s.served, h);
      forall x, time | ReadAt(s.served, x, time) ensures ReadAt(s.served + [h], x, time) { ReadStays(s.served, h, x, time); }
      hide ReadAt;
    }
  }

  lemma StepKeeps(s: State, e: Step)
    requires Inv(s) && Enabled(s, e)
    ensures Inv(After(s, e))
  {
    if e.Look? {
      LookKeeps(s, e.p, e.key, e.now, e.quiet);
    } else {
      hide ReadAt, Expired;
      if e.Purge? { hide Intact, ServedFresh; }
    }
  }

  ghost predicate IsRun(states: seq<State>, steps: seq<Step>)
  {
    && |states| == |steps| + 1 && states[0] == State(map[], map[], [], [], [])
    && forall i :: 0 <= i < |steps| ==> Enabled(states[i], steps[i]) && states[i + 1] == After(states[i], steps[i])
  }

  lemma {:induction false} RunKeeps(states: seq<State>, steps: seq<Step>, i: nat)
    requires IsRun(states, steps) && i < |states|
    ensures Inv(states[i])
  {
    if i > 0 {
      RunKeeps(states, steps, i - 1);
      hide Inv, After, Enabled;
      StepKeeps(states[i - 1], steps[i - 1]);
    }
  }

  /** Over any run no read is served at or after its put's time to live, or after its entry
      lay idle for too long since that put or an earlier read, and none with anything but
      what that put wrote, which is the newest under its key at the time of the read. */
  lemma NeverStale(states: seq<State>, steps: seq<Step>, s: State, i: nat)
    requires IsRun(states, steps) && s in states && i < |s.served|
    ensures var h := s.served[i];
            && h.put < h.puts <= |s.puts| && (forall j :: h.put < j < h.puts ==> s.puts[j].key != h.key)
            && var put := s.puts[h.put];
            && put.key == h.key && put.value == h.value
            && (put.timeToLive > 0 ==> h.now < put.now + put.timeToLive)
            && (put.timeToIdle > 0 ==> h.now < h.lastAccess + put.timeToIdle)
            && (h.lastAccess == put.now || ReadAt(s.served, h.key, h.lastAccess))
  {
    var k :| 0 <= k < |states| && states[k] == s;
    RunKeeps(states, steps, k);
    hide IsRun, Intact, ReadAt;
  }

  /** A counted read renews the idle time: an entry without a time to live that no other step
      touches is served at the next read inside its idle limit, and in general is served then
      if its time to live allows. */
  lemma ReadRenews(s: State, p: Pid, q: Pid, now: int, quiet: bool)
    requires Enabled(s, Count(p)) && s.tasks[p].key in s.rows && q !in s.tasks - {p}
    ensures var k := s.tasks[p].key;
            var e, at, s' := s.rows[k], s.tasks[p].now, After(s, Count(p));
            && k in s'.rows
            && s'.rows[k] == Entry(e.value, e.timeToLive, e.timeToIdle, e.created, at, e.lastUpdate, e.hits + 1, e.stamp)
            && (forall x :: x != k ==> (x in s'.rows <==> x in s.rows) && (x in s.rows ==> s'.rows[x] == s.rows[x]))
            && Enabled(s', Look(q, k, now, quiet))
            && ((e.timeToLive > 0 ==> now < e.created + e.timeToLive) && (e.timeToIdle > 0 ==> now < at + e.timeToIdle) ==>
                  After(s', Look(q, k, now, quiet)).served == s'.served + [Served(k, e.value, now, e.stamp, at, |s.puts|)])
  {
  }

  /** A look serves exactly what is within both limits then, and counts it unless it is quiet. */
  lemma LookServes(s: State, p: Pid, k: Id, now: int, quiet: bool)
    requires Enabled(s, Look(p, k, now, quiet))
    ensures var s' := After(s, Look(p, k, now, quiet));
            && s'.rows == s.rows && s'.puts == s.puts
            && if k in s.rows && (s.rows[k].timeToLive > 0 ==> now < s.rows[k].created + s.rows[k].timeToLive)
                 && (s.rows[k].timeToIdle > 0 ==> now < s.rows[k].lastAccess + s.rows[k].timeToIdle)
               then s'.served == s.served + [Served(k, s.rows[k].value, now, s.rows[k].stamp, s.rows[k].lastAccess, |s.puts|)]
                    && s'.tasks == if quiet then s.tasks else s.tasks[p := Counting(k, now)]
               else s'.served == s.served && s'.tasks == s.tasks[p := Purging(k, now)]
  {
  }

  /** What the statements do that write, purge and remove; nobody's statement has to wait. */
  lemma StatementsDo(s: State, put: Put, p: Pid, k: Id, region: string)
    ensures Enabled(s, Write(put)) && Enabled(s, Remove(k)) && Enabled(s, RemoveAll(region))
    ensures p !in s.tasks ==> forall now, quiet :: Enabled(s, Look(p, k, now, quiet))
    ensures p in s.tasks ==> Enabled(s, Crash(p)) && Enabled(s, if s.tasks[p].Counting? then Count(p) else Purge(p))
    ensures var s' := After(s, Write(put));
            && s'.rows == s.rows[put.key := Entry(put.value, put.timeToLive, put.timeToIdle, put.now, put.now, put.now, 0, |s.puts|)]
            && s'.puts == s.puts + [put] && s'.tasks == s.tasks && s'.served == s.served
    ensures p in s.tasks && s.tasks[p].Purging? ==>
              var s', x, now := After(s, Purge(p)), s.tasks[p].key, s.tasks[p].now;
              && s'.tasks == s.tasks - {p} && s'.served == s.served && s'.puts == s.puts
              && if x in s.rows && ((s.rows[x].timeToLive > 0 && s.rows[x].created + s.rows[x].timeToLive <= now)
                                    || (s.rows[x].timeToIdle > 0 && s.rows[x].lastAccess + s.rows[x].timeToIdle <= now))
                 then s'.rows == s.rows - {x} && s'.purged == s.purged + [(s.rows[x], now)]
                 else s'.rows == s.rows && s'.purged == s.purged
    ensures After(s, Remove(k)) == s.(rows := s.rows - {k})
    ensures forall x :: x in After(s, RemoveAll(region)).rows <==> x in s.rows && x.0 != region
    ensures forall x :: x in After(s, RemoveAll(region)).rows ==> After(s, RemoveAll(region)).rows[x] == s.rows[x]
    ensures p in s.tasks ==> After(s, Crash(p)) == s.(tasks := s.tasks - {p})
  {
  }

  /** No purge ever takes an entry that is live at the purging reader's time, whoever wrote
      or read it since that reader looked. */
  lemma PurgedWhenDue(states: seq<State>, steps: seq<Step>, s: State, i: nat)
    requires IsRun(states, steps) && s in states && i < |s.purged|
    ensures var (e, now) := s.purged[i];
            || (e.timeToLive > 0 && e.created + e.timeToLive <= now)
            || (e.timeToIdle > 0 && e.lastAccess + e.timeToIdle <= now)
  {
    var k :| 0 <= k < |states| && states[k] == s;
    RunKeeps(states, steps, k);
    hide IsRun, Intact, ServedFresh;
  }

  // ------------------------------------------------------------------- regions

  function IsStandardRegion(region: string): bool
  {
    if |region| != 6 && |region| != 5 then false
    else region == "OBJECT" || region == "QUERY" || region == "TEMPLATE"
  }

  /** The length test shuts out the one of the three standard names that is longer than it allows. */
  lemma TemplateIsNotStandard(region: string)
    ensures IsStandardRegion(region) ==> region in {"OBJECT", "QUERY", "TEMPLATE"}
    ensures region in {"OBJECT", "QUERY", "TEMPLATE"} ==> (IsStandardRegion(region) <==> |region| == 5 || |region| == 6)
    ensures !IsStandardRegion("TEMPLATE")
  {
    assert |"TEMPLATE"| == 8 && |"OBJECT"| == 6 && |"QUERY"| == 5;
  }
}

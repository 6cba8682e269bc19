/** When a bulk lookup answers, as a whole, what the table said at one instant: exactly if the
    cache that its first section reads knows all of the phone numbers or none of them.  In any
    other case a put in the gap between its two sections makes it report one LID for two phone
    numbers. */
module LidBulkRace {
  import opened Sql
  import opened LidTable
  import opened LidCache
  import opened LidPuts
  import opened LidBatch
  import opened LidSteps
  import opened LidLinear

  /** A system of two threads: 0 looks up in bulk, 1 puts. */
  datatype Scene = Scene(data: Data, writer: Option<Tid>, readers: set<Tid>, reader: PC, putter: PC)

  function SysOf(sc: Scene): Sys {
    Sys(sc.data, sc.writer, sc.readers, map[0 := sc.reader, 1 := sc.putter])
  }

  function WriterAfter(w: Option<Tid>, t: Tid, p: PC, p': PC): Option<Tid> {
    if HoldsWrite(p') then Some(t) else if HoldsWrite(p) then None else w
  }

  function ReadersAfter(rs: set<Tid>, t: Tid, p': PC): set<Tid> {
    if HoldsRead(p') then rs + {t} else rs - {t}
  }

  /** The locks let a thread go from p to p'. */
  predicate MayMove(sc: Scene, p: PC, p': PC) {
    && (HoldsRead(p') && !HoldsRead(p) ==> sc.writer.None?)
    && (HoldsWrite(p') && !HoldsWrite(p) ==> sc.writer.None? && sc.readers == {})
  }

  function ReaderMoved(sc: Scene, d: Data, p: PC): Scene {
    Scene(d, WriterAfter(sc.writer, 0, sc.reader, p), ReadersAfter(sc.readers, 0, p), p, sc.putter)
  }

  function PutterMoved(sc: Scene, d: Data, p: PC): Scene {
    Scene(d, WriterAfter(sc.writer, 1, sc.putter, p), ReadersAfter(sc.readers, 1, p), sc.reader, p)
  }

  lemma ReaderMoves(sc: Scene, d: Data, p: PC)
    requires Local(sc.data, sc.reader, d, p) && MayMove(sc, sc.reader, p)
    ensures Next(SysOf(sc), SysOf(ReaderMoved(sc, d, p)), 0)
  {
  }

  lemma PutterMoves(sc: Scene, d: Data, p: PC)
    requires Local(sc.data, sc.putter, d, p) && MayMove(sc, sc.putter, p)
    ensures Next(SysOf(sc), SysOf(PutterMoved(sc, d, p)), 1)
  {
  }

  /** One bulk lookup of thread t: at instant i its first section sees the cache state m, at
      instant j it returns `got`, and in between it does not leave the call. */
  ghost predicate BulkCallAt(trace: seq<Sys>, t: Tid, i: nat, j: nat, m: Store, users: set<string>) {
    && i <= j < |trace|
    && (forall x :: i <= x <= j ==> t in trace[x].pc && InCall(trace[x].pc[t], PartOf(users, "")))
    && trace[i].pc[t] == BulkReading(users) && trace[i].data.mem == m
  }

  /** A behaviour, two steps into which thread 0 reads the cache state m, up to a scene. */
  ghost predicate Race(trace: seq<Sys>, schedule: seq<Tid>, m: Store, users: set<string>, sc: Scene) {
    && Behaviour(trace, schedule)
    && BulkCallAt(trace, 0, 2, |schedule|, m, users)
    && trace[|schedule|] == SysOf(sc)
  }

  lemma Extend(trace: seq<Sys>, schedule: seq<Tid>, m: Store, users: set<string>, sc: Scene, sc': Scene, t: Tid)
    requires Race(trace, schedule, m, users, sc) && Next(SysOf(sc), SysOf(sc'), t)
    requires InCall(sc'.reader, PartOf(users, ""))
    ensures Race(trace + [SysOf(sc')], schedule + [t], m, users, sc')
  {
    var trace', schedule' := trace + [SysOf(sc')], schedule + [t];
    forall i | 0 <= i < |schedule'|
      ensures Next(trace'[i], trace'[i + 1], schedule'[i])
    {
      if i < |schedule| {
        assert Next(trace[i], trace[i + 1], schedule[i]);
      }
    }
  }

  /** Some behaviour leads from a first section that reads m to this scene. */
  ghost predicate Reached(m: Store, users: set<string>, sc: Scene) {
    exists trace: seq<Sys>, schedule: seq<Tid> :: Race(trace, schedule, m, users, sc)
  }

  lemma StepReaches(m: Store, users: set<string>, sc: Scene, sc': Scene, t: Tid)
    requires Reached(m, users, sc) && Next(SysOf(sc), SysOf(sc'), t) && InCall(sc'.reader, PartOf(users, ""))
    ensures Reached(m, users, sc')
  {
    var trace, schedule :| Race(trace, schedule, m, users, sc);
    Extend(trace, schedule, m, users, sc, sc', t);
  }

  // ---------------------------------------------------------------- the sections of the race

  function Quiet(m: Store): Data {
    Data(m, m.table, true, {})
  }

  lemma StartMoves(d: Data, users: set<string>)
    ensures Next(SysOf(Scene(d, None, {}, Idle, Idle)), SysOf(Scene(d, None, {}, BulkCalled(users), Idle)), 0)
    ensures Next(SysOf(Scene(d, None, {}, BulkCalled(users), Idle)),
                 SysOf(Scene(d, None, {0}, BulkReading(users), Idle)), 0)
  {
    ReaderMoves(Scene(d, None, {}, Idle, Idle), d, BulkCalled(users));
    ReaderMoves(Scene(d, None, {}, BulkCalled(users), Idle), d, BulkReading(users));
  }

  lemma Starts(m: Store, users: set<string>)
    requires Coherent(m)
    ensures Reached(m, users, Scene(Quiet(m), None, {0}, BulkReading(users), Idle))
  {
    var s0, s1 := Scene(Quiet(m), None, {}, Idle, Idle), Scene(Quiet(m), None, {}, BulkCalled(users), Idle);
    var s2 := Scene(Quiet(m), None, {0}, BulkReading(users), Idle);
    RightIsExceptNone(m);
    StartMoves(Quiet(m), users);
    assert Race([SysOf(s0), SysOf(s1), SysOf(s2)], [0, 0], m, users, s2);
  }

  lemma SplitMoves(m: Store, users: set<string>)
    ensures Next(SysOf(Scene(Quiet(m), None, {0}, BulkReading(users), Idle)),
                 SysOf(Scene(Quiet(m), None, {0},
                             BulkSplit(users, CachedLids(m, users), Undecided(m, users)), Idle)), 0)
  {
    var sc := Scene(Quiet(m), None, {0}, BulkReading(users), Idle);
    var p := BulkSplit(users, CachedLids(m, users), Undecided(m, users));
    ReaderMoves(sc, Quiet(m), p);
    assert ReaderMoved(sc, Quiet(m), p) == Scene(Quiet(m), None, {0}, p, Idle);
  }

  lemma GapMoves(d: Data, users: set<string>, got: map<string, string>, missing: set<string>)
    requires missing != {}
    ensures Next(SysOf(Scene(d, None, {0}, BulkSplit(users, got, missing), Idle)),
                 SysOf(Scene(d, None, {}, BulkGap(users, got, missing), Idle)), 0)
  {
    var sc, p := Scene(d, None, {0}, BulkSplit(users, got, missing), Idle), BulkGap(users, got, missing);
    ReaderMoves(sc, d, p);
    assert ReaderMoved(sc, d, p) == Scene(d, None, {}, p, Idle);
  }

  /** The first section: what is cached, what is missing, and into the gap. */
  lemma ReadsCache(m: Store, users: set<string>)
    requires Coherent(m) && Undecided(m, users) != {}
    ensures Reached(m, users, Scene(Quiet(m), None, {},
                                    BulkGap(users, CachedLids(m, users), Undecided(m, users)), Idle))
  {
    var d, got, missing := Quiet(m), CachedLids(m, users), Undecided(m, users);
    var s0 := Scene(d, None, {0}, BulkReading(users), Idle);
    var s1 := Scene(d, None, {0}, BulkSplit(users, got, missing), Idle);
    Starts(m, users);
    SplitMoves(m, users);
    StepReaches(m, users, s0, s1, 0);
    GapMoves(d, users, got, missing);
    StepReaches(m, users, s1, Scene(d, None, {}, BulkGap(users, got, missing), Idle), 0);
  }

  /** The transaction of the one put of `ms`, before and after that put. */
  function Opened(m: Store, ms: seq<Mapping>): Txn {
    Txn(m, ms, [], ms, {})
  }

  function Finishing(m: Store, ms: seq<Mapping>, lid: string, pn: string): Txn {
    Txn(m, ms, ms, [], Touches(m.table, lid, pn))
  }

  /** It goes on statement by statement. */
  lemma PutTxnSteps(m: Store, ms: seq<Mapping>, lid: string, pn: string)
    requires |ms| == 1 && ms[0].lid.user == lid && ms[0].pn.user == pn
    ensures var t, txn, txn' := m.table, Opened(m, ms), Finishing(m, ms, lid, pn);
            var d1 := Quiet(m).(mem := m.(table := DeleteOthers(t, lid, pn)));
            var d2, d3 := Quiet(m).(mem := m.(table := Put(t, lid, pn))), Quiet(m).(mem := UnlockedPut(m, lid, pn));
            && TxnStep(Quiet(m), txn, Ready, d1, InTxn(txn, Deleted(t)))
            && TxnStep(d1, txn, Deleted(t), d2, InTxn(txn, Upserted(t)))
            && TxnStep(d2, txn, Upserted(t), d3, InTxn(txn', Ready))
            && TxnStep(d3, txn', Ready, Quiet(UnlockedPut(m, lid, pn)), Unlocking(PutDone(ms)))
  {
    StatementsPut(m.table, lid, pn);
    assert ms[1..] == [] && [] + [ms[0]] == ms;
    assert PutFinished(Opened(m, ms), m.table) == Finishing(m, ms, lid, pn);
    var d2 := Quiet(m).(mem := m.(table := Put(m.table, lid, pn)));
    assert PutCaches(d2.mem, lid, pn) == UnlockedPut(m, lid, pn);
  }

  lemma CallMoves(gap: PC, d: Data, ms: seq<Mapping>)
    requires NonEmptyPairs(Pairs(ms))
    ensures Next(SysOf(Scene(d, None, {}, gap, Idle)), SysOf(Scene(d, None, {}, gap, PutCalled(ms))), 1)
  {
    var sc := Scene(d, None, {}, gap, Idle);
    PutterMoves(sc, d, PutCalled(ms));
    assert PutterMoved(sc, d, PutCalled(ms)) == Scene(d, None, {}, gap, PutCalled(ms));
  }

  lemma LockMoves(gap: PC, d: Data, ms: seq<Mapping>)
    ensures Next(SysOf(Scene(d, None, {}, gap, PutCalled(ms))), SysOf(Scene(d, Some(1), {}, gap, PutLocked(ms))), 1)
  {
    var sc := Scene(d, None, {}, gap, PutCalled(ms));
    PutterMoves(sc, d, PutLocked(ms));
    assert PutterMoved(sc, d, PutLocked(ms)) == Scene(d, Some(1), {}, gap, PutLocked(ms));
  }

  lemma BeginMoves(gap: PC, d: Data, ms: seq<Mapping>)
    requires Work(d.mem, ms) == ms && ms != []
    ensures Next(SysOf(Scene(d, Some(1), {}, gap, PutLocked(ms))),
                 SysOf(Scene(d, Some(1), {}, gap, InTxn(Opened(d.mem, ms), Ready))), 1)
  {
    var sc := Scene(d, Some(1), {}, gap, PutLocked(ms));
    var p := InTxn(Opened(d.mem, ms), Ready);
    PutterMoves(sc, d, p);
    assert PutterMoved(sc, d, p) == Scene(d, Some(1), {}, gap, p);
  }

  /** The put is called and its transaction begins. */
  lemma PutBegins(m: Store, users: set<string>, gap: PC, d: Data, ms: seq<Mapping>)
    requires Reached(m, users, Scene(d, None, {}, gap, Idle)) && InCall(gap, PartOf(users, ""))
    requires NonEmptyPairs(Pairs(ms)) && Work(d.mem, ms) == ms && ms != []
    ensures Reached(m, users, Scene(d, Some(1), {}, gap, InTxn(Opened(d.mem, ms), Ready)))
  {
    var s0, s1 := Scene(d, None, {}, gap, Idle), Scene(d, None, {}, gap, PutCalled(ms));
    var s2 := Scene(d, Some(1), {}, gap, PutLocked(ms));
    CallMoves(gap, d, ms);
    StepReaches(m, users, s0, s1, 1);
    LockMoves(gap, d, ms);
    StepReaches(m, users, s1, s2, 1);
    BeginMoves(gap, d, ms);
    StepReaches(m, users, s2, Scene(d, Some(1), {}, gap, InTxn(Opened(d.mem, ms), Ready)), 1);
  }

  lemma TxnMoves(gap: PC, d: Data, p: PC, d': Data, p': PC)
    requires p.InTxn? && TxnStep(d, p.txn, p.stage, d', p') && (p'.InTxn? || p'.Unlocking?)
    ensures Next(SysOf(Scene(d, Some(1), {}, gap, p)), SysOf(Scene(d', Some(1), {}, gap, p')), 1)
  {
    var sc := Scene(d, Some(1), {}, gap, p);
    assert PutStep(d, p, d', p');
    PutterMoves(sc, d', p');
    assert PutterMoved(sc, d', p') == Scene(d', Some(1), {}, gap, p');
  }

  lemma TxnOn(m: Store, users: set<string>, gap: PC, d: Data, p: PC, d': Data, p': PC)
    requires Reached(m, users, Scene(d, Some(1), {}, gap, p)) && InCall(gap, PartOf(users, ""))
    requires p.InTxn? && TxnStep(d, p.txn, p.stage, d', p') && (p'.InTxn? || p'.Unlocking?)
    ensures Reached(m, users, Scene(d', Some(1), {}, gap, p'))
  {
    TxnMoves(gap, d, p, d', p');
    StepReaches(m, users, Scene(d, Some(1), {}, gap, p), Scene(d', Some(1), {}, gap, p'), 1);
  }

  lemma EndMoves(gap: PC, d: Data, ms: seq<Mapping>)
    ensures Next(SysOf(Scene(d, Some(1), {}, gap, Unlocking(PutDone(ms)))),
                 SysOf(Scene(d, None, {}, gap, PutDone(ms))), 1)
    ensures Next(SysOf(Scene(d, None, {}, gap, PutDone(ms))), SysOf(Scene(d, None, {}, gap, Idle)), 1)
  {
    var s0, s1 := Scene(d, Some(1), {}, gap, Unlocking(PutDone(ms))), Scene(d, None, {}, gap, PutDone(ms));
    PutterMoves(s0, d, PutDone(ms));
    assert PutterMoved(s0, d, PutDone(ms)) == s1;
    PutterMoves(s1, d, Idle);
    assert PutterMoved(s1, d, Idle) == Scene(d, None, {}, gap, Idle);
  }

  lemma PutReturns(m: Store, users: set<string>, gap: PC, d: Data, ms: seq<Mapping>)
    requires Reached(m, users, Scene(d, Some(1), {}, gap, Unlocking(PutDone(ms))))
    requires InCall(gap, PartOf(users, ""))
    ensures Reached(m, users, Scene(d, None, {}, gap, Idle))
  {
    var s1 := Scene(d, None, {}, gap, PutDone(ms));
    EndMoves(gap, d, ms);
    StepReaches(m, users, Scene(d, Some(1), {}, gap, Unlocking(PutDone(ms))), s1, 1);
    StepReaches(m, users, s1, Scene(d, None, {}, gap, Idle), 1);
  }

  /** The whole put, while thread 0 stays in its gap. */
  lemma PutRuns(m: Store, users: set<string>, gap: PC, ms: seq<Mapping>, lid: string, pn: string)
    requires Reached(m, users, Scene(Quiet(m), None, {}, gap, Idle)) && InCall(gap, PartOf(users, ""))
    requires NonEmptyPairs(Pairs(ms)) && Work(m, ms) == ms
    requires |ms| == 1 && ms[0].lid.user == lid && ms[0].pn.user == pn
    ensures Reached(m, users, Scene(Quiet(UnlockedPut(m, lid, pn)), None, {}, gap, Idle))
  {
    var t, txn, txn' := m.table, Opened(m, ms), Finishing(m, ms, lid, pn);
    var d0, d1 := Quiet(m), Quiet(m).(mem := m.(table := DeleteOthers(t, lid, pn)));
    var d2, d3 := Quiet(m).(mem := m.(table := Put(t, lid, pn))), Quiet(m).(mem := UnlockedPut(m, lid, pn));
    var d4 := Quiet(UnlockedPut(m, lid, pn));
    PutTxnSteps(m, ms, lid, pn);
    PutBegins(m, users, gap, d0, ms);
    TxnOn(m, users, gap, d0, InTxn(txn, Ready), d1, InTxn(txn, Deleted(t)));
    TxnOn(m, users, gap, d1, InTxn(txn, Deleted(t)), d2, InTxn(txn, Upserted(t)));
    TxnOn(m, users, gap, d2, InTxn(txn, Upserted(t)), d3, InTxn(txn', Ready));
    TxnOn(m, users, gap, d3, InTxn(txn', Ready), d4, Unlocking(PutDone(ms)));
    PutReturns(m, users, gap, d4, ms);
  }

  lemma RowTaken(got: map<string, string>, rows: map<string, string>, u: string)
    requires u in rows
    ensures got[u := rows[u]] + (rows - {u}) == got + rows
  {
  }

  lemma FewerRows(rows: map<string, string>, u: string)
    requires u in rows
    ensures |(rows - {u}).Keys| < |rows.Keys|
  {
    assert (rows - {u}).Keys == rows.Keys - {u};
  }

  lemma ScanMoves(d: Data, users: set<string>, got: map<string, string>, rows: map<string, string>, u: string)
    requires u in rows
    ensures Next(SysOf(Scene(d, Some(0), {}, BulkScanning(users, got, rows), Idle)),
                 SysOf(Scene(d.(mem := CacheRow(d.mem, Row(rows[u], u))), Some(0), {},
                             BulkScanning(users, got[u := rows[u]], rows - {u}), Idle)), 0)
  {
    var sc := Scene(d, Some(0), {}, BulkScanning(users, got, rows), Idle);
    var d', p := d.(mem := CacheRow(d.mem, Row(rows[u], u))), BulkScanning(users, got[u := rows[u]], rows - {u});
    assert BulkStep(d, sc.reader, d', p);
    ReaderMoves(sc, d', p);
    assert ReaderMoved(sc, d', p) == Scene(d', Some(0), {}, p, Idle);
  }

  /** Scanning all of the rows that the query has delivered. */
  lemma {:induction false} ScanAll(m: Store, users: set<string>, d: Data,
                                   got: map<string, string>, rows: map<string, string>)
    returns (d': Data)
    requires Reached(m, users, Scene(d, Some(0), {}, BulkScanning(users, got, rows), Idle))
    ensures Reached(m, users, Scene(d', Some(0), {}, BulkScanning(users, got + rows, map[]), Idle))
    ensures d'.named == d.named && d'.bad == d.bad
    decreases |rows.Keys|
  {
    if rows == map[] {
      assert got + rows == got;
      d' := d;
    } else {
      var u :| u in rows;
      var d1, p := d.(mem := CacheRow(d.mem, Row(rows[u], u))), BulkScanning(users, got[u := rows[u]], rows - {u});
      ScanMoves(d, users, got, rows, u);
      StepReaches(m, users, Scene(d, Some(0), {}, BulkScanning(users, got, rows), Idle),
                  Scene(d1, Some(0), {}, p, Idle), 0);
      RowTaken(got, rows, u);
      FewerRows(rows, u);
      d' := ScanAll(m, users, d1, got[u := rows[u]], rows - {u});
    }
  }

  lemma QueryMoves(d: Data, users: set<string>, got: map<string, string>, missing: set<string>)
    ensures Next(SysOf(Scene(d, None, {}, BulkGap(users, got, missing), Idle)),
                 SysOf(Scene(d, Some(0), {}, BulkScanning(users, got, RowsFor(d.mem.table, missing)), Idle)), 0)
  {
    var sc := Scene(d, None, {}, BulkGap(users, got, missing), Idle);
    var p := BulkScanning(users, got, RowsFor(d.mem.table, missing));
    ReaderMoves(sc, d, p);
    assert ReaderMoved(sc, d, p) == Scene(d, Some(0), {}, p, Idle);
  }

  lemma UnlockMoves(d: Data, users: set<string>, got: map<string, string>)
    ensures Next(SysOf(Scene(d, Some(0), {}, BulkScanning(users, got, map[]), Idle)),
                 SysOf(Scene(d, Some(0), {}, Unlocking(BulkDone(users, got)), Idle)), 0)
  {
    var sc, p := Scene(d, Some(0), {}, BulkScanning(users, got, map[]), Idle), Unlocking(BulkDone(users, got));
    ReaderMoves(sc, d, p);
    assert ReaderMoved(sc, d, p) == Scene(d, Some(0), {}, p, Idle);
  }

  lemma ReturnMoves(d: Data, users: set<string>, got: map<string, string>)
    ensures Next(SysOf(Scene(d, Some(0), {}, Unlocking(BulkDone(users, got)), Idle)),
                 SysOf(Scene(d, None, {}, BulkDone(users, got), Idle)), 0)
  {
    var sc := Scene(d, Some(0), {}, Unlocking(BulkDone(users, got)), Idle);
    ReaderMoves(sc, d, BulkDone(users, got));
    assert ReaderMoved(sc, d, BulkDone(users, got)) == Scene(d, None, {}, BulkDone(users, got), Idle);
  }

  lemma Returns(m: Store, users: set<string>, d: Data, got: map<string, string>)
    requires Reached(m, users, Scene(d, Some(0), {}, BulkScanning(users, got, map[]), Idle))
    ensures Reached(m, users, Scene(d, None, {}, BulkDone(users, got), Idle))
  {
    var s0 := Scene(d, Some(0), {}, BulkScanning(users, got, map[]), Idle);
    var s1 := Scene(d, Some(0), {}, Unlocking(BulkDone(users, got)), Idle);
    UnlockMoves(d, users, got);
    StepReaches(m, users, s0, s1, 0);
    ReturnMoves(d, users, got);
    StepReaches(m, users, s1, Scene(d, None, {}, BulkDone(users, got), Idle), 0);
  }

  /** The second section, from the gap to the return. */
  lemma ReadsRows(m: Store, users: set<string>, d: Data, got: map<string, string>, missing: set<string>)
    returns (d': Data)
    requires Reached(m, users, Scene(d, None, {}, BulkGap(users, got, missing), Idle))
    ensures Reached(m, users, Scene(d', None, {}, BulkDone(users, got + RowsFor(d.mem.table, missing)), Idle))
    ensures d'.named == d.named && d'.bad == d.bad
  {
    var rows := RowsFor(d.mem.table, missing);
    QueryMoves(d, users, got, missing);
    StepReaches(m, users, Scene(d, None, {}, BulkGap(users, got, missing), Idle),
                Scene(d, Some(0), {}, BulkScanning(users, got, rows), Idle), 0);
    d' := ScanAll(m, users, d, got, rows);
    Returns(m, users, d', got + rows);
  }

  // ---------------------------------------------------------------- the exact condition

  lemma WorkOfOne(m: Store, e: Mapping)
    requires !Dropped(m, e)
    ensures Work(m, [e]) == [e]
  {
    assert [e][..0] == [];
    assert Kept(m, [e]) == [e];
    assert Dedup([e]) == [e];
  }

  function Entry(lid: string, pn: string): Mapping {
    Mapping(JID(lid, 0, LID_SERVER), JID(pn, 0, PN_SERVER))
  }

  /** The answers to a cached and to a missing phone number, after a put of the latter. */
  lemma MixedAnswers(m: Store, users: set<string>, p: string, q: string)
    requires Coherent(m) && p in CachedLids(m, users) && q in Undecided(m, users)
    ensures var lid := CachedLids(m, users)[p];
            var got := CachedLids(m, users) + RowsFor(Put(m.table, lid, q), Undecided(m, users));
            Get(got, p) == lid && Get(got, q) == lid
  {
    var lid := CachedLids(m, users)[p];
    var t := Put(m.table, lid, q);
    PutKeepsConstraints(m.table, lid, q);
    PutRows(m.table, lid, q, lid, q);
    LookupsAtRow(t, lid, q);
    assert p !in Undecided(m, users);
  }

  /** No table gives one LID to two phone numbers. */
  lemma NoTableSays(t: Table, users: set<string>, got: map<string, string>, p: string, q: string)
    requires p in users && q in users && p != q && Get(got, p) == Get(got, q) != ""
    ensures !AllTrue(t, users, got)
  {
    AnswerIsRow(t, p);
    AnswerIsRow(t, q);
  }

  lemma RaceEnds(m: Store, users: set<string>, ms: seq<Mapping>, lid: string, q: string) returns (d: Data)
    requires Coherent(m) && Undecided(m, users) != {}
    requires Work(m, ms) == ms && NonEmptyPairs(Pairs(ms))
    requires |ms| == 1 && ms[0].lid.user == lid && ms[0].pn.user == q
    ensures var got := CachedLids(m, users) + RowsFor(Put(m.table, lid, q), Undecided(m, users));
            Reached(m, users, Scene(d, None, {}, BulkDone(users, got), Idle)) && d.named && d.bad == {}
  {
    var known, missing := CachedLids(m, users), Undecided(m, users);
    ReadsCache(m, users);
    PutRuns(m, users, BulkGap(users, known, missing), ms, lid, q);
    d := ReadsRows(m, users, Quiet(UnlockedPut(m, lid, q)), known, missing);
  }

  /** From every cache state that knows some of the phone numbers and not all of them, a put in
      the gap makes the bulk lookup give answers that no table at all could give. */
  lemma BulkMayMixTables(m: Store, users: set<string>) returns (got: map<string, string>, d: Data)
    requires Coherent(m) && "" !in users && CachedLids(m, users) != map[] && Undecided(m, users) != {}
    ensures Reached(m, users, Scene(d, None, {}, BulkDone(users, got), Idle)) && d.named && d.bad == {}
    ensures forall t: Table :: !AllTrue(t, users, got)
  {
    var p :| p in CachedLids(m, users);
    var q :| q in Undecided(m, users);
    var lid := CachedLids(m, users)[p];
    WorkOfOne(m, Entry(lid, q));
    d := RaceEnds(m, users, [Entry(lid, q)], lid, q);
    got := CachedLids(m, users) + RowsFor(Put(m.table, lid, q), Undecided(m, users));
    MixedAnswers(m, users, p, q);
    forall t: Table
      ensures !AllTrue(t, users, got)
    {
      NoTableSays(t, users, got, p, q);
    }
  }

  /** What a bulk lookup that has seen the cache state m carries with it. */
  ghost predicate HasSeen(s: Sys, t: Tid, m: Store, users: set<string>) {
    && t in s.pc && InCall(s.pc[t], PartOf(users, "")) && !s.pc[t].BulkCalled?
    && (s.pc[t].BulkReading? ==> s.data.mem == m)
    && (s.pc[t].BulkSplit? || s.pc[t].BulkGap? ==> s.pc[t].missing == Undecided(m, users))
    && (s.pc[t].BulkGap? ==> s.pc[t].missing != {})
  }

  lemma StillSeen(s: Sys, s': Sys, u: Tid, t: Tid, m: Store, users: set<string>)
    requires Inv(s) && Next(s, s', u) && HasSeen(s, t, m, users)
    requires t in s'.pc && InCall(s'.pc[t], PartOf(users, ""))
    ensures HasSeen(s', t, m, users)
  {
    if u != t {
      StepOrderly(s.data, s.pc[u], s'.data, s'.pc[u]);
    }
  }

  lemma {:induction false} SeenUpTo(trace: seq<Sys>, schedule: seq<Tid>, t: Tid, i: nat, j: nat, x: nat,
                                    m: Store, users: set<string>)
    requires Behaviour(trace, schedule) && BulkCallAt(trace, t, i, j, m, users) && i <= x <= j
    ensures HasSeen(trace[x], t, m, users)
    decreases x
  {
    if x > i {
      SeenUpTo(trace, schedule, t, i, j, x - 1, m, users);
      BehaviourInv(trace, schedule, x - 1);
      assert Next(trace[x - 1], trace[x - 1 + 1], schedule[x - 1]);
      StillSeen(trace[x - 1], trace[x], schedule[x - 1], t, m, users);
    }
  }

  /** A bulk lookup that has seen m returns `got`, where only named users are put and no failed
      transaction has touched its users. */
  ghost predicate BulkAnswers(trace: seq<Sys>, schedule: seq<Tid>, t: Tid, i: nat, j: nat,
                              m: Store, users: set<string>, got: map<string, string>) {
    && Behaviour(trace, schedule) && BulkCallAt(trace, t, i, j, m, users)
    && trace[j].pc[t] == BulkDone(users, got) && trace[j].data.named && users !! trace[j].data.bad
  }

  /** At some instant from i to j the durable table gave all of the answers. */
  ghost predicate TrueAtOnce(trace: seq<Sys>, i: nat, j: nat, users: set<string>, got: map<string, string>) {
    exists k :: i <= k <= j < |trace| && AllTrue(trace[k].data.committed, users, got)
  }

  lemma UnmixedIsWhole(trace: seq<Sys>, schedule: seq<Tid>, t: Tid, i: nat, j: nat,
                       m: Store, users: set<string>, got: map<string, string>)
    requires BulkAnswers(trace, schedule, t, i, j, m, users, got)
    requires CachedLids(m, users) == map[] || Undecided(m, users) == {}
    ensures TrueAtOnce(trace, i, j, users, got)
  {
    forall x | i <= x <= j
      ensures t in trace[x].pc && Unmixed(trace[x].pc[t], users)
    {
      SeenUpTo(trace, schedule, t, i, j, x, m, users);
      if trace[x].pc[t].BulkGap? {
        NothingKnown(m, users);
      }
    }
    BulkWholeLinearizable(trace, schedule, t, i, j, users, got);
  }

  lemma NothingKnown(m: Store, users: set<string>)
    requires CachedLids(m, users) == map[] && Undecided(m, users) != {}
    ensures Undecided(m, users) == users
  {
    forall u | u in users
      ensures u in Undecided(m, users)
    {
      assert u !in CachedLids(m, users);
    }
  }

  lemma MixedCallIsTorn(m: Store, users: set<string>)
    requires Coherent(m) && "" !in users && CachedLids(m, users) != map[] && Undecided(m, users) != {}
    ensures exists trace, schedule, t, i, j, got ::
              BulkAnswers(trace, schedule, t, i, j, m, users, got) && !TrueAtOnce(trace, i, j, users, got)
  {
    var got, d := BulkMayMixTables(m, users);
    var sc := Scene(d, None, {}, BulkDone(users, got), Idle);
    var trace, schedule :| Race(trace, schedule, m, users, sc);
    assert BulkAnswers(trace, schedule, 0, 2, |schedule|, m, users, got);
    assert !TrueAtOnce(trace, 2, |schedule|, users, got);
  }

  /** The exact condition for a bulk lookup to be right as a whole, over all behaviours: the
      cache state that its first section sees knows none of the phone numbers, or decides all. */
  lemma BulkWholeIff(m: Store, users: set<string>)
    requires Coherent(m) && "" !in users
    ensures (forall trace, schedule, t, i, j, got ::
               BulkAnswers(trace, schedule, t, i, j, m, users, got) ==> TrueAtOnce(trace, i, j, users, got))
       <==> CachedLids(m, users) == map[] || Undecided(m, users) == {}
  {
    if CachedLids(m, users) == map[] || Undecided(m, users) == {} {
      forall trace, schedule, t, i, j, got | BulkAnswers(trace, schedule, t, i, j, m, users, got)
        ensures TrueAtOnce(trace, i, j, users, got)
      {
        UnmixedIsWhole(trace, schedule, t, i, j, m, users, got);
      }
    } else {
      MixedCallIsTorn(m, users);
    }
  }
}

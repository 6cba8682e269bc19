/** The LID map under concurrency: threads interleave at every lock operation and at every
    step under the lock, including the gap between releasing the read lock and taking the
    write lock in a lookup that the cache cannot decide. */
module LidSteps {
  import opened Sql
  import opened LidTable
  import opened LidCache
  import opened LidPuts
  import opened LidBatch

  type Tid = nat

  /** Where the two statements of the current put stand; `base` is the table before them. */
  datatype Stage = Ready | Deleted(base: Table) | Upserted(base: Table)

  /** An open transaction: the store when the lock was taken, the request, the puts it has finished,
      those still to come, and the users whose rows the finished ones have changed. */
  datatype Txn = Txn(start: Store, request: seq<Mapping>, done: seq<Mapping>, work: seq<Mapping>,
                     touched: set<string>)

  datatype PC =
    | Idle
    // A single lookup.  Reading and ReadDone hold the read lock, None means undecided.
    | Called(dir: Direction, user: string)
    | Reading(dir: Direction, user: string)
    | ReadDone(dir: Direction, user: string, read: Option<string>)
    | Gap(dir: Direction, user: string)
    | Querying(dir: Direction, user: string)
    | Queried(dir: Direction, user: string, target: string)
    | Answered(dir: Direction, user: string, answer: string)
    // A put of one or many mappings; InTxn holds the write lock and an open transaction, and
    // PutDone reports success.
    | PutCalled(request: seq<Mapping>)
    | PutLocked(request: seq<Mapping>)
    | InTxn(txn: Txn, stage: Stage)
    | PutDone(request: seq<Mapping>)
    // A cache fill; `todo` has the rows that the query has still to deliver.
    | FillCalled
    | Filling(todo: set<string>)
    // A bulk lookup.  BulkReading and BulkSplit hold the read lock; `got` has the answers found
    // so far and `rows` the rows, by PN, that the query has still to deliver.
    | BulkCalled(users: set<string>)
    | BulkReading(users: set<string>)
    | BulkSplit(users: set<string>, got: map<string, string>, missing: set<string>)
    | BulkGap(users: set<string>, got: map<string, string>, missing: set<string>)
    | BulkScanning(users: set<string>, got: map<string, string>, rows: map<string, string>)
    | BulkDone(users: set<string>, got: map<string, string>)
    // Holding the write lock with nothing left to do but release it.
    | Unlocking(after: PC)

  /** `mem.table` is the table as the lock holder sees it; `committed` is the durable one.
      `named` says that callers put non-empty users only, and never changes.  `bad` has the
      users that a failed transaction had touched: the cache entries of its finished puts stay
      (LidRollback.RolledBackBatch). */
  datatype Data = Data(mem: Store, committed: Table, named: bool, bad: set<string>)

  datatype Sys = Sys(data: Data, writer: Option<Tid>, readers: set<Tid>, pc: map<Tid, PC>)

  predicate HoldsRead(p: PC) {
    p.Reading? || p.ReadDone? || p.BulkReading? || p.BulkSplit?
  }

  predicate HoldsWrite(p: PC) {
    p.Querying? || p.Queried? || p.PutLocked? || p.InTxn? || p.Filling? || p.BulkScanning? || p.Unlocking?
  }

  ghost predicate IsCall(p: PC, named: bool) {
    || p.Called? || p.FillCalled? || p.BulkCalled?
    || (p.PutCalled? && (named ==> NonEmptyPairs(Pairs(p.request))))
  }

  /** One step of a lookup. */
  ghost predicate LookupStep(d: Data, p: PC, d': Data, p': PC) {
    match p
    case Called(dir, user) => d' == d && p' == Reading(dir, user)
    case Reading(dir, user) =>
      d' == d && p' == ReadDone(dir, user, if DecidedByCache(d.mem, dir, user)
                                           then Some(Get(d.mem.Source(dir), user)) else None)
    case ReadDone(dir, user, read) =>
      d' == d && p' == if read.Some? then Answered(dir, user, read.value) else Gap(dir, user)
    case Gap(dir, user) => d' == d && p' == Querying(dir, user)
    case Querying(dir, user) =>
      d' == d && (p' == Queried(dir, user, Query(d.mem.table, dir, user)) || p' == Unlocking(Idle))
    case Queried(dir, user, target) =>
      d' == d.(mem := Remember(d.mem, dir, user, target)) && p' == Unlocking(Answered(dir, user, target))
    case Answered(_, _, _) => d' == d && p' == Idle
    case _ => false
  }

  /** The users whose rows a put changes: the pair, and whoever loses a row to it. */
  function Touches(t: Table, lid: string, pn: string): set<string> {
    if lid in t && t[lid] == pn then {}
    else {lid, pn} + (if lid in t then {t[lid]} else {}) + set l | l in t && t[l] == pn
  }

  /** One step of a put.  Begin, either statement of any mapping, and the commit may fail; the
      table is restored then and the caches are not. */
  ghost predicate PutStep(d: Data, p: PC, d': Data, p': PC) {
    match p
    case PutCalled(request) => d' == d && p' == PutLocked(request)
    case PutLocked(request) =>
      d' == d && p' == if Work(d.mem, request) == [] then Unlocking(PutDone(request))
                       else InTxn(Txn(d.mem, request, [], Work(d.mem, request), {}), Ready)
    case InTxn(txn, stage) =>
      || TxnStep(d, txn, stage, d', p')
      || (d' == d.(mem := d.mem.(table := d.committed), bad := d.bad + txn.touched) && p' == Unlocking(Idle))
    case PutDone(_) => d' == d && p' == Idle
    case _ => false
  }

  /** The transaction after the put that it is at; `base` is the table before that put. */
  function PutFinished(txn: Txn, base: Table): Txn
    requires txn.work != []
  {
    var m := txn.work[0];
    txn.(done := txn.done + [m], work := txn.work[1..],
         touched := txn.touched + Touches(base, m.lid.user, m.pn.user))
  }

  ghost predicate TxnStep(d: Data, txn: Txn, stage: Stage, d': Data, p': PC) {
    if txn.work == [] then
      d' == d.(committed := d.mem.table) && p' == Unlocking(PutDone(txn.request))
    else
      var lid, pn := txn.work[0].lid.user, txn.work[0].pn.user;
      match stage
      case Ready =>
        && d' == d.(mem := d.mem.(table := DeleteOthers(d.mem.table, lid, pn)))
        && p' == InTxn(txn, Deleted(d.mem.table))
      case Deleted(base) =>
        var upserted := Upsert(d.mem.table, lid, pn);
        && upserted.Some?
        && d' == d.(mem := d.mem.(table := upserted.value))
        && p' == InTxn(txn, Upserted(base))
      case Upserted(base) =>
        && d' == d.(mem := PutCaches(d.mem, lid, pn))
        && p' == InTxn(PutFinished(txn, base), Ready)
  }

  /** One step of a fill; it may fail at any time. */
  ghost predicate FillStep(d: Data, p: PC, d': Data, p': PC) {
    match p
    case FillCalled => d' == d && p' == Filling(d.mem.table.Keys)
    case Filling(todo) =>
      || (exists l :: l in todo && l in d.mem.table &&
            d' == d.(mem := CacheRow(d.mem, Row(l, d.mem.table[l]))) && p' == Filling(todo - {l}))
      || (d' == d.(mem := d.mem.(filled := todo == {})) && p' == Unlocking(Idle))
    case _ => false
  }

  /** The PNs that the cache answers positively, and those to ask the database about. */
  function CachedLids(m: Store, users: set<string>): map<string, string> {
    map u | u in users && Get(m.pnToLid, u) != "" :: Get(m.pnToLid, u)
  }

  function Undecided(m: Store, users: set<string>): set<string> {
    if m.filled then {} else set u | u in users && Get(m.pnToLid, u) == ""
  }

  /** The rows that the query for `missing` delivers, by PN. */
  ghost function RowsFor(t: Table, missing: set<string>): map<string, string> {
    map u | u in missing && (exists l :: Has(t, l, u)) :: LidOf(t, u)
  }

  /** One step of a bulk lookup; its query and its scan may fail at any time. */
  ghost predicate BulkStep(d: Data, p: PC, d': Data, p': PC) {
    match p
    case BulkCalled(users) => d' == d && p' == BulkReading(users)
    case BulkReading(users) =>
      d' == d && p' == BulkSplit(users, CachedLids(d.mem, users), Undecided(d.mem, users))
    case BulkSplit(users, got, missing) =>
      d' == d && p' == if missing == {} then BulkDone(users, got) else BulkGap(users, got, missing)
    case BulkGap(users, got, missing) =>
      d' == d && p' == BulkScanning(users, got, RowsFor(d.mem.table, missing))
    case BulkScanning(users, got, rows) =>
      || (exists u :: u in rows && d' == d.(mem := CacheRow(d.mem, Row(rows[u], u)))
                   && p' == BulkScanning(users, got[u := rows[u]], rows - {u}))
      || (d' == d && p' == Unlocking(if rows == map[] then BulkDone(users, got) else Idle))
      || (d' == d && p' == Unlocking(Idle))
    case BulkDone(_, _) => d' == d && p' == Idle
    case _ => false
  }

  predicate OfLookup(p: PC) {
    p.Called? || p.Reading? || p.ReadDone? || p.Gap? || p.Querying? || p.Queried? || p.Answered?
  }

  predicate OfBulk(p: PC) {
    p.BulkCalled? || p.BulkReading? || p.BulkSplit? || p.BulkGap? || p.BulkScanning? || p.BulkDone?
  }

  predicate OfPut(p: PC) {
    p.PutCalled? || p.PutLocked? || p.InTxn? || p.PutDone?
  }

  /** What one thread does to the shared data when it moves from p to p'. */
  ghost predicate Local(d: Data, p: PC, d': Data, p': PC) {
    if p.Idle? then d' == d && IsCall(p', d.named)
    else if p.Unlocking? then d' == d && p' == p.after
    else if OfLookup(p) then LookupStep(d, p, d', p')
    else if OfPut(p) then PutStep(d, p, d', p')
    else if p.FillCalled? || p.Filling? then FillStep(d, p, d', p')
    else BulkStep(d, p, d', p')
  }

  /** The readers-writer lock: a thread may enter a read section when no writer is in, and a
      write section when nobody is. */
  predicate Locking(s: Sys, s': Sys, t: Tid, p: PC, p': PC) {
    && s'.readers == (if HoldsRead(p') then s.readers + {t} else s.readers - {t})
    && s'.writer == (if HoldsWrite(p') then Some(t) else if HoldsWrite(p) then None else s.writer)
    && (HoldsRead(p') && !HoldsRead(p) ==> s.writer.None?)
    && (HoldsWrite(p') && !HoldsWrite(p) ==> s.writer.None? && s.readers == {})
  }

  ghost predicate Next(s: Sys, s': Sys, t: Tid) {
    && t in s.pc && t in s'.pc
    && s'.pc == s.pc[t := s'.pc[t]]
    && Locking(s, s', t, s.pc[t], s'.pc[t])
    && Local(s.data, s.pc[t], s'.data, s'.pc[t])
  }

  /** The caches are right about all users outside `bad`; the empty user is among those unless
      no table has it. */
  ghost predicate Right(m: Store, named: bool, bad: set<string>) {
    RightExcept(m, bad) && if named then NonEmptyUsers(m.table) else "" in bad
  }

  ghost predicate Settled(d: Data) {
    Right(d.mem, d.named, d.bad) && d.mem.table == d.committed
  }

  /** Start from any settled data, such as empty caches over a well-formed table. */
  ghost predicate Init(s: Sys) {
    && Settled(s.data)
    && s.writer.None? && s.readers == {}
    && forall t :: t in s.pc ==> s.pc[t] == Idle
  }

  // ---------------------------------------------------------------- the invariant

  ghost predicate LocksAgree(s: Sys) {
    && (s.writer.Some? ==> s.readers == {} && s.writer.value in s.pc)
    && (forall t :: t in s.pc ==> (t in s.readers <==> HoldsRead(s.pc[t])))
    && (forall t :: t in s.pc ==> (s.writer == Some(t) <==> HoldsWrite(s.pc[t])))
    && s.readers <= s.pc.Keys
  }

  /** What holds of the data while the thread that owns the write lock is at p. */
  ghost predicate WriterState(d: Data, p: PC) {
    match p
    case InTxn(txn, stage) =>
      && Begun(d, txn)
      && if stage.Ready? then Open(d, d.mem, txn)
         else txn.work != [] && Open(d, d.mem.(table := stage.base), txn) && InPut(d.mem.table, txn.work[0], stage)
    case Queried(dir, user, target) =>
      Settled(d) && target == Query(d.mem.table, dir, user)
    case Filling(todo) =>
      && Settled(d)
      && forall l :: l in d.mem.table && l !in todo ==> l in d.mem.lidToPn && d.mem.table[l] in d.mem.pnToLid
    case BulkScanning(users, got, rows) =>
      Settled(d) && forall u :: u in rows ==> Has(d.mem.table, rows[u], u)
    case _ => Settled(d)
  }

  /** The transaction started from settled caches over the durable table, and works through the
      entries of its request that were not cached then. */
  ghost predicate Begun(d: Data, txn: Txn) {
    && Right(txn.start, d.named, d.bad) && txn.start.table == d.committed
    && Work(txn.start, txn.request) == txn.done + txn.work && Work(txn.start, txn.request) != []
    && (d.named ==> NamedEntries(txn.work))
  }

  /** No row of the user differs. */
  ghost predicate SameRowsOf(t1: Table, t2: Table, user: string) {
    && (forall l :: Has(t1, l, user) <==> Has(t2, l, user))
    && (forall p :: Has(t1, user, p) <==> Has(t2, user, p))
  }

  /** An open transaction between two puts: m is what the finished ones have made, the caches
      belong to its table, and only rows of touched users differ from the durable table. */
  ghost predicate Open(d: Data, m: Store, txn: Txn) {
    && m == PutAll(txn.start, txn.done) && Right(m, d.named, d.bad)
    && UniquePn(d.committed) && (d.named ==> NonEmptyUsers(d.committed))
    && forall user :: user !in txn.touched ==> SameRowsOf(m.table, d.committed, user)
  }

  /** Within a put the table follows its progress. */
  ghost predicate InPut(t: Table, m: Mapping, stage: Stage)
    requires !stage.Ready?
  {
    t == if stage.Deleted? then DeleteOthers(stage.base, m.lid.user, m.pn.user)
         else Put(stage.base, m.lid.user, m.pn.user)
  }

  /** What a thread carries with it, independently of the shared data. */
  ghost predicate Carries(p: PC, named: bool) {
    && (named && (p.PutCalled? || p.PutLocked?) ==> NonEmptyPairs(Pairs(p.request)))
    && (p.Unlocking? ==> p.after.Idle? || p.after.Answered? || p.after.BulkDone? || p.after.PutDone?)
    && (p.BulkSplit? || p.BulkGap? ==> p.got.Keys !! p.missing)
  }

  ghost predicate Inv(s: Sys) {
    && LocksAgree(s)
    && (forall t :: t in s.pc ==> Carries(s.pc[t], s.data.named))
    && (s.writer.None? ==> Settled(s.data))
    && (s.writer.Some? ==> WriterState(s.data, s.pc[s.writer.value]))
  }

  lemma InitInv(s: Sys)
    requires Init(s)
    ensures Inv(s)
  {
  }

  /** A step keeps what its thread carries and the flags, changes the data under the write lock
      only, and never goes from one lock straight to the other. */
  ghost predicate Orderly(d: Data, p: PC, d': Data, p': PC) {
    && Carries(p', d.named) && d'.named == d.named && d.bad <= d'.bad
    && (!HoldsWrite(p) ==> d' == d)
    && !(HoldsRead(p') && HoldsWrite(p'))
    && (HoldsWrite(p) ==> !HoldsRead(p'))
    && (HoldsRead(p) ==> !HoldsWrite(p'))
  }

  lemma LookupOrderly(d: Data, p: PC, d': Data, p': PC)
    requires LookupStep(d, p, d', p')
    ensures Orderly(d, p, d', p')
  {
  }

  lemma PutOrderly(d: Data, p: PC, d': Data, p': PC)
    requires PutStep(d, p, d', p') && Carries(p, d.named)
    ensures Orderly(d, p, d', p')
  {
  }

  lemma BulkOrderly(d: Data, p: PC, d': Data, p': PC)
    requires BulkStep(d, p, d', p') && Carries(p, d.named)
    ensures Orderly(d, p, d', p')
  {
  }

  lemma StepOrderly(d: Data, p: PC, d': Data, p': PC)
    requires Local(d, p, d', p') && Carries(p, d.named)
    ensures Orderly(d, p, d', p')
  {
    if OfLookup(p) {
      LookupOrderly(d, p, d', p');
    } else if OfPut(p) {
      PutOrderly(d, p, d', p');
    } else if OfBulk(p) {
      BulkOrderly(d, p, d', p');
    }
  }

  lemma LockingKeepsAgreement(s: Sys, s': Sys, t: Tid)
    requires LocksAgree(s) && t in s.pc && t in s'.pc && s'.pc == s.pc[t := s'.pc[t]]
    requires Locking(s, s', t, s.pc[t], s'.pc[t])
    requires !(HoldsRead(s'.pc[t]) && HoldsWrite(s'.pc[t]))
    requires HoldsWrite(s.pc[t]) ==> !HoldsRead(s'.pc[t])
    requires HoldsRead(s.pc[t]) ==> !HoldsWrite(s'.pc[t])
    ensures LocksAgree(s')
  {
  }

  lemma PutKeepsState(m: Store, named: bool, bad: set<string>, lid: string, pn: string)
    requires Right(m, named, bad) && (named ==> lid != "" && pn != "")
    ensures Right(UnlockedPut(m, lid, pn), named, bad)
  {
    PutKeepsConstraints(m.table, lid, pn);
    if "" !in bad {
      NamedRowsEvicted(m, lid, pn);
    }
    PutKeepsRight(m, bad, lid, pn);
  }

  lemma UntouchedRows(t: Table, lid: string, pn: string, user: string)
    requires UniquePn(t) && user !in Touches(t, lid, pn)
    ensures SameRowsOf(t, Put(t, lid, pn), user)
  {
    if Has(t, lid, pn) {
      PutOfRow(t, lid, pn);
    } else {
      forall x
        ensures Has(t, x, user) <==> Has(Put(t, lid, pn), x, user)
        ensures Has(t, user, x) <==> Has(Put(t, lid, pn), user, x)
      {
        PutRows(t, lid, pn, x, user);
        PutRows(t, lid, pn, user, x);
      }
    }
  }

  /** One more put of an open transaction. */
  lemma PutKeepsOpen(d: Data, m: Store, txn: Txn)
    requires Begun(d, txn) && Open(d, m, txn) && txn.work != []
    ensures var lid, pn := txn.work[0].lid.user, txn.work[0].pn.user;
            Open(d, UnlockedPut(m, lid, pn), PutFinished(txn, m.table))
  {
    var lid, pn := txn.work[0].lid.user, txn.work[0].pn.user;
    assert txn.work[0] in txn.work;
    assert PutFinished(txn, m.table).done[..|txn.done|] == txn.done;
    PutKeepsState(m, d.named, d.bad, lid, pn);
    forall user | user !in txn.touched + Touches(m.table, lid, pn)
      ensures SameRowsOf(UnlockedPut(m, lid, pn).table, d.committed, user)
    {
      UntouchedRows(m.table, lid, pn, user);
      assert SameRowsOf(m.table, d.committed, user);
    }
  }

  lemma RestoredRightAt(m: Store, t: Table, user: string)
    requires UniquePn(m.table) && UniquePn(t) && RightAt(m, user) && SameRowsOf(m.table, t, user)
    ensures RightAt(m.(table := t), user)
  {
    AnswerIsRow(m.table, user);
    AnswerIsRow(t, user);
    if user in t {
      assert Has(t, user, t[user]);
    }
    if user in m.table {
      assert Has(m.table, user, m.table[user]);
    }
  }

  /** A transaction that fails restores the table, and hurts the users it has touched only. */
  lemma RestoreSettles(d: Data, m: Store, txn: Txn)
    requires Open(d, m, txn)
    ensures Settled(d.(mem := m.(table := d.committed), bad := d.bad + txn.touched))
  {
    forall user | user !in d.bad + txn.touched
      ensures RightAt(m.(table := d.committed), user)
    {
      assert SameRowsOf(m.table, d.committed, user);
      RestoredRightAt(m, d.committed, user);
    }
  }

  lemma BegunGoesOn(d: Data, d': Data, txn: Txn, base: Table)
    requires Begun(d, txn) && txn.work != []
    requires d'.committed == d.committed && d'.named == d.named && d'.bad == d.bad
    ensures Begun(d', PutFinished(txn, base))
  {
    assert txn.done + txn.work == txn.done + [txn.work[0]] + txn.work[1..];
  }

  /** The statements and the cache writes of one put, and the commit. */
  lemma TxnKeepsState(d: Data, txn: Txn, stage: Stage, d': Data, p': PC)
    requires WriterState(d, InTxn(txn, stage)) && TxnStep(d, txn, stage, d', p')
    ensures WriterState(d', p')
  {
    if txn.work != [] {
      var lid, pn := txn.work[0].lid.user, txn.work[0].pn.user;
      match stage
      case Ready =>
        assert d'.mem.(table := d.mem.table) == d.mem;
      case Deleted(base) =>
        StatementsPut(base, lid, pn);
        assert d'.mem.(table := base) == d.mem.(table := base);
      case Upserted(base) =>
        PutKeepsOpen(d, d.mem.(table := base), txn);
        BegunGoesOn(d, d', txn, base);
        assert d'.mem == UnlockedPut(d.mem.(table := base), lid, pn);
    }
  }

  lemma AbortSettles(d: Data, txn: Txn, stage: Stage)
    requires WriterState(d, InTxn(txn, stage))
    ensures Settled(d.(mem := d.mem.(table := d.committed), bad := d.bad + txn.touched))
  {
    var m := if stage.Ready? then d.mem else d.mem.(table := stage.base);
    RestoreSettles(d, m, txn);
    assert m.(table := d.committed) == d.mem.(table := d.committed);
  }

  lemma TxnStarts(d: Data, request: seq<Mapping>)
    requires Settled(d) && (d.named ==> NonEmptyPairs(Pairs(request))) && Work(d.mem, request) != []
    ensures WriterState(d, InTxn(Txn(d.mem, request, [], Work(d.mem, request), {}), Ready))
  {
    KeptPairs(d.mem, request);
    DedupSameElements(Kept(d.mem, request));
    forall m | m in Work(d.mem, request) && d.named
      ensures m.lid.user != "" && m.pn.user != ""
    {
      assert (m.lid.user, m.pn.user) in Pairs(request);
    }
  }

  lemma PutStepKeepsState(d: Data, p: PC, d': Data, p': PC)
    requires WriterState(d, p) && Carries(p, d.named) && PutStep(d, p, d', p') && HoldsWrite(p)
    ensures WriterState(d', p')
  {
    match p
    case PutLocked(request) =>
      if Work(d.mem, request) != [] {
        TxnStarts(d, request);
      }
    case InTxn(txn, stage) =>
      if TxnStep(d, txn, stage, d', p') {
        TxnKeepsState(d, txn, stage, d', p');
      } else {
        AbortSettles(d, txn, stage);
      }
  }

  lemma FillKeepsState(d: Data, p: PC, d': Data, p': PC)
    requires WriterState(d, p) && p.Filling? && FillStep(d, p, d', p')
    ensures WriterState(d', p')
  {
    if p' == Unlocking(Idle) {
      FlagKeepsRight(d.mem, d.bad, p.todo == {});
    } else {
      var l :| l in p.todo && l in d.mem.table && d' == d.(mem := CacheRow(d.mem, Row(l, d.mem.table[l])));
      CacheRowKeepsRight(d.mem, d.bad, Row(l, d.mem.table[l]));
    }
  }

  lemma BulkKeepsState(d: Data, p: PC, d': Data, p': PC)
    requires WriterState(d, p) && p.BulkScanning? && BulkStep(d, p, d', p')
    ensures WriterState(d', p')
  {
    if p'.BulkScanning? {
      var u :| u in p.rows && d' == d.(mem := CacheRow(d.mem, Row(p.rows[u], u)))
               && p' == BulkScanning(p.users, p.got[u := p.rows[u]], p.rows - {u});
      CacheRowKeepsRight(d.mem, d.bad, Row(p.rows[u], u));
    }
  }

  lemma AnswerKeepsState(d: Data, p: PC, d': Data, p': PC)
    requires WriterState(d, p) && p.Queried? && LookupStep(d, p, d', p')
    ensures WriterState(d', p')
  {
    RememberKeepsRight(d.mem, d.bad, p.dir, p.user);
  }

  /** Whatever the holder of the write lock does next, its promise to the others stands. */
  lemma WriterKeepsState(d: Data, p: PC, d': Data, p': PC)
    requires WriterState(d, p) && Carries(p, d.named) && HoldsWrite(p)
    requires Local(d, p, d', p')
    ensures WriterState(d', p')
    ensures !HoldsWrite(p') ==> Settled(d')
  {
    if p.PutLocked? || p.InTxn? {
      PutStepKeepsState(d, p, d', p');
    } else if p.Filling? {
      FillKeepsState(d, p, d', p');
    } else if p.BulkScanning? {
      BulkKeepsState(d, p, d', p');
    } else if p.Queried? {
      AnswerKeepsState(d, p, d', p');
    }
  }

  lemma RowsForAreRows(t: Table, missing: set<string>)
    ensures forall u :: u in RowsFor(t, missing) ==> Has(t, RowsFor(t, missing)[u], u)
  {
  }

  /** Taking the write lock starts from settled data. */
  lemma EnteringState(d: Data, p: PC, p': PC)
    requires Settled(d) && Carries(p, d.named) && !HoldsWrite(p) && HoldsWrite(p') && Local(d, p, d, p')
    ensures WriterState(d, p')
  {
    if p.PutCalled? {
      assert p'.PutLocked?;
    } else if p.BulkGap? {
      RowsForAreRows(d.mem.table, p.missing);
    }
  }

  /** Every step of every thread keeps the invariant. */
  lemma NextKeepsInv(s: Sys, s': Sys, t: Tid)
    requires Inv(s) && Next(s, s', t)
    ensures Inv(s')
  {
    var p, p' := s.pc[t], s'.pc[t];
    StepOrderly(s.data, p, s'.data, p');
    LockingKeepsAgreement(s, s', t);
    if HoldsWrite(p) {
      WriterKeepsState(s.data, p, s'.data, p');
    } else if HoldsWrite(p') {
      EnteringState(s.data, p, p');
    }
  }
}

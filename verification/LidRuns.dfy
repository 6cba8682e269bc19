/** Whole runs of the LID map against a cache-free reference store. */
module LidRuns {
  import opened LidTable
  import opened LidCache
  import opened LidPuts
  import opened LidBatch
  import Sql

  /** One call.  `rows` and `fault` are what the database does during it; puts are the
      committed ones. */
  datatype Op =
    | Fill(rows: seq<Row>, fault: bool)
    | Lookup(dir: Direction, user: string, fault: bool)
    | Bulk(pns: seq<JID>, rows: seq<Row>, fault: bool)
    | PutOne(m: Mapping)
    | PutMany(ms: seq<Mapping>)

  datatype Reply = Failed | Done | Found(user: string) | FoundMany(users: map<JID, string>)

  ghost function Next(s: Store, op: Op): Store {
    match op
    case Fill(rows, fault) => FillNext(s, rows, fault)
    case Lookup(dir, user, fault) => LookupNext(s, dir, user, fault)
    case Bulk(pns, rows, fault) => BulkNext(s, rows)
    case PutOne(m) => PutOneNext(s, m, Sql.NoFault)
    case PutMany(ms) => PutManyNext(s, ms, Sql.NoFault)
  }

  ghost function ReplyOf(s: Store, op: Op): Reply {
    match op
    case Lookup(dir, user, fault) =>
      var answer := LookupAnswer(s, dir, user, fault);
      if answer.None? then Failed else Found(answer.value)
    case Bulk(pns, rows, fault) =>
      if fault && MissingUsers(s, pns) != {} then Failed else FoundMany(Users(BulkAnswer(s, pns, rows)))
    case Fill(_, fault) => if fault then Failed else Done
    case _ => Done
  }

  /** The reference store is the table alone: it has no caches and its batches are puts of
      the valid entries one after the other. */
  ghost function ReferenceNext(t: Table, op: Op): Table {
    match op
    case PutOne(m) => if ValidEntry(m) then Put(t, m.lid.user, m.pn.user) else t
    case PutMany(ms) => PutEach(t, ms)
    case _ => t
  }

  function PutEach(t: Table, ms: seq<Mapping>): Table {
    if ms == [] then t
    else
      var before, last := PutEach(t, ms[..|ms| - 1]), ms[|ms| - 1];
      if ValidEntry(last) then Put(before, last.lid.user, last.pn.user) else before
  }

  ghost function ReferenceReply(t: Table, op: Op): Reply {
    match op
    case Lookup(dir, user, _) => Found(Query(t, dir, user))
    case Bulk(pns, _, _) => FoundMany(BulkReference(t, pns))
    case _ => Done
  }

  /** The database delivers rows of the table, users are not empty, and no batch contradicts
      itself (LidClash.BatchMeaningIff shows that this is needed). */
  ghost predicate Allowed(s: Store, op: Op) {
    match op
    case Fill(rows, fault) => Delivers(s.table, s.table.Values, rows, fault)
    case Bulk(pns, rows, fault) => Delivers(s.table, MissingUsers(s, pns), rows, fault)
    case PutOne(m) => NonEmptyPairs(Pairs([m]))
    case PutMany(ms) => Consistent(Pairs(ms)) && NonEmptyPairs(Pairs(ms))
    case Lookup(_, _, _) => true
  }

  ghost predicate MayFail(op: Op) {
    !op.PutOne? && !op.PutMany? && op.fault
  }

  lemma {:induction false} PutEachIsSinglePuts(s: Store, ms: seq<Mapping>)
    requires Coherent(s) && Consistent(Pairs(ms)) && NonEmptyPairs(Pairs(ms))
    ensures PutEach(s.table, ms) == SinglePuts(s, ms).table
  {
    if ms != [] {
      var front, last := ms[..|ms| - 1], ms[|ms| - 1];
      PairsSplit(ms);
      PutEachIsSinglePuts(s, front);
      SinglePutsMerge(s, front);
      if ValidEntry(last) {
        assert (last.lid.user, last.pn.user) in Pairs(ms);
        PutRefines(SinglePuts(s, front), last.lid.user, last.pn.user);
      }
    }
  }

  lemma PutOneRefines(s: Store, m: Mapping)
    requires Coherent(s) && Allowed(s, PutOne(m))
    ensures Coherent(Next(s, PutOne(m)))
    ensures Next(s, PutOne(m)).table == ReferenceNext(s.table, PutOne(m))
  {
    if ValidEntry(m) {
      assert (m.lid.user, m.pn.user) in Pairs([m]);
      PutRefines(s, m.lid.user, m.pn.user);
      PutKeepsCoherence(s, m.lid.user, m.pn.user);
      CommittedPutOne(s, m, Sql.NoFault);
    }
  }

  lemma LookupRefines(s: Store, dir: Direction, user: string, fault: bool)
    requires Coherent(s)
    ensures var op := Lookup(dir, user, fault);
            && Coherent(Next(s, op)) && Next(s, op).table == s.table
            && (ReplyOf(s, op) == ReferenceReply(s.table, op) || (ReplyOf(s, op) == Failed && fault))
  {
    LookupKeepsCoherence(s, dir, user, fault);
    CachesRightAt(s, user);
    LookupExact(s, dir, user, fault);
  }

  lemma BulkRefines(s: Store, pns: seq<JID>, rows: seq<Row>, fault: bool)
    requires Coherent(s) && Delivers(s.table, MissingUsers(s, pns), rows, fault)
    ensures var op := Bulk(pns, rows, fault);
            && Coherent(Next(s, op)) && Next(s, op).table == s.table
            && (ReplyOf(s, op) == ReferenceReply(s.table, op) || (ReplyOf(s, op) == Failed && fault))
  {
    ScanKeepsCoherence(s, rows);
    if !fault || MissingUsers(s, pns) == {} {
      BulkExact(s, pns, rows);
    }
  }

  lemma PutManyRefines(s: Store, ms: seq<Mapping>)
    requires Coherent(s) && Allowed(s, PutMany(ms))
    ensures Coherent(Next(s, PutMany(ms)))
    ensures Next(s, PutMany(ms)).table == ReferenceNext(s.table, PutMany(ms))
  {
    CommittedBatch(s, ms, Sql.NoFault);
    BatchEqualsSinglePuts(s, ms, Sql.NoFault);
    PutEachIsSinglePuts(s, ms);
  }

  lemma StepRefines(s: Store, op: Op)
    requires Coherent(s) && Allowed(s, op)
    ensures Coherent(Next(s, op))
    ensures Next(s, op).table == ReferenceNext(s.table, op)
    ensures ReplyOf(s, op) == ReferenceReply(s.table, op) || (ReplyOf(s, op) == Failed && MayFail(op))
  {
    match op
    case Fill(rows, fault) =>
      FillKeepsCoherence(s, rows, fault);
    case Lookup(dir, user, fault) =>
      LookupRefines(s, dir, user, fault);
    case Bulk(pns, rows, fault) =>
      BulkRefines(s, pns, rows, fault);
    case PutOne(m) =>
      PutOneRefines(s, m);
    case PutMany(ms) =>
      PutManyRefines(s, ms);
  }

  ghost predicate AllAllowed(s: Store, ops: seq<Op>)
    decreases |ops|
  {
    ops != [] ==> Allowed(s, ops[0]) && AllAllowed(Next(s, ops[0]), ops[1..])
  }

  ghost function Run(s: Store, ops: seq<Op>): Store
    decreases |ops|
  {
    if ops == [] then s else Run(Next(s, ops[0]), ops[1..])
  }

  ghost function Replies(s: Store, ops: seq<Op>): seq<Reply>
    decreases |ops|
  {
    if ops == [] then [] else [ReplyOf(s, ops[0])] + Replies(Next(s, ops[0]), ops[1..])
  }

  ghost function ReferenceRun(t: Table, ops: seq<Op>): Table
    decreases |ops|
  {
    if ops == [] then t else ReferenceRun(ReferenceNext(t, ops[0]), ops[1..])
  }

  ghost function ReferenceReplies(t: Table, ops: seq<Op>): seq<Reply>
    decreases |ops|
  {
    if ops == [] then [] else [ReferenceReply(t, ops[0])] + ReferenceReplies(ReferenceNext(t, ops[0]), ops[1..])
  }

  /** Refinement: over any run of fills, lookups, bulk lookups and committed puts, the cached
      store gives the reference replies (or reports the database failure of that very call),
      ends with the reference table, and its caches stay coherent. */
  lemma {:induction false} RunRefines(s: Store, ops: seq<Op>)
    requires Coherent(s) && AllAllowed(s, ops)
    decreases |ops|
    ensures Coherent(Run(s, ops))
    ensures Run(s, ops).table == ReferenceRun(s.table, ops)
    ensures |Replies(s, ops)| == |ReferenceReplies(s.table, ops)| == |ops|
    ensures forall i :: 0 <= i < |ops| ==>
              || Replies(s, ops)[i] == ReferenceReplies(s.table, ops)[i]
              || (Replies(s, ops)[i] == Failed && MayFail(ops[i]))
  {
    if ops != [] {
      StepRefines(s, ops[0]);
      RunRefines(Next(s, ops[0]), ops[1..]);
    }
  }

  /** The op puts this entry, alone or in a batch. */
  predicate Puts(op: Op, m: Mapping) {
    op == PutOne(m) || (op.PutMany? && m in op.ms)
  }

  lemma PutsRow(s: Store, op: Op, m: Mapping)
    requires Coherent(s) && Allowed(s, op) && Puts(op, m)
    requires m.lid.server == LID_SERVER && m.pn.server == PN_SERVER
    ensures Has(Next(s, op).table, m.lid.user, m.pn.user)
  {
    if op.PutOne? {
      PutOneRefines(s, m);
      PutRows(s.table, m.lid.user, m.pn.user, m.lid.user, m.pn.user);
    } else {
      CommittedBatch(s, op.ms, Sql.NoFault);
      assert (m.lid.user, m.pn.user) in Pairs(op.ms);
    }
  }

  /** After any run, whoever has put a mapping with the right servers looks it up in either
      direction, unless the database fails. */
  lemma ReadsOwnPuts(s: Store, ops: seq<Op>, op: Op, m: Mapping, fault: bool)
    requires Coherent(s) && AllAllowed(s, ops) && Allowed(Run(s, ops), op) && Puts(op, m)
    requires m.lid.server == LID_SERVER && m.pn.server == PN_SERVER
    ensures var s' := Next(Run(s, ops), op);
            && (ReplyOf(s', Lookup(PnToLid, m.pn.user, fault)) == Found(m.lid.user)
                || (fault && ReplyOf(s', Lookup(PnToLid, m.pn.user, fault)) == Failed))
            && (ReplyOf(s', Lookup(LidToPn, m.lid.user, fault)) == Found(m.pn.user)
                || (fault && ReplyOf(s', Lookup(LidToPn, m.lid.user, fault)) == Failed))
  {
    RunRefines(s, ops);
    var s1 := Run(s, ops);
    var s' := Next(s1, op);
    StepRefines(s1, op);
    PutsRow(s1, op, m);
    LookupsAtRow(s'.table, m.lid.user, m.pn.user);
    LookupRefines(s', PnToLid, m.pn.user, fault);
    LookupRefines(s', LidToPn, m.lid.user, fault);
  }

  // ---------------------------------------------------------------- runs without conditions

  /** The database delivers rows of the table; the caller may put anything. */
  ghost predicate Possible(s: Store, op: Op) {
    match op
    case Fill(rows, fault) => Delivers(s.table, s.table.Values, rows, fault)
    case Bulk(pns, rows, fault) => Delivers(s.table, MissingUsers(s, pns), rows, fault)
    case _ => true
  }

  ghost predicate AllPossible(s: Store, ops: seq<Op>)
    decreases |ops|
  {
    ops != [] ==> Possible(s, ops[0]) && AllPossible(Next(s, ops[0]), ops[1..])
  }

  lemma {:induction false} PutAllKeepsRight(s: Store, ms: seq<Mapping>)
    requires RightForUsers(s)
    ensures RightForUsers(PutAll(s, ms))
  {
    if ms != [] {
      var front, last := ms[..|ms| - 1], ms[|ms| - 1];
      PutAllKeepsRight(s, front);
      PutKeepsRight(PutAll(s, front), {""}, last.lid.user, last.pn.user);
    }
  }

  lemma StepKeepsRight(s: Store, op: Op)
    requires RightForUsers(s) && Possible(s, op)
    ensures RightForUsers(Next(s, op))
  {
    match op
    case Fill(rows, fault) => FillKeepsRight(s, {""}, rows, fault);
    case Lookup(dir, user, fault) => LookupKeepsRight(s, {""}, dir, user, fault);
    case Bulk(pns, rows, fault) => ScanKeepsRight(s, {""}, rows);
    case PutOne(m) =>
      if !Dropped(s, m) {
        PutAllKeepsRight(s, [m]);
      }
    case PutMany(ms) => PutAllKeepsRight(s, Work(s, ms));
  }

  /** Over any run at all, with clashing batches and empty users among the puts, every lookup of
      a named user that does not fail answers what the table says at that moment. */
  lemma {:induction false} AnyRunAnswers(s: Store, ops: seq<Op>, i: nat)
    requires RightForUsers(s) && AllPossible(s, ops)
    requires i < |ops| && ops[i].Lookup? && ops[i].user != ""
    decreases |ops|
    ensures |Replies(s, ops)| == |ops|
    ensures RightForUsers(Run(s, ops[..i]))
    ensures || Replies(s, ops)[i] == Found(Query(Run(s, ops[..i]).table, ops[i].dir, ops[i].user))
            || (Replies(s, ops)[i] == Failed && ops[i].fault)
  {
    RepliesLength(s, ops);
    if i == 0 {
      LookupExact(s, ops[0].dir, ops[0].user, ops[0].fault);
    } else {
      StepKeepsRight(s, ops[0]);
      AnyRunAnswers(Next(s, ops[0]), ops[1..], i - 1);
      assert ops[..i][1..] == ops[1..][..i - 1];
    }
  }

  lemma {:induction false} RepliesLength(s: Store, ops: seq<Op>)
    decreases |ops|
    ensures |Replies(s, ops)| == |ops|
  {
    if ops != [] {
      RepliesLength(Next(s, ops[0]), ops[1..]);
    }
  }
}

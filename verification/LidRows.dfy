/** What the calls of the LID map promise, in terms of rows, cache entries, servers and devices
    alone: the contracts of LidMap, and why its state functions meet them. */
module LidRows {
  import opened Sql
  import opened LidTable
  import opened LidCache
  import opened LidPuts
  import opened LidBatch

  /** What a bulk answer says, cached entry by cached entry and row by row. */
  ghost predicate AnswersInRows(s: Store, pns: seq<JID>, rows: seq<Row>, result: map<JID, JID>) {
    && (forall j :: j in result <==>
          && j in pns && j.server == PN_SERVER
          && (Get(s.pnToLid, j.user) != "" || (!s.filled && exists r :: r in rows && r.pn == j.user)))
    && (forall j :: j in result && Get(s.pnToLid, j.user) != "" ==>
          result[j] == JID(s.pnToLid[j.user], j.device, LID_SERVER))
    && (forall j, r :: j in result && Get(s.pnToLid, j.user) == "" && r in rows && r.pn == j.user ==>
          result[j] == JID(r.lid, 0, LID_SERVER))
  }

  lemma BulkAnswersInRows(s: Store, pns: seq<JID>, rows: seq<Row>)
    requires UniquePn(s.table) && forall r :: r in rows ==> Has(s.table, r.lid, r.pn) && r.pn in MissingUsers(s, pns)
    ensures AnswersInRows(s, pns, rows, BulkAnswer(s, pns, rows))
    ensures Coherent(s) ==>
              forall j :: j in BulkAnswer(s, pns, rows) ==> Has(s.table, BulkAnswer(s, pns, rows)[j].user, j.user)
  {
    var result := BulkAnswer(s, pns, rows);
    forall j, r | j in result && Get(s.pnToLid, j.user) == "" && r in rows && r.pn == j.user
      ensures result[j] == JID(r.lid, 0, LID_SERVER)
    {
      LookupsAtRow(s.table, r.lid, r.pn);
      LookupsAtRow(s.table, RowLid(rows, j.user), j.user);
    }
    forall j | Coherent(s) && j in result
      ensures Has(s.table, result[j].user, j.user)
    {
      AnswerIsRow(s.table, j.user);
    }
  }

  lemma MissingIff(s: Store, pns: seq<JID>)
    ensures MissingUsers(s, pns) != {} <==>
              && !s.filled
              && exists j :: j in pns && j.server == PN_SERVER && Get(s.pnToLid, j.user) == ""
  {
    if j :| j in pns && Missing(s, j) {
      assert j.user in MissingUsers(s, pns);
    }
  }

  lemma NothingDelivered(t: Table, rows: seq<Row>, fault: bool)
    requires Delivers(t, {}, rows, fault)
    ensures rows == []
  {
    if rows != [] {
      FirstDelivered(rows);
    }
  }

  lemma FirstDelivered(rows: seq<Row>)
    requires rows != []
    ensures rows[0] in rows
  {
  }

  lemma BulkComplete(s: Store, pns: seq<JID>, rows: seq<Row>)
    requires Coherent(s) && Delivers(s.table, MissingUsers(s, pns), rows, false)
    ensures Users(BulkAnswer(s, pns, rows)) == BulkReference(s.table, pns)
    ensures forall j :: j in pns && j.server == PN_SERVER && j.user in s.table.Values ==> j in BulkAnswer(s, pns, rows)
  {
    BulkExact(s, pns, rows);
    forall j | j in pns && j.server == PN_SERVER && j.user in s.table.Values
      ensures j in BulkAnswer(s, pns, rows)
    {
      var l :| l in s.table && s.table[l] == j.user;
      LookupsAtRow(s.table, l, j.user);
      BulkExactAt(s, pns, rows, j);
    }
  }

  /** The JID that the table answers, row by row. */
  lemma TableAnswer(s: Store, dir: Direction, source: JID, server: string)
    requires Coherent(s)
    ensures var r := ToJid(Query(s.table, dir, source.user), source.device, server);
            if dir.PnToLid? then
              && (forall l :: l in s.table && s.table[l] == source.user ==> r == JID(l, source.device, server))
              && (source.user !in s.table.Values ==> r == JID("", 0, ""))
            else
              r == if source.user in s.table then JID(s.table[source.user], source.device, server) else JID("", 0, "")
  {
    forall l | l in s.table && s.table[l] == source.user
      ensures LidOf(s.table, source.user) == l
    {
      LookupsAtRow(s.table, l, source.user);
    }
    AnswerIsRow(s.table, source.user);
  }

  /** The rows of t' are the pairs of the entries, of contradicting ones the later one, and the
      rows of t that share no user with any of them. */
  ghost predicate LaterWin(t: Table, work: seq<Mapping>, t': Table) {
    forall l, p :: Has(t', l, p) <==>
      || (exists i :: LastFor(work, i, l, p))
      || (Has(t, l, p) && forall m :: m in work ==> m.lid.user != l && m.pn.user != p)
  }

  lemma PutsInOrder(s: Store, work: seq<Mapping>)
    ensures LaterWin(s.table, work, PutAll(s, work).table)
  {
    forall l, p
      ensures Has(PutAll(s, work).table, l, p) <==>
                || (exists i :: LastFor(work, i, l, p))
                || (Has(s.table, l, p) && forall m :: m in work ==> m.lid.user != l && m.pn.user != p)
    {
      LaterPairsWin(s, work, l, p);
    }
  }

  /** The rows of t' are the pair, and the rows of t that share no user with it. */
  ghost predicate PutsPair(t: Table, lid: string, pn: string, t': Table) {
    forall l, p :: Has(t', l, p) <==> (l, p) == (lid, pn) || (Has(t, l, p) && l != lid && p != pn)
  }

  lemma PutNextFacts(s: Store, lid: string, pn: string)
    requires Coherent(s) && lid != "" && pn != ""
    ensures Coherent(PutNext(s, lid, pn)) && PutNext(s, lid, pn).table == Put(s.table, lid, pn)
    ensures PutsPair(s.table, lid, pn, Put(s.table, lid, pn))
    ensures CachesPair(s, lid, pn, PutNext(s, lid, pn)) && CachesPair(s, lid, pn, PutCaches(s, lid, pn))
  {
    PutRefines(s, lid, pn);
    PutKeepsCoherence(s, lid, pn);
    PutCachesPair(s, lid, pn);
    if Cached(s, lid, pn) {
      CachedIsPair(s, lid, pn);
    }
    forall l, p
      ensures Has(Put(s.table, lid, pn), l, p) <==> (l, p) == (lid, pn) || (Has(s.table, l, p) && l != lid && p != pn)
    {
      PutRows(s.table, lid, pn, l, p);
    }
  }

  /** The transaction of a single put. */
  lemma OnePut(s: Store, lid: JID, pn: JID, fault: Fault)
    ensures InTransaction(s, [Mapping(lid, pn)], fault) ==
            if fault.NoFault? || fault.step > 3 then UnlockedPut(s, lid.user, pn.user)
            else if fault.step == 3 then PutCaches(s, lid.user, pn.user)
            else s
  {
    var work := [Mapping(lid, pn)];
    assert work[..0] == [] && work[..1] == work;
    assert PutAll(s, work) == UnlockedPut(PutAll(s, work[..0]), lid.user, pn.user);
    assert PutAll(s, work).(table := s.table) == PutCaches(s, lid.user, pn.user);
  }

  /** `a` is in the list before any `b`. */
  ghost predicate OccursFirst(ms: seq<Mapping>, a: Mapping, b: Mapping) {
    exists i :: 0 <= i < |ms| && ms[i] == a && b !in ms[..i + 1]
  }

  lemma WorkInOrder(s: Store, ms: seq<Mapping>, work: seq<Mapping>)
    requires work == Work(s, ms)
    ensures forall m :: m in work <==>
              && m in ms && m.lid.server == LID_SERVER && m.pn.server == PN_SERVER
              && !(m.pn.user in s.pnToLid && s.pnToLid[m.pn.user] == m.lid.user)
    ensures forall i, j :: 0 <= i < j < |work| ==> work[i] != work[j]
    ensures forall i, j :: 0 <= i < j < |work| ==> OccursFirst(ms, work[i], work[j])
  {
    KeptPairs(s, ms);
    DedupSameElements(Kept(s, ms));
    forall i, j | 0 <= i < j < |work|
      ensures OccursFirst(ms, work[i], work[j])
    {
      var a := WorkOrder(s, ms, i, j);
    }
  }

  /** A committed batch that does not contradict itself. */
  lemma ManyPuts(s: Store, ms: seq<Mapping>, fault: Fault)
    requires Coherent(s) && Consistent(Pairs(ms)) && NonEmptyPairs(Pairs(ms))
    requires Work(s, ms) == [] || Commits(fault, |Work(s, ms)|)
    ensures var s' := PutManyNext(s, ms, fault);
            Coherent(s') && IsMerge(s.table, Pairs(ms), s'.table) && MergesEntries(s.table, ms, s'.table)
  {
    CommittedBatch(s, ms, if Work(s, ms) == [] then NoFault else fault);
    MergeOfEntries(s.table, ms, PutManyNext(s, ms, fault).table);
  }

  /** How many puts a batch takes. */
  lemma ManyCount(s: Store, ms: seq<Mapping>)
    ensures |Work(s, ms)| == |set m | m in ms && m.lid.server == LID_SERVER && m.pn.server == PN_SERVER
                                      && !(m.pn.user in s.pnToLid && s.pnToLid[m.pn.user] == m.lid.user)|
  {
    WorkCount(s, ms);
    assert ToPut(s, ms) ==
           set m | m in ms && m.lid.server == LID_SERVER && m.pn.server == PN_SERVER
                   && !(m.pn.user in s.pnToLid && s.pnToLid[m.pn.user] == m.lid.user);
  }
}

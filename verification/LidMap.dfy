/** CachedLIDMap: the caches, the flag and the table, updated in place.  Every method says
    what it does to rows and entries, and is tied to the state functions of LidCache and LidBatch,
    where the properties of whole runs are proved. */
module LidMap {
  import opened Sql
  import opened LidTable
  import opened LidCache
  import opened LidPuts
  import opened LidBatch
  import opened LidRows

  datatype LidError = WrongServer | DatabaseError

  /** The first pass over `pns` has put exactly the cache hits into `result`. */
  ghost predicate HitsOf(s: Store, pns: seq<JID>, result: map<JID, JID>) {
    && (forall j :: j in result <==> j in pns && Hit(s, j))
    && (forall j :: j in result ==> result[j] == JID(Get(s.pnToLid, j.user), j.device, LID_SERVER))
  }

  /** The first pass over `pns` has grouped exactly the misses by user. */
  ghost predicate MissesOf(s: Store, pns: seq<JID>, missing: map<string, seq<JID>>) {
    && missing.Keys == MissingUsers(s, pns)
    && (forall u, j :: u in missing ==> (j in missing[u] <==> j in pns && Missing(s, j) && j.user == u))
  }

  lemma MissesExtend(s: Store, pns: seq<JID>, missing: map<string, seq<JID>>, pn: JID)
    requires MissesOf(s, pns, missing)
    ensures !Missing(s, pn) ==> MissesOf(s, pns + [pn], missing)
    ensures Missing(s, pn) ==>
              MissesOf(s, pns + [pn], missing[pn.user := (if pn.user in missing then missing[pn.user] else []) + [pn]])
  {
    var more := if Missing(s, pn) then {pn.user} else {};
    assert MissingUsers(s, pns + [pn]) == MissingUsers(s, pns) + more;
  }

  lemma HitsExtend(s: Store, pns: seq<JID>, result: map<JID, JID>, pn: JID)
    requires HitsOf(s, pns, result)
    ensures !Hit(s, pn) ==> HitsOf(s, pns + [pn], result)
    ensures Hit(s, pn) ==> HitsOf(s, pns + [pn], result[pn := JID(Get(s.pnToLid, pn.user), pn.device, LID_SERVER)])
  {
  }

  /** After the rows `rows`, `result` holds the hits and the misses that these rows answer. */
  ghost predicate AnsweredBy(s: Store, pns: seq<JID>, rows: seq<Row>, result: map<JID, JID>) {
    && (forall j :: j in result <==> j in pns && (Hit(s, j) || (Missing(s, j) && InRows(rows, j.user))))
    && (forall j :: j in result ==>
          result[j] == if Hit(s, j) then JID(Get(s.pnToLid, j.user), j.device, LID_SERVER)
                       else JID(LidOf(s.table, j.user), 0, LID_SERVER))
  }

  lemma AnsweredExtends(s: Store, pns: seq<JID>, rows: seq<Row>, result: map<JID, JID>,
                        row: Row, devices: seq<JID>)
    requires UniquePn(s.table) && Has(s.table, row.lid, row.pn)
    requires AnsweredBy(s, pns, rows, result)
    requires forall j :: j in devices <==> j in pns && Missing(s, j) && j.user == row.pn
    ensures AnsweredBy(s, pns, rows + [row], result + map dev | dev in devices :: JID(row.lid, 0, LID_SERVER))
  {
    LookupsAtRow(s.table, row.lid, row.pn);
    forall u: string
      ensures InRows(rows + [row], u) <==> InRows(rows, u) || u == row.pn
    {
      assert row in rows + [row];
      assert forall r :: r in rows ==> r in rows + [row];
    }
  }

  /** One round of the second pass. */
  lemma AnswerRound(s: Store, pns: seq<JID>, rows: seq<Row>, i: nat,
                    missing: map<string, seq<JID>>, result: map<JID, JID>)
    requires UniquePn(s.table) && MissesOf(s, pns, missing) && i < |rows|
    requires Has(s.table, rows[i].lid, rows[i].pn) && rows[i].pn in missing
    requires AnsweredBy(s, pns, rows[..i], result)
    ensures Scan(s, rows[..i + 1]) == CacheRow(Scan(s, rows[..i]), rows[i])
    ensures var found := map dev | dev in missing[rows[i].pn] :: JID(rows[i].lid, 0, LID_SERVER);
            AnsweredBy(s, pns, rows[..i + 1], result + found)
  {
    assert rows[..i + 1] == rows[..i] + [rows[i]];
    assert rows[..i + 1][..i] == rows[..i];
    AnsweredExtends(s, pns, rows[..i], result, rows[i], missing[rows[i].pn]);
  }

  lemma AnsweredIsAnswer(s: Store, pns: seq<JID>, rows: seq<Row>, result: map<JID, JID>)
    requires UniquePn(s.table) && (forall r :: r in rows ==> Has(s.table, r.lid, r.pn))
    requires AnsweredBy(s, pns, rows, result)
    ensures result == BulkAnswer(s, pns, rows)
  {
    forall j | j in result && !Hit(s, j)
      ensures RowLid(rows, j.user) == LidOf(s.table, j.user)
    {
      LookupsAtRow(s.table, RowLid(rows, j.user), j.user);
    }
  }

  /** A transaction that fails in its i-th put has finished the puts before it. */
  lemma FailedInside(s: Store, work: seq<Mapping>, fault: Fault, i: nat)
    requires i < |work| && (Fails(fault, 2 * i + 1) || Fails(fault, 2 * i + 2))
    ensures !Commits(fault, |work|)
    ensures InTransaction(s, work, fault) == PutAll(s, work[..i]).(table := s.table)
  {
    assert Finished(fault, |work|) == i;
  }

  class CachedLIDMap {
    /** The `lid_map` table; other processes are assumed not to write it. */
    var table: Table
    var pnToLIDCache: map<string, string>
    var lidToPNCache: map<string, string>
    var cacheFilled: bool

    ghost function State(): Store
      reads this
    {
      Store(table, pnToLIDCache, lidToPNCache, cacheFilled)
    }

    constructor (table: Table)
      ensures State() == Store(table, map[], map[], false)
      ensures WellFormed(table) ==> Coherent(State())
    {
      this.table := table;
      pnToLIDCache, lidToPNCache, cacheFilled := map[], map[], false;
    }

    method CacheOne(row: Row)
      modifies this`pnToLIDCache, this`lidToPNCache
      ensures State() == CacheRow(old(State()), row)
    {
      pnToLIDCache := pnToLIDCache[row.pn := row.lid];
      lidToPNCache := lidToPNCache[row.lid := row.pn];
    }

    method FillCache(rows: seq<Row>, fault: bool) returns (ok: bool)
      requires Delivers(table, table.Values, rows, fault)
      modifies this`pnToLIDCache, this`lidToPNCache, this`cacheFilled
      ensures ok == !fault && cacheFilled == !fault
      ensures UniquePn(table) ==> RowsCached(old(State()), rows, State())
      ensures State() == FillNext(old(State()), rows, fault)
      ensures Coherent(old(State())) ==> Coherent(State())
    {
      for i := 0 to |rows|
        invariant State() == Scan(old(State()), rows[..i])
      {
        CacheOne(rows[i]);
        assert rows[..i + 1][..i] == rows[..i];
      }
      assert rows[..|rows|] == rows;
      cacheFilled := !fault;
      ok := !fault;
      if UniquePn(table) {
        ScanExact(old(State()), rows);
      }
      if Coherent(old(State())) {
        FillKeepsCoherence(old(State()), rows, fault);
      }
    }

    /** The table's answer to one query; "" when there is no row. */
    method QueryRow(dir: Direction, user: string) returns (target: string)
      requires UniquePn(table)
      ensures target == Query(table, dir, user)
    {
      target := "";
      if dir.PnToLid? {
        if lid :| lid in table && table[lid] == user {
          LookupsAtRow(table, lid, user);
          target := lid;
        }
      } else if user in table {
        target := table[user];
      }
    }

    method GetLIDMapping(source: JID, targetServer: string, dir: Direction, fault: bool)
      returns (r: Result<JID, LidError>)
      requires UniquePn(table)
      modifies this`pnToLIDCache, this`lidToPNCache
      ensures State() == LookupNext(old(State()), dir, source.user, fault)
      ensures var answer := LookupAnswer(old(State()), dir, source.user, fault);
              r == if answer.None? then Err(DatabaseError) else Ok(ToJid(answer.value, source.device, targetServer))
      ensures Coherent(old(State())) ==> Coherent(State())
      ensures r == Err(DatabaseError) <==>
                fault && !cacheFilled && source.user !in old(if dir.PnToLid? then pnToLIDCache else lidToPNCache)
      ensures Coherent(old(State())) && r.Ok? ==>
                if dir.PnToLid? then
                  && (forall l :: l in table && table[l] == source.user ==>
                        r.value == JID(l, source.device, targetServer))
                  && (source.user !in table.Values ==> r.value == JID("", 0, ""))
                else
                  r.value == if source.user in table then JID(table[source.user], source.device, targetServer)
                             else JID("", 0, "")
    {
      if Coherent(State()) {
        TableAnswer(State(), dir, source, targetServer);
        LookupExact(State(), dir, source.user, fault);
        LookupKeepsCoherence(State(), dir, source.user, fault);
      }
      var sourceToTarget := if dir.PnToLid? then pnToLIDCache else lidToPNCache;
      if source.user in sourceToTarget || cacheFilled {
        var targetUser := Get(sourceToTarget, source.user);
        return Ok(ToJid(targetUser, source.device, targetServer));
      }
      if fault {
        return Err(DatabaseError);
      }
      var targetUser := QueryRow(dir, source.user);
      if dir.PnToLid? {
        pnToLIDCache := pnToLIDCache[source.user := targetUser];
        if targetUser != "" {
          lidToPNCache := lidToPNCache[targetUser := source.user];
        }
      } else {
        lidToPNCache := lidToPNCache[source.user := targetUser];
        if targetUser != "" {
          pnToLIDCache := pnToLIDCache[targetUser := source.user];
        }
      }
      r := Ok(ToJid(targetUser, source.device, targetServer));
    }

    method GetLIDForPN(pn: JID, fault: bool) returns (r: Result<JID, LidError>)
      requires UniquePn(table)
      modifies this`pnToLIDCache, this`lidToPNCache
      ensures Coherent(old(State())) ==> Coherent(State())
      ensures State() == if pn.server != PN_SERVER then old(State())
                         else LookupNext(old(State()), PnToLid, pn.user, fault)
      ensures r == Err(WrongServer) <==> pn.server != PN_SERVER
      ensures r == Err(DatabaseError) <==>
                pn.server == PN_SERVER && fault && !cacheFilled && pn.user !in old(pnToLIDCache)
      ensures Coherent(old(State())) && r.Ok? ==>
                && (forall l :: l in table && table[l] == pn.user ==> r.value == JID(l, pn.device, LID_SERVER))
                && (pn.user !in table.Values ==> r.value == JID("", 0, ""))
      ensures if r.Err? || cacheFilled || pn.user in old(pnToLIDCache) then State() == old(State())
              else
                && pnToLIDCache == old(pnToLIDCache)[pn.user := r.value.user]
                && lidToPNCache == if r.value.user == "" then old(lidToPNCache)
                                   else old(lidToPNCache)[r.value.user := pn.user]
    {
      if pn.server != PN_SERVER {
        return Err(WrongServer);
      }
      r := GetLIDMapping(pn, LID_SERVER, PnToLid, fault);
    }

    method GetPNForLID(lid: JID, fault: bool) returns (r: Result<JID, LidError>)
      requires UniquePn(table)
      modifies this`pnToLIDCache, this`lidToPNCache
      ensures Coherent(old(State())) ==> Coherent(State())
      ensures State() == if lid.server != LID_SERVER then old(State())
                         else LookupNext(old(State()), LidToPn, lid.user, fault)
      ensures r == Err(WrongServer) <==> lid.server != LID_SERVER
      ensures r == Err(DatabaseError) <==>
                lid.server == LID_SERVER && fault && !cacheFilled && lid.user !in old(lidToPNCache)
      ensures Coherent(old(State())) && r.Ok? ==>
                r.value == if lid.user in table then JID(table[lid.user], lid.device, PN_SERVER) else JID("", 0, "")
      ensures if r.Err? || cacheFilled || lid.user in old(lidToPNCache) then State() == old(State())
              else
                && lidToPNCache == old(lidToPNCache)[lid.user := r.value.user]
                && pnToLIDCache == if r.value.user == "" then old(pnToLIDCache)
                                   else old(pnToLIDCache)[r.value.user := lid.user]
    {
      if lid.server != LID_SERVER {
        return Err(WrongServer);
      }
      r := GetLIDMapping(lid, PN_SERVER, LidToPn, fault);
    }

    /** First pass of the bulk lookup: cache hits, and the JIDs to ask the database about. */
    method SplitHits(pns: seq<JID>) returns (result: map<JID, JID>, missing: map<string, seq<JID>>)
      ensures HitsOf(State(), pns, result) && MissesOf(State(), pns, missing)
    {
      ghost var s := State();
      result, missing := map[], map[];
      for i := 0 to |pns|
        invariant HitsOf(s, pns[..i], result) && MissesOf(s, pns[..i], missing)
      {
        var pn := pns[i];
        assert pns[..i + 1] == pns[..i] + [pn];
        MissesExtend(s, pns[..i], missing, pn);
        HitsExtend(s, pns[..i], result, pn);
        if pn.server == PN_SERVER {
          if pn.user in pnToLIDCache && pnToLIDCache[pn.user] != "" {
            result := result[pn := JID(pnToLIDCache[pn.user], pn.device, LID_SERVER)];
          } else if !cacheFilled {
            missing := missing[pn.user := (if pn.user in missing then missing[pn.user] else []) + [pn]];
          }
        }
      }
      assert pns[..|pns|] == pns;
    }

    /** Second pass: every row is cached, and answers the JIDs that were waiting for it. */
    method AnswerRows(ghost pns: seq<JID>, missing: map<string, seq<JID>>, hits: map<JID, JID>, rows: seq<Row>)
      returns (result: map<JID, JID>)
      requires UniquePn(table) && HitsOf(State(), pns, hits) && MissesOf(State(), pns, missing)
      requires forall r :: r in rows ==> Has(table, r.lid, r.pn) && r.pn in missing
      modifies this`pnToLIDCache, this`lidToPNCache
      ensures State() == Scan(old(State()), rows)
      ensures AnsweredBy(old(State()), pns, rows, result)
    {
      ghost var s := State();
      result := hits;
      for i := 0 to |rows|
        invariant State() == Scan(s, rows[..i])
        invariant AnsweredBy(s, pns, rows[..i], result)
      {
        var row := rows[i];
        assert row in rows;
        AnswerRound(s, pns, rows, i, missing, result);
        CacheOne(row);
        result := result + map dev | dev in missing[row.pn] :: JID(row.lid, 0, LID_SERVER);
      }
      assert rows[..|rows|] == rows;
    }

    method LookUpMany(pns: seq<JID>, rows: seq<Row>, fault: bool) returns (result: map<JID, JID>, ok: bool)
      requires UniquePn(table)
      requires Delivers(table, MissingUsers(State(), pns), rows, fault)
      modifies this`pnToLIDCache, this`lidToPNCache
      ensures State() == BulkNext(old(State()), rows)
      ensures result == BulkAnswer(old(State()), pns, rows)
      ensures ok == !(fault && MissingUsers(old(State()), pns) != {})
    {
      ghost var s := State();
      MissingIff(s, pns);
      if MissingUsers(s, pns) == {} {
        NothingDelivered(s.table, rows, fault);
      }
      if pns == [] {
        return map[], true;
      }
      var missing;
      result, missing := SplitHits(pns);
      if missing == map[] {
        AnsweredIsAnswer(s, pns, rows, result);
        return result, true;
      }
      result := AnswerRows(pns, missing, result, rows);
      AnsweredIsAnswer(s, pns, rows, result);
      ok := !fault;
    }

    method GetManyLIDsForPNs(pns: seq<JID>, rows: seq<Row>, fault: bool)
      returns (result: map<JID, JID>, ok: bool)
      requires UniquePn(table)
      requires Delivers(table, MissingUsers(State(), pns), rows, fault)
      modifies this`pnToLIDCache, this`lidToPNCache
      ensures AnswersInRows(old(State()), pns, rows, result)
      ensures RowsCached(old(State()), rows, State())
      ensures !ok <==>
                && fault && !cacheFilled
                && exists j :: j in pns && j.server == PN_SERVER && Get(old(pnToLIDCache), j.user) == ""
      ensures Coherent(old(State())) ==> Coherent(State())
      ensures Coherent(old(State())) ==> forall j :: j in result ==> Has(table, result[j].user, j.user)
      ensures Coherent(old(State())) && !fault ==>
                forall j :: j in pns && j.server == PN_SERVER && j.user in table.Values ==> j in result
      ensures Coherent(old(State())) && !fault ==> Users(result) == BulkReference(table, pns)
      ensures State() == BulkNext(old(State()), rows) && result == BulkAnswer(old(State()), pns, rows)
    {
      ghost var s := State();
      BulkAnswersInRows(s, pns, rows);
      ScanExact(s, rows);
      MissingIff(s, pns);
      if Coherent(s) {
        ScanKeepsCoherence(s, rows);
        if !fault {
          BulkComplete(s, pns, rows);
        }
      }
      result, ok := LookUpMany(pns, rows, fault);
    }

    /** The statements and cache updates of one put, inside a transaction.  `step` is the
        number of the first statement; a failed statement leaves the caches alone. */
    method UnlockedPutLIDMapping(m: Mapping, fault: Fault, step: nat) returns (ok: bool)
      requires ValidEntry(m)
      modifies this`table, this`pnToLIDCache, this`lidToPNCache
      ensures ok == !(Fails(fault, step) || Fails(fault, step + 1))
      ensures ok ==> State() == UnlockedPut(old(State()), m.lid.user, m.pn.user)
      ensures !ok ==> State().(table := old(table)) == old(State())
    {
      var lid, pn := m.lid.user, m.pn.user;
      StatementsPut(table, lid, pn);
      if Fails(fault, step) {
        return false;
      }
      table := DeleteOthers(table, lid, pn);
      if Fails(fault, step + 1) {
        return false;
      }
      var upserted := Upsert(table, lid, pn);
      if upserted.None? {
        return false;
      }
      table := upserted.value;
      var oldLID, oldPN := Get(pnToLIDCache, pn), Get(lidToPNCache, lid);
      pnToLIDCache := pnToLIDCache[pn := lid];
      lidToPNCache := lidToPNCache[lid := pn];
      if oldPN != "" && oldPN != pn && Get(pnToLIDCache, oldPN) == lid {
        pnToLIDCache := pnToLIDCache - {oldPN};
      }
      if oldLID != "" && oldLID != lid && Get(lidToPNCache, oldLID) == pn {
        lidToPNCache := lidToPNCache - {oldLID};
      }
      ok := true;
    }

    /** DoTxn around a list of puts: any failure restores the table. */
    method PutInTransaction(work: seq<Mapping>, fault: Fault) returns (ok: bool)
      requires forall m :: m in work ==> ValidEntry(m)
      modifies this`table, this`pnToLIDCache, this`lidToPNCache
      ensures ok <==> fault.NoFault? || fault.step > 2 * |work| + 1
      ensures !ok ==> table == old(table)
      ensures State() == InTransaction(old(State()), work, fault)
    {
      if Fails(fault, 0) {
        return false;
      }
      var snapshot := table;
      for i := 0 to |work|
        invariant State() == PutAll(old(State()), work[..i])
        invariant fault.NoFault? || fault.step > 2 * i
      {
        assert work[..i + 1][..i] == work[..i];
        var done := UnlockedPutLIDMapping(work[i], fault, 2 * i + 1);
        if !done {
          table := snapshot;
          FailedInside(old(State()), work, fault, i);
          return false;
        }
      }
      assert work[..|work|] == work;
      if Fails(fault, 2 * |work| + 1) {
        table := snapshot;
        assert Finished(fault, |work|) == |work|;
        return false;
      }
      ok := true;
    }

    method PutLIDMapping(lid: JID, pn: JID, fault: Fault) returns (r: Result<(), LidError>)
      modifies this`table, this`pnToLIDCache, this`lidToPNCache
      ensures r == Err(WrongServer) <==> lid.server != LID_SERVER || pn.server != PN_SERVER
      ensures r == Err(DatabaseError) <==>
                && lid.server == LID_SERVER && pn.server == PN_SERVER
                && !(pn.user in old(pnToLIDCache) && old(pnToLIDCache)[pn.user] == lid.user)
                && fault.FailAt? && fault.step <= 3
      ensures r.Err? ==> table == old(table)
      ensures r.Err? && fault != FailAt(3) ==> State() == old(State())
      ensures Coherent(old(State())) && r.Ok? && lid.user != "" && pn.user != "" ==>
                Coherent(State()) && table == Put(old(table), lid.user, pn.user) &&
                PutsPair(old(table), lid.user, pn.user, table)
      ensures Coherent(old(State())) && lid.user != "" && pn.user != "" &&
              (r.Ok? || (r == Err(DatabaseError) && fault == FailAt(3))) ==>
                CachesPair(old(State()), lid.user, pn.user, State())
      ensures State() == PutOneNext(old(State()), Mapping(lid, pn), fault)
    {
      if lid.server != LID_SERVER || pn.server != PN_SERVER {
        return Err(WrongServer);
      }
      ghost var s := State();
      if Coherent(s) && lid.user != "" && pn.user != "" {
        PutNextFacts(s, lid.user, pn.user);
      }
      if pn.user in pnToLIDCache && pnToLIDCache[pn.user] == lid.user {
        return Ok(());
      }
      var work := [Mapping(lid, pn)];
      OnePut(s, lid, pn, fault);
      var ok := PutInTransaction(work, fault);
      r := if ok then Ok(()) else Err(DatabaseError);
    }

    /** The entries that are valid and not cached. */
    method DropKnown(mappings: seq<Mapping>) returns (kept: seq<Mapping>)
      ensures kept == Kept(State(), mappings)
    {
      kept := [];
      for i := 0 to |mappings|
        invariant kept == Kept(State(), mappings[..i])
      {
        assert mappings[..i + 1][..i] == mappings[..i];
        var m := mappings[i];
        var invalid := m.lid.server != LID_SERVER || m.pn.server != PN_SERVER;
        if !(invalid || (m.pn.user in pnToLIDCache && pnToLIDCache[m.pn.user] == m.lid.user)) {
          kept := kept + [m];
        }
      }
      assert mappings[..|mappings|] == mappings;
    }

    static method Deduplicate(mappings: seq<Mapping>) returns (work: seq<Mapping>)
      ensures work == Dedup(mappings)
    {
      work := [];
      for i := 0 to |mappings|
        invariant work == Dedup(mappings[..i])
      {
        assert mappings[..i + 1][..i] == mappings[..i];
        if mappings[i] !in mappings[..i] {
          work := work + [mappings[i]];
        }
      }
      assert mappings[..|mappings|] == mappings;
    }

    /** The entries that are valid and not cached, then without repetitions, in order. */
    method Select(mappings: seq<Mapping>) returns (work: seq<Mapping>)
      ensures forall m :: m in work <==>
                && m in mappings && m.lid.server == LID_SERVER && m.pn.server == PN_SERVER
                && !(m.pn.user in pnToLIDCache && pnToLIDCache[m.pn.user] == m.lid.user)
      ensures forall i, j :: 0 <= i < j < |work| ==> work[i] != work[j]
      ensures forall i, j :: 0 <= i < j < |work| ==> OccursFirst(mappings, work[i], work[j])
      ensures work == Work(State(), mappings)
    {
      var kept := DropKnown(mappings);
      work := Deduplicate(kept);
      WorkInOrder(State(), mappings, work);
    }

    method PutManyLIDMappings(mappings: seq<Mapping>, fault: Fault) returns (ok: bool)
      modifies this`table, this`pnToLIDCache, this`lidToPNCache
      ensures var c := old(pnToLIDCache);
              var n := |set m | m in mappings && m.lid.server == LID_SERVER && m.pn.server == PN_SERVER
                                && !(m.pn.user in c && c[m.pn.user] == m.lid.user)|;
              ok <==> n == 0 || fault.NoFault? || fault.step > 2 * n + 1
      ensures !ok ==> table == old(table)
      ensures ok ==> LaterWin(old(table), Work(old(State()), mappings), table)
      ensures Coherent(old(State())) && Consistent(Pairs(mappings)) && NonEmptyPairs(Pairs(mappings)) && ok ==>
                && Coherent(State()) && IsMerge(old(table), Pairs(mappings), table)
                && MergesEntries(old(table), mappings, table)
      ensures State() == PutManyNext(old(State()), mappings, fault)
    {
      ghost var s := State();
      ManyCount(s, mappings);
      PutsInOrder(s, Work(s, mappings));
      var work := Select(mappings);
      if Coherent(s) && Consistent(Pairs(mappings)) && NonEmptyPairs(Pairs(mappings)) {
        if work == [] || Commits(fault, |work|) {
          ManyPuts(s, mappings, fault);
        }
      }
      if work == [] {
        return true;
      }
      ok := PutInTransaction(work, fault);
    }
  }
}

/** What a batch leaves behind when its transaction rolls back: the table is restored and the
    cache entries of the puts that were finished are not. */
module LidRollback {
  import opened Sql
  import opened LidTable
  import opened LidCache
  import opened LidPuts
  import opened LidBatch

  /** The puts that were finished when the transaction failed. */
  function DoneOf(s: Store, ms: seq<Mapping>, fault: Fault): seq<Mapping>
    requires !Commits(fault, |Work(s, ms)|)
  {
    Work(s, ms)[..Finished(fault, |Work(s, ms)|)]
  }

  lemma DoneEntries(s: Store, ms: seq<Mapping>, fault: Fault)
    requires NonEmptyPairs(Pairs(ms)) && !Commits(fault, |Work(s, ms)|)
    ensures forall m :: m in DoneOf(s, ms, fault) ==> m in Work(s, ms) && m in ms && ValidEntry(m)
    ensures NamedEntries(DoneOf(s, ms, fault)) && Pairs(DoneOf(s, ms, fault)) <= Pairs(ms)
  {
    KeptPairs(s, ms);
    DedupSameElements(Kept(s, ms));
    assert forall m :: m in DoneOf(s, ms, fault) ==> m in Work(s, ms);
    forall m | m in DoneOf(s, ms, fault)
      ensures m.lid.user != "" && m.pn.user != ""
    {
      assert (m.lid.user, m.pn.user) in Pairs(ms);
    }
  }

  /** Puts write no absences: those that are cached afterwards were cached before. */
  lemma {:induction false} AbsencesAreOld(s: Store, ws: seq<Mapping>, user: string)
    requires NamedEntries(ws)
    ensures user in PutAll(s, ws).pnToLid && PutAll(s, ws).pnToLid[user] == "" ==>
              user in s.pnToLid && s.pnToLid[user] == ""
    ensures user in PutAll(s, ws).lidToPn && PutAll(s, ws).lidToPn[user] == "" ==>
              user in s.lidToPn && s.lidToPn[user] == ""
  {
    if ws != [] {
      var front, last := ws[..|ws| - 1], ws[|ws| - 1];
      assert ws == front + [last];
      AbsencesAreOld(s, front, user);
    }
  }

  /** A row that the puts have made is cached. */
  lemma {:induction false} NewRowsCached(s: Store, ws: seq<Mapping>, l: string, p: string)
    requires Has(PutAll(s, ws).table, l, p) && !Has(s.table, l, p)
    ensures l in PutAll(s, ws).lidToPn && PutAll(s, ws).lidToPn[l] == p
  {
    if ws != [] {
      var front, last := ws[..|ws| - 1], ws[|ws| - 1];
      var before := PutAll(s, front);
      PutRows(before.table, last.lid.user, last.pn.user, l, p);
      if Has(before.table, l, p) {
        NewRowsCached(s, front, l, p);
      }
    }
  }

  /** Restoring a table that has all rows of the new one leaves the entries right. */
  lemma RestoredAgrees(s: Store, s': Store, t: Table, user: string)
    requires CachesRight(s') && UniquePn(t) && (forall l :: l in s'.table ==> Has(t, l, s'.table[l]))
    requires user in s'.pnToLid && s'.pnToLid[user] == "" ==> LidOf(t, user) == ""
    requires user in s'.lidToPn && s'.lidToPn[user] == "" ==> PnOf(t, user) == ""
    ensures AgreesAt(s'.(table := t), user)
  {
    AnswerIsRow(s'.table, user);
    if Get(s'.pnToLid, user) != "" {
      LookupsAtRow(t, s'.pnToLid[user], user);
    }
  }

  /** Every row of t is a row of t2. */
  ghost predicate RowsWithin(t: Table, t2: Table) {
    forall l :: l in t ==> Has(t2, l, t[l])
  }

  /** The puts have made no row that was not there before and, where the caches of s promise to
      be complete, have lost none. */
  ghost predicate NothingNew(s: Store, t: Table) {
    RowsWithin(t, s.table) && (s.filled ==> RowsWithin(s.table, t))
  }

  lemma HarmlessRollback(s: Store, ws: seq<Mapping>)
    requires Coherent(s) && NamedEntries(ws) && NothingNew(s, PutAll(s, ws).table)
    ensures Coherent(PutAll(s, ws).(table := s.table))
  {
    var s' := PutAll(s, ws);
    var r := s'.(table := s.table);
    PutAllCoherent(s, ws);
    forall user
      ensures AgreesAt(r, user)
    {
      AbsencesAreOld(s, ws, user);
      RestoredAgrees(s, s', s.table, user);
    }
    assert EntriesAgree(r) by {
      assert forall user :: user in r.pnToLid || user in r.lidToPn ==> AgreesAt(r, user);
    }
    assert EntriesPaired(r);
    assert FilledMeansAll(r);
  }

  /** Coherent caches after a rollback know no row that was not there before. */
  lemma NoNewRows(s: Store, ws: seq<Mapping>, l: string)
    requires Coherent(s) && NamedEntries(ws) && Coherent(PutAll(s, ws).(table := s.table))
    requires l in PutAll(s, ws).table
    ensures Has(s.table, l, PutAll(s, ws).table[l])
  {
    var s' := PutAll(s, ws);
    PutAllCoherent(s, ws);
    if !Has(s.table, l, s'.table[l]) {
      NewRowsCached(s, ws, l, s'.table[l]);
      AnswerIsRow(s.table, l);
    }
  }

  /** And complete ones have lost none. */
  lemma NoLostRows(s: Store, ws: seq<Mapping>, l: string)
    requires Coherent(s) && NamedEntries(ws) && Coherent(PutAll(s, ws).(table := s.table))
    requires s.filled && l in s.table
    ensures Has(PutAll(s, ws).table, l, s.table[l])
  {
    var s' := PutAll(s, ws);
    PutAllCoherent(s, ws);
    assert s'.lidToPn[l] == s.table[l];
    AnswerIsRow(s'.table, l);
  }

  lemma RestoredIff(s: Store, ws: seq<Mapping>)
    requires Coherent(s) && NamedEntries(ws)
    ensures Coherent(PutAll(s, ws).(table := s.table)) <==> NothingNew(s, PutAll(s, ws).table)
  {
    var t := PutAll(s, ws).table;
    if NothingNew(s, t) {
      HarmlessRollback(s, ws);
    }
    if Coherent(PutAll(s, ws).(table := s.table)) {
      forall l | l in t
        ensures Has(s.table, l, t[l])
      {
        NoNewRows(s, ws, l);
      }
      forall l | s.filled && l in s.table
        ensures Has(t, l, s.table[l])
      {
        NoLostRows(s, ws, l);
      }
    }
  }

  /** The exact condition for any batch of named users, whether it contradicts itself or not:
      the caches are coherent after a rollback if and only if the finished puts had made no row
      that was not there before and, where the caches are complete, had lost none. */
  lemma RolledBackBatch(s: Store, ms: seq<Mapping>, fault: Fault)
    requires Coherent(s) && NonEmptyPairs(Pairs(ms))
    requires Work(s, ms) != [] && !Commits(fault, |Work(s, ms)|)
    ensures PutManyNext(s, ms, fault).table == s.table
    ensures Coherent(PutManyNext(s, ms, fault)) <==> NothingNew(s, PutAll(s, DoneOf(s, ms, fault)).table)
  {
    DoneEntries(s, ms, fault);
    RestoredIff(s, DoneOf(s, ms, fault));
  }

  /** Puts of rows change nothing. */
  lemma PutsOfRows(s: Store, ws: seq<Mapping>)
    requires Coherent(s) && (forall m :: m in ws ==> ValidEntry(m))
    requires Consistent(Pairs(ws)) && NonEmptyPairs(Pairs(ws))
    requires forall a :: a in Pairs(ws) ==> Has(s.table, a.0, a.1)
    ensures PutAll(s, ws).table == s.table
  {
    PutAllMerges(s, ws);
    assert IsMerge(s.table, {}, s.table);
    MergeIgnoresRows(s.table, Pairs(ws), {}, s.table);
    MergeUnique(s.table, Pairs(ws), s.table, PutAll(s, ws).table);
  }

  lemma ConsistentRowsWithin(s: Store, ws: seq<Mapping>)
    requires Coherent(s) && (forall m :: m in ws ==> ValidEntry(m))
    requires Consistent(Pairs(ws)) && NonEmptyPairs(Pairs(ws))
    ensures NothingNew(s, PutAll(s, ws).table) <==> forall a :: a in Pairs(ws) ==> Has(s.table, a.0, a.1)
  {
    if forall a :: a in Pairs(ws) ==> Has(s.table, a.0, a.1) {
      PutsOfRows(s, ws);
    } else {
      PutAllMerges(s, ws);
      var a :| a in Pairs(ws) && !Has(s.table, a.0, a.1);
      assert Has(PutAll(s, ws).table, a.0, a.1);
    }
  }

  /** For a batch that does not contradict itself the condition is that all of the finished
      pairs were rows before. */
  lemma RolledBackConsistent(s: Store, ms: seq<Mapping>, fault: Fault)
    requires Coherent(s) && Consistent(Pairs(ms)) && NonEmptyPairs(Pairs(ms))
    requires Work(s, ms) != [] && !Commits(fault, |Work(s, ms)|)
    ensures Coherent(PutManyNext(s, ms, fault)) <==>
            forall a :: a in Pairs(DoneOf(s, ms, fault)) ==> Has(s.table, a.0, a.1)
  {
    DoneEntries(s, ms, fault);
    RolledBackBatch(s, ms, fault);
    ConsistentRowsWithin(s, DoneOf(s, ms, fault));
  }

  // ---------------------------------------------------------------- trying again

  /** What is cached after some puts was cached before or is one of their pairs. */
  lemma {:induction false} CachedByPuts(s: Store, ws: seq<Mapping>, a: Pair)
    requires (forall m :: m in ws ==> ValidEntry(m)) && Cached(PutAll(s, ws), a.0, a.1)
    ensures Cached(s, a.0, a.1) || a in Pairs(ws)
  {
    if ws != [] {
      var front, last := ws[..|ws| - 1], ws[|ws| - 1];
      PairsSplit(ws);
      assert ws == front + [last];
      if Cached(PutAll(s, front), a.0, a.1) {
        CachedByPuts(s, front, a);
      }
    }
  }

  lemma {:induction false} StaysCached(s: Store, ws: seq<Mapping>, a: Pair)
    requires (forall m :: m in ws ==> ValidEntry(m)) && Consistent(Pairs(ws) + {a}) && Cached(s, a.0, a.1)
    ensures Cached(PutAll(s, ws), a.0, a.1)
  {
    if ws != [] {
      var front, last := ws[..|ws| - 1], ws[|ws| - 1];
      PairsSplit(ws);
      assert last in ws && (last.lid.user, last.pn.user) in Pairs(ws) && a in Pairs(ws) + {a};
      assert ws == front + [last];
      StaysCached(s, front, a);
      PutKeepsCached(PutAll(s, front), a, last.lid.user, last.pn.user);
    }
  }

  /** The same batch after its rollback: exactly the finished pairs are taken for stored. */
  lemma RetryForgetsFinished(s: Store, ms: seq<Mapping>, fault: Fault, m: Mapping)
    requires Consistent(Pairs(ms)) && NonEmptyPairs(Pairs(ms))
    requires Work(s, ms) != [] && !Commits(fault, |Work(s, ms)|)
    ensures m in Work(PutManyNext(s, ms, fault), ms)
       <==> m in Work(s, ms) && (m.lid.user, m.pn.user) !in Pairs(DoneOf(s, ms, fault))
  {
    var ws, s1, a := DoneOf(s, ms, fault), PutManyNext(s, ms, fault), (m.lid.user, m.pn.user);
    DoneEntries(s, ms, fault);
    WorkElements(s, ms);
    WorkElements(s1, ms);
    if m in ms && ValidEntry(m) {
      assert a in Pairs(ms);
      PutAllCached(s, ws);
      if Cached(s, a.0, a.1) {
        StaysCached(s, ws, a);
      } else if Cached(s1, a.0, a.1) {
        CachedByPuts(s, ws, a);
      }
    }
  }

  lemma WorkElements(s: Store, ms: seq<Mapping>)
    ensures forall m :: m in Work(s, ms) <==> m in ms && !Dropped(s, m)
  {
    KeptPairs(s, ms);
    DedupSameElements(Kept(s, ms));
  }

  lemma FirstIsElement(ws: seq<Mapping>)
    requires ws != []
    ensures ws[0] in ws
  {
  }

  lemma NoElements(ws: seq<Mapping>)
    requires forall m :: m !in ws
    ensures ws == []
  {
    if ws != [] {
      FirstIsElement(ws);
    }
  }

  /** When it is the commit that fails, trying the batch again never reaches the database, so
      its mappings stay missing. */
  lemma RetryIsLost(s: Store, ms: seq<Mapping>, fault: Fault)
    requires Consistent(Pairs(ms)) && NonEmptyPairs(Pairs(ms))
    requires Work(s, ms) != [] && fault == FailAt(2 * |Work(s, ms)| + 1)
    ensures PutManyNext(s, ms, fault).table == s.table
    ensures forall f :: PutManyNext(PutManyNext(s, ms, fault), ms, f) == PutManyNext(s, ms, fault)
  {
    var s1 := PutManyNext(s, ms, fault);
    assert DoneOf(s, ms, fault) == Work(s, ms);
    DoneEntries(s, ms, fault);
    forall m
      ensures m !in Work(s1, ms)
    {
      RetryForgetsFinished(s, ms, fault, m);
    }
    NoElements(Work(s1, ms));
  }

  lemma OnePut(s: Store, m: Mapping)
    ensures PutAll(s, [m]) == UnlockedPut(s, m.lid.user, m.pn.user) && PutAll(s, []) == s
    ensures Cached(PutAll(s, [m]), m.lid.user, m.pn.user)
  {
    assert [m][..0] == [];
  }

  /** A put alone: trying it again does nothing, whatever the database does, exactly if the first
      try did not need the database, succeeded, or failed at its commit. */
  lemma RetryOneIff(s: Store, m: Mapping, fault: Fault)
    requires ValidEntry(m)
    ensures var s1 := PutOneNext(s, m, fault);
            (forall f :: PutOneNext(s1, m, f) == s1) <==>
              Cached(s, m.lid.user, m.pn.user) || Commits(fault, 1) || fault == FailAt(3)
  {
    var s1 := PutOneNext(s, m, fault);
    OnePut(s, m);
    if !Cached(s, m.lid.user, m.pn.user) && !Commits(fault, 1) && fault != FailAt(3) {
      assert [m][..Finished(fault, 1)] == [];
      assert s1 == s;
      assert PutOneNext(s1, m, NoFault) != s1;
    } else if !Cached(s, m.lid.user, m.pn.user) && !Commits(fault, 1) {
      assert [m][..Finished(fault, 1)] == [m];
    }
  }
}

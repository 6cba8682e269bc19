/** Batches of LID mappings: what PutManyLIDMappings does to the table and the caches, why
    the order of a batch does not matter, and what a rollback leaves behind. */
module LidBatch {
  import opened Sql
  import opened LidTable
  import opened LidCache
  import opened LidPuts

  datatype Mapping = Mapping(lid: JID, pn: JID)

  type Pair = (string, string)

  predicate ValidEntry(m: Mapping) {
    m.lid.server == LID_SERVER && m.pn.server == PN_SERVER
  }

  /** Entries that the first pass deletes: wrong servers, or cached already. */
  predicate Dropped(s: Store, m: Mapping) {
    !ValidEntry(m) || Cached(s, m.lid.user, m.pn.user)
  }

  function Kept(s: Store, ms: seq<Mapping>): seq<Mapping> {
    if ms == [] then []
    else Kept(s, ms[..|ms| - 1]) + if Dropped(s, ms[|ms| - 1]) then [] else [ms[|ms| - 1]]
  }

  /** The first occurrence of every entry, in order. */
  function Dedup(ms: seq<Mapping>): seq<Mapping> {
    if ms == [] then []
    else Dedup(ms[..|ms| - 1]) + if ms[|ms| - 1] in ms[..|ms| - 1] then [] else [ms[|ms| - 1]]
  }

  function Work(s: Store, ms: seq<Mapping>): seq<Mapping> {
    Dedup(Kept(s, ms))
  }

  function PutAll(s: Store, ms: seq<Mapping>): Store {
    if ms == [] then s
    else UnlockedPut(PutAll(s, ms[..|ms| - 1]), ms[|ms| - 1].lid.user, ms[|ms| - 1].pn.user)
  }

  /** A transaction over n mappings has 2n+2 steps: begin, two statements each, commit. */
  predicate Commits(fault: Fault, n: nat) {
    fault.NoFault? || fault.step > 2 * n + 1
  }

  /** How many mappings were finished when the transaction failed. */
  function Finished(fault: Fault, n: nat): (k: nat)
    requires !Commits(fault, n)
    ensures k <= n
  {
    if fault.step == 0 then 0 else (fault.step - 1) / 2
  }

  /** The outcome of running `work` in one transaction: a rollback restores the table only. */
  function InTransaction(s: Store, work: seq<Mapping>, fault: Fault): Store {
    if Commits(fault, |work|) then PutAll(s, work)
    else PutAll(s, work[..Finished(fault, |work|)]).(table := s.table)
  }

  function PutManyNext(s: Store, ms: seq<Mapping>, fault: Fault): Store {
    if Work(s, ms) == [] then s else InTransaction(s, Work(s, ms), fault)
  }

  function PutOneNext(s: Store, m: Mapping, fault: Fault): Store {
    if Dropped(s, m) then s else InTransaction(s, [m], fault)
  }

  lemma CommittedPutOne(s: Store, m: Mapping, fault: Fault)
    requires ValidEntry(m) && Commits(fault, 1)
    ensures PutOneNext(s, m, fault) == PutNext(s, m.lid.user, m.pn.user)
  {
    assert [m][..0] == [];
    assert PutAll(s, [m]) == UnlockedPut(PutAll(s, []), m.lid.user, m.pn.user);
  }

  // ---------------------------------------------------------------- meaning of a batch

  /** The user pairs of the valid entries. */
  function Pairs(ms: seq<Mapping>): set<Pair> {
    set m | m in ms && ValidEntry(m) :: (m.lid.user, m.pn.user)
  }

  /** No PN is paired with two LIDs and no LID with two PNs. */
  ghost predicate Consistent(ps: set<Pair>) {
    forall a, b :: a in ps && b in ps ==> (a.0 == b.0 <==> a.1 == b.1)
  }

  ghost predicate NonEmptyPairs(ps: set<Pair>) {
    forall a :: a in ps ==> a.0 != "" && a.1 != ""
  }

  /** The rows of `t2` are the pairs, and the rows of `t` that clash with none of them. */
  ghost predicate IsMerge(t: Table, ps: set<Pair>, t2: Table) {
    forall l, p :: Has(t2, l, p) <==>
      (l, p) in ps || (Has(t, l, p) && forall a :: a in ps ==> a.0 != l && a.1 != p)
  }

  lemma MergeUnique(t: Table, ps: set<Pair>, t1: Table, t2: Table)
    requires IsMerge(t, ps, t1) && IsMerge(t, ps, t2)
    ensures t1 == t2
  {
    SameRows(t1, t2);
  }

  lemma MergeStep(t: Table, ps: set<Pair>, t1: Table, lid: string, pn: string)
    requires IsMerge(t, ps, t1) && Consistent(ps + {(lid, pn)})
    ensures IsMerge(t, ps + {(lid, pn)}, Put(t1, lid, pn))
  {
    var more := ps + {(lid, pn)};
    forall l, p
      ensures Has(Put(t1, lid, pn), l, p) <==>
              (l, p) in more || (Has(t, l, p) && forall a :: a in more ==> a.0 != l && a.1 != p)
    {
      PutRows(t1, lid, pn, l, p);
      assert (lid, pn) in more;
      if (l, p) in ps {
        assert (l, p) in more;
      }
    }
  }

  /** Pairs that are rows already can be left out of a consistent merge. */
  lemma MergeIgnoresRows(t: Table, all: set<Pair>, some: set<Pair>, t2: Table)
    requires UniquePn(t) && Consistent(all) && some <= all && IsMerge(t, some, t2)
    requires forall a :: a in all - some ==> Has(t, a.0, a.1)
    ensures IsMerge(t, all, t2)
  {
    forall l, p
      ensures Has(t2, l, p) <==>
              (l, p) in all || (Has(t, l, p) && forall a :: a in all ==> a.0 != l && a.1 != p)
    {
      if (l, p) in all - some {
        assert Has(t, l, p);
      }
      if Has(t, l, p) && (l, p) !in all {
        forall a | a in all - some
          ensures a.0 != l && a.1 != p
        {
          assert Has(t, a.0, a.1);
        }
      }
    }
  }

  lemma PairsSplit(ms: seq<Mapping>)
    requires ms != []
    ensures var last := ms[|ms| - 1];
            Pairs(ms) == Pairs(ms[..|ms| - 1]) + if ValidEntry(last) then {(last.lid.user, last.pn.user)} else {}
  {
    assert ms == ms[..|ms| - 1] + [ms[|ms| - 1]];
  }

  /** A put evicts no pair that is consistent with it. */
  lemma PutKeepsCached(s: Store, a: Pair, lid: string, pn: string)
    requires Cached(s, a.0, a.1) && (a.0 == lid <==> a.1 == pn)
    ensures Cached(UnlockedPut(s, lid, pn), a.0, a.1)
  {
  }

  lemma PutKeepsAllCached(s: Store, ps: set<Pair>, lid: string, pn: string)
    requires Consistent(ps + {(lid, pn)})
    requires forall a :: a in ps ==> Cached(s, a.0, a.1)
    ensures forall a :: a in ps ==> Cached(UnlockedPut(s, lid, pn), a.0, a.1)
  {
    forall a | a in ps
      ensures Cached(UnlockedPut(s, lid, pn), a.0, a.1)
    {
      assert a in ps + {(lid, pn)} && (lid, pn) in ps + {(lid, pn)};
      PutKeepsCached(s, a, lid, pn);
    }
  }

  lemma {:induction false} PutAllCached(s: Store, ms: seq<Mapping>)
    requires (forall m :: m in ms ==> ValidEntry(m)) && Consistent(Pairs(ms))
    ensures forall a :: a in Pairs(ms) ==> Cached(PutAll(s, ms), a.0, a.1)
  {
    if ms != [] {
      var front, last := ms[..|ms| - 1], ms[|ms| - 1];
      var pair := (last.lid.user, last.pn.user);
      PairsSplit(ms);
      assert last in ms && Pairs(ms) == Pairs(front) + {pair};
      PutAllCached(s, front);
      PutKeepsAllCached(PutAll(s, front), Pairs(front), pair.0, pair.1);
    }
  }

  lemma {:induction false} PutAllMerges(s: Store, ms: seq<Mapping>)
    requires (forall m :: m in ms ==> ValidEntry(m)) && Consistent(Pairs(ms))
    ensures IsMerge(s.table, Pairs(ms), PutAll(s, ms).table)
  {
    if ms != [] {
      var front, last := ms[..|ms| - 1], ms[|ms| - 1];
      var pair := (last.lid.user, last.pn.user);
      PairsSplit(ms);
      assert last in ms && Pairs(ms) == Pairs(front) + {pair};
      PutAllMerges(s, front);
      MergeStep(s.table, Pairs(front), PutAll(s, front).table, pair.0, pair.1);
    }
  }

  ghost predicate NamedEntries(ms: seq<Mapping>) {
    forall m :: m in ms ==> m.lid.user != "" && m.pn.user != ""
  }

  lemma {:induction false} PutAllCoherent(s: Store, ws: seq<Mapping>)
    requires Coherent(s) && NamedEntries(ws)
    ensures Coherent(PutAll(s, ws)) && PutAll(s, ws).filled == s.filled
  {
    if ws != [] {
      var front, last := ws[..|ws| - 1], ws[|ws| - 1];
      assert ws == front + [last];
      PutAllCoherent(s, front);
      UnlockedPutKeepsCoherence(PutAll(s, front), last.lid.user, last.pn.user);
    }
  }

  /** Entry i is the last one that puts the pair (l, p), and no later one takes it away. */
  ghost predicate LastFor(ms: seq<Mapping>, i: int, l: string, p: string) {
    && 0 <= i < |ms| && ms[i].lid.user == l && ms[i].pn.user == p
    && forall j :: i < j < |ms| ==> ms[j].lid.user != l && ms[j].pn.user != p
  }

  lemma LastForPush(front: seq<Mapping>, last: Mapping, l: string, p: string)
    ensures last.lid.user == l && last.pn.user == p ==> LastFor(front + [last], |front|, l, p)
    ensures last.lid.user != l && last.pn.user != p ==>
              forall i :: LastFor(front + [last], i, l, p) <==> LastFor(front, i, l, p)
  {
    var ms := front + [last];
    assert ms[|front|] == last && forall j :: 0 <= j < |front| ==> ms[j] == front[j];
  }

  /** What puts in a row leave, contradictions among them included: later pairs win. */
  lemma {:induction false} LaterPairsWin(s: Store, ms: seq<Mapping>, l: string, p: string)
    ensures Has(PutAll(s, ms).table, l, p) <==>
              || (exists i :: LastFor(ms, i, l, p))
              || (Has(s.table, l, p) && forall m :: m in ms ==> m.lid.user != l && m.pn.user != p)
  {
    if ms != [] {
      var front, last := ms[..|ms| - 1], ms[|ms| - 1];
      assert ms == front + [last];
      LaterPairsWin(s, front, l, p);
      PutRows(PutAll(s, front).table, last.lid.user, last.pn.user, l, p);
      LastForPush(front, last, l, p);
    }
  }

  lemma {:induction false} KeptPairs(s: Store, ms: seq<Mapping>)
    ensures forall m :: m in Kept(s, ms) <==> m in ms && !Dropped(s, m)
  {
    if ms != [] {
      KeptPairs(s, ms[..|ms| - 1]);
      assert ms == ms[..|ms| - 1] + [ms[|ms| - 1]];
    }
  }

  lemma {:induction false} DedupSameElements(ms: seq<Mapping>)
    ensures forall m :: m in Dedup(ms) <==> m in ms
    ensures forall i, j :: 0 <= i < j < |Dedup(ms)| ==> Dedup(ms)[i] != Dedup(ms)[j]
  {
    if ms != [] {
      DedupSameElements(ms[..|ms| - 1]);
      assert ms == ms[..|ms| - 1] + [ms[|ms| - 1]];
    }
  }

  lemma WorkStep(s: Store, front: seq<Mapping>, last: Mapping)
    ensures Work(s, front + [last]) == Work(s, front) + if Dropped(s, last) || last in front then [] else [last]
  {
    var ms, kept := front + [last], Kept(s, front);
    assert ms[..|ms| - 1] == front;
    KeptPairs(s, front);
    if Dropped(s, last) {
      assert Kept(s, ms) == kept + [] == kept;
    } else {
      assert (kept + [last])[..|kept|] == kept;
    }
  }

  /** The entries to put come in the order of their first occurrences. */
  lemma {:induction false} WorkOrder(s: Store, ms: seq<Mapping>, i: nat, j: nat) returns (a: nat)
    requires i < j < |Work(s, ms)|
    ensures a < |ms| && ms[a] == Work(s, ms)[i] && Work(s, ms)[j] !in ms[..a + 1]
  {
    var front, last := ms[..|ms| - 1], ms[|ms| - 1];
    assert ms == front + [last];
    WorkStep(s, front, last);
    KeptPairs(s, front);
    DedupSameElements(Kept(s, front));
    if j < |Work(s, front)| {
      a := WorkOrder(s, front, i, j);
      assert ms[..a + 1] == front[..a + 1];
    } else {
      var m := Work(s, front)[i];
      assert m in front;
      a :| 0 <= a < |front| && front[a] == m;
      assert ms[..a + 1] == front[..a + 1];
    }
  }

  lemma {:induction false} WorkCount(s: Store, ms: seq<Mapping>)
    ensures |Work(s, ms)| == |ToPut(s, ms)|
  {
    if ms != [] {
      var front, last := ms[..|ms| - 1], ms[|ms| - 1];
      assert ms == front + [last];
      WorkStep(s, front, last);
      WorkCount(s, front);
      ToPutPush(s, front, last);
      KeptPairs(s, front);
    }
  }

  function ToPut(s: Store, ms: seq<Mapping>): set<Mapping> {
    set m | m in ms && !Dropped(s, m)
  }

  lemma ToPutPush(s: Store, front: seq<Mapping>, last: Mapping)
    ensures ToPut(s, front + [last]) == ToPut(s, front) + if Dropped(s, last) then {} else {last}
  {
  }

  lemma WorkPairs(s: Store, bad: set<string>, ms: seq<Mapping>)
    requires RightExcept(s, bad) && NonEmptyPairs(Pairs(ms)) && forall a :: a in Pairs(ms) ==> a.1 !in bad
    ensures forall m :: m in Work(s, ms) <==> m in ms && !Dropped(s, m)
    ensures Pairs(Work(s, ms)) <= Pairs(ms) && NamedEntries(Work(s, ms))
    ensures forall a :: a in Pairs(ms) - Pairs(Work(s, ms)) ==> Has(s.table, a.0, a.1)
  {
    KeptPairs(s, ms);
    DedupSameElements(Kept(s, ms));
    forall m | m in Work(s, ms)
      ensures m.lid.user != "" && m.pn.user != ""
    {
      assert (m.lid.user, m.pn.user) in Pairs(ms);
    }
    forall a | a in Pairs(ms) - Pairs(Work(s, ms))
      ensures Has(s.table, a.0, a.1)
    {
      var m :| m in ms && ValidEntry(m) && a == (m.lid.user, m.pn.user);
      assert Cached(s, a.0, a.1) && RightAt(s, a.1);
      AnswerIsRow(s.table, a.1);
    }
  }

  /** A committed batch yields exactly the old rows that clash with no valid pair of the batch,
      plus every valid pair, if the caches are right about its phone numbers. */
  lemma BatchMerges(s: Store, bad: set<string>, ms: seq<Mapping>, fault: Fault)
    requires RightExcept(s, bad) && forall a :: a in Pairs(ms) ==> a.1 !in bad
    requires Consistent(Pairs(ms)) && NonEmptyPairs(Pairs(ms))
    requires Commits(fault, |Work(s, ms)|)
    ensures IsMerge(s.table, Pairs(ms), PutManyNext(s, ms, fault).table)
  {
    var work := Work(s, ms);
    WorkPairs(s, bad, ms);
    PutAllMerges(s, work);
    MergeIgnoresRows(s.table, Pairs(ms), Pairs(work), PutAll(s, work).table);
  }

  /** The rows of t' are the pairs of all entries with the right servers, and the rows of t that
      share no user with any of them. */
  ghost predicate MergesEntries(t: Table, ms: seq<Mapping>, t': Table) {
    forall l, p :: Has(t', l, p) <==>
      || (exists m :: m in ms && m.lid.server == LID_SERVER && m.pn.server == PN_SERVER
                      && m.lid.user == l && m.pn.user == p)
      || (Has(t, l, p) &&
          forall m :: m in ms && m.lid.server == LID_SERVER && m.pn.server == PN_SERVER ==>
            m.lid.user != l && m.pn.user != p)
  }

  lemma MergeOfEntries(t: Table, ms: seq<Mapping>, t': Table)
    requires IsMerge(t, Pairs(ms), t')
    ensures MergesEntries(t, ms, t')
  {
    forall l, p
      ensures (l, p) in Pairs(ms) <==>
                exists m :: m in ms && m.lid.server == LID_SERVER && m.pn.server == PN_SERVER
                            && m.lid.user == l && m.pn.user == p
    {
    }
    forall m | m in ms && m.lid.server == LID_SERVER && m.pn.server == PN_SERVER
      ensures (m.lid.user, m.pn.user) in Pairs(ms)
    {
    }
  }

  /** From coherent caches it leaves the caches coherent. */
  lemma CommittedBatch(s: Store, ms: seq<Mapping>, fault: Fault)
    requires Coherent(s) && Consistent(Pairs(ms)) && NonEmptyPairs(Pairs(ms))
    requires Commits(fault, |Work(s, ms)|)
    ensures IsMerge(s.table, Pairs(ms), PutManyNext(s, ms, fault).table)
    ensures Coherent(PutManyNext(s, ms, fault))
  {
    RightIsExceptNone(s);
    BatchMerges(s, {}, ms, fault);
    WorkPairs(s, {}, ms);
    PutAllCoherent(s, Work(s, ms));
  }

  /** The order of a batch, repetitions in it, invalid entries in it and the contents of the
      caches have no influence on the table. */
  lemma BatchOrderIrrelevant(s1: Store, s2: Store, ms1: seq<Mapping>, ms2: seq<Mapping>, f1: Fault, f2: Fault)
    requires Coherent(s1) && Coherent(s2) && s1.table == s2.table && Pairs(ms1) == Pairs(ms2)
    requires Consistent(Pairs(ms1)) && NonEmptyPairs(Pairs(ms1))
    requires Commits(f1, |Work(s1, ms1)|) && Commits(f2, |Work(s2, ms2)|)
    ensures PutManyNext(s1, ms1, f1).table == PutManyNext(s2, ms2, f2).table
  {
    CommittedBatch(s1, ms1, f1);
    CommittedBatch(s2, ms2, f2);
    MergeUnique(s1.table, Pairs(ms1), PutManyNext(s1, ms1, f1).table, PutManyNext(s2, ms2, f2).table);
  }

  /** Calling PutLIDMapping on every valid entry in turn. */
  function SinglePuts(s: Store, ms: seq<Mapping>): Store {
    if ms == [] then s
    else
      var before, last := SinglePuts(s, ms[..|ms| - 1]), ms[|ms| - 1];
      if ValidEntry(last) then PutNext(before, last.lid.user, last.pn.user) else before
  }

  lemma {:induction false} SinglePutsMerge(s: Store, ms: seq<Mapping>)
    requires Coherent(s) && Consistent(Pairs(ms)) && NonEmptyPairs(Pairs(ms))
    ensures Coherent(SinglePuts(s, ms))
    ensures IsMerge(s.table, Pairs(ms), SinglePuts(s, ms).table)
  {
    if ms != [] {
      var front, last := ms[..|ms| - 1], ms[|ms| - 1];
      var before := SinglePuts(s, front);
      PairsSplit(ms);
      SinglePutsMerge(s, front);
      if ValidEntry(last) {
        var pair := (last.lid.user, last.pn.user);
        assert pair in Pairs(ms);
        PutRefines(before, pair.0, pair.1);
        PutKeepsCoherence(before, pair.0, pair.1);
        MergeStep(s.table, Pairs(front), before.table, pair.0, pair.1);
      }
    }
  }

  /** One committed batch is worth as much as a put of each valid entry, although it filters
      against the caches it starts from and removes duplicates first. */
  lemma BatchEqualsSinglePuts(s: Store, ms: seq<Mapping>, fault: Fault)
    requires Coherent(s) && Consistent(Pairs(ms)) && NonEmptyPairs(Pairs(ms))
    requires Commits(fault, |Work(s, ms)|)
    ensures PutManyNext(s, ms, fault).table == SinglePuts(s, ms).table
  {
    CommittedBatch(s, ms, fault);
    SinglePutsMerge(s, ms);
    MergeUnique(s.table, Pairs(ms), PutManyNext(s, ms, fault).table, SinglePuts(s, ms).table);
  }
}

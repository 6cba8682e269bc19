/** Puts of one mapping as the caches see them: the two evictions, what they keep right, and the
    one case in which they are skipped wrongly. */
module LidPuts {
  import opened Sql
  import opened LidTable
  import opened LidCache

  /** The cache side of one put, with its two possible evictions. */
  function PutCaches(s: Store, lid: string, pn: string): Store {
    var oldLid, oldPn := Get(s.pnToLid, pn), Get(s.lidToPn, lid);
    var p, l := s.pnToLid[pn := lid], s.lidToPn[lid := pn];
    s.(pnToLid := if oldPn != "" && oldPn != pn && Get(p, oldPn) == lid then p - {oldPn} else p,
       lidToPn := if oldLid != "" && oldLid != lid && Get(l, oldLid) == pn then l - {oldLid} else l)
  }

  function UnlockedPut(s: Store, lid: string, pn: string): Store {
    PutCaches(s, lid, pn).(table := Put(s.table, lid, pn))
  }

  /** The pair is cached already, so the database is skipped. */
  predicate Cached(s: Store, lid: string, pn: string) {
    pn in s.pnToLid && s.pnToLid[pn] == lid
  }

  function PutNext(s: Store, lid: string, pn: string): Store {
    if Cached(s, lid, pn) then s else UnlockedPut(s, lid, pn)
  }

  /** The pair takes a row away from the empty user, or an empty column away from one of its own
      users, while that row is cached.  The code reads such an entry as "nothing cached" and
      skips the eviction. */
  predicate EvictionSkipped(s: Store, lid: string, pn: string) {
    lid != "" && pn != "" && (Get(s.pnToLid, "") == lid || Get(s.lidToPn, "") == pn)
  }

  lemma PutAgreesPn(s: Store, lid: string, pn: string, p: string)
    requires UniquePn(s.table) && RightAt(s, p) && p in UnlockedPut(s, lid, pn).pnToLid
    ensures UnlockedPut(s, lid, pn).pnToLid[p] == LidOf(UnlockedPut(s, lid, pn).table, p)
       <==> !(p == "" && pn != "" && lid != "" && s.pnToLid[p] == lid)
  {
    var s' := UnlockedPut(s, lid, pn);
    var l := s'.pnToLid[p];
    PutKeepsConstraints(s.table, lid, pn);
    AnswerIsRow(s.table, p);
    AnswerIsRow(s'.table, p);
    PutRows(s.table, lid, pn, l, p);
    PutRows(s.table, lid, pn, LidOf(s'.table, p), p);
    if Has(s'.table, l, p) {
      LookupsAtRow(s'.table, l, p);
    }
  }

  lemma PutAgreesLid(s: Store, lid: string, pn: string, l: string)
    requires UniquePn(s.table) && RightAt(s, l) && l in UnlockedPut(s, lid, pn).lidToPn
    ensures UnlockedPut(s, lid, pn).lidToPn[l] == PnOf(UnlockedPut(s, lid, pn).table, l)
       <==> !(l == "" && pn != "" && lid != "" && s.lidToPn[l] == pn)
  {
    var s' := UnlockedPut(s, lid, pn);
    PutRows(s.table, lid, pn, l, s'.lidToPn[l]);
    PutRows(s.table, lid, pn, l, PnOf(s'.table, l));
  }

  /** The eviction step removes the stale entries of every named user, whatever pair is put. */
  lemma PutEntries(s: Store, lid: string, pn: string, user: string)
    requires UniquePn(s.table) && RightAt(s, user)
    ensures AgreesAt(UnlockedPut(s, lid, pn), user) <==> user != "" || !EvictionSkipped(s, lid, pn)
  {
    var s' := UnlockedPut(s, lid, pn);
    if user in s'.pnToLid {
      PutAgreesPn(s, lid, pn, user);
    }
    if user in s'.lidToPn {
      PutAgreesLid(s, lid, pn, user);
    }
  }

  lemma PutPairsPn(s: Store, lid: string, pn: string, user: string)
    requires PairedAt(s, user) && (user != "" || !EvictionSkipped(s, lid, pn))
    requires Get(UnlockedPut(s, lid, pn).pnToLid, user) != ""
    ensures Get(UnlockedPut(s, lid, pn).lidToPn, UnlockedPut(s, lid, pn).pnToLid[user]) == user
  {
  }

  lemma PutPairsLid(s: Store, lid: string, pn: string, user: string)
    requires PairedAt(s, user) && (user != "" || !EvictionSkipped(s, lid, pn))
    requires Get(UnlockedPut(s, lid, pn).lidToPn, user) != ""
    ensures Get(UnlockedPut(s, lid, pn).pnToLid, UnlockedPut(s, lid, pn).lidToPn[user]) == user
  {
  }

  /** It removes nothing else: positive entries stay in pairs. */
  lemma PutPairs(s: Store, lid: string, pn: string, user: string)
    requires RightAt(s, user) && (user != "" || !EvictionSkipped(s, lid, pn))
    ensures PairedAt(UnlockedPut(s, lid, pn), user)
  {
    if Get(UnlockedPut(s, lid, pn).pnToLid, user) != "" {
      PutPairsPn(s, lid, pn, user);
    }
    if Get(UnlockedPut(s, lid, pn).lidToPn, user) != "" {
      PutPairsLid(s, lid, pn, user);
    }
  }

  /** Nor does it break the promise of the filled flag. */
  lemma PutFills(s: Store, lid: string, pn: string, user: string)
    requires UniquePn(s.table) && RightAt(s, user)
    ensures FilledAt(UnlockedPut(s, lid, pn), user)
  {
    var s' := UnlockedPut(s, lid, pn);
    if user in s'.table {
      PutRows(s.table, lid, pn, user, s'.table[user]);
    }
    if l :| Has(s'.table, l, user) {
      PutRows(s.table, lid, pn, l, user);
      if (l, user) != (lid, pn) {
        LookupsAtRow(s.table, l, user);
      }
    }
  }

  /** A put keeps the caches right about whom they were right about, with no condition on the
      pair except where the empty user is among them. */
  lemma PutKeepsRight(s: Store, bad: set<string>, lid: string, pn: string)
    requires RightExcept(s, bad) && ("" in bad || !EvictionSkipped(s, lid, pn))
    ensures RightExcept(UnlockedPut(s, lid, pn), bad) && RightExcept(PutNext(s, lid, pn), bad)
  {
    PutKeepsConstraints(s.table, lid, pn);
    forall user | user !in bad
      ensures RightAt(UnlockedPut(s, lid, pn), user)
    {
      PutEntries(s, lid, pn, user);
      PutPairs(s, lid, pn, user);
      PutFills(s, lid, pn, user);
    }
  }

  /** Right caches stay right exactly when the put is skipped or neither entry of the empty
      user hides a row that the put removes. */
  lemma PutKeepsCachesIff(s: Store, lid: string, pn: string)
    requires CachesRight(s)
    ensures CachesRight(PutNext(s, lid, pn)) <==> Cached(s, lid, pn) || !EvictionSkipped(s, lid, pn)
    ensures EntriesAgree(PutNext(s, lid, pn)) <==> Cached(s, lid, pn) || !EvictionSkipped(s, lid, pn)
  {
    if !Cached(s, lid, pn) {
      if EvictionSkipped(s, lid, pn) {
        CachesRightAt(s, "");
        PutEntries(s, lid, pn, "");
        AgreeEverywhere(UnlockedPut(s, lid, pn), "");
      } else {
        RightIsExceptNone(s);
        PutKeepsRight(s, {}, lid, pn);
        RightIsExceptNone(UnlockedPut(s, lid, pn));
      }
    }
  }

  lemma AgreeEverywhere(s: Store, user: string)
    ensures EntriesAgree(s) ==> AgreesAt(s, user)
  {
  }

  /** The failure takes two puts: the second one takes the phone number away from the empty
      LID, and a lookup of the empty LID goes on answering it. */
  lemma EmptyUserGoesStale(lid: string, pn: string, fault: bool)
    requires lid != "" && pn != ""
    ensures var s := PutNext(PutNext(Store(map[], map[], map[], false), "", pn), lid, pn);
            && s.table == map[lid := pn]
            && LookupAnswer(s, LidToPn, "", fault) == Some(pn)
            && Query(s.table, LidToPn, "") == ""
  {
    var s := PutNext(Store(map[], map[], map[], false), "", pn);
    assert s.table == map["" := pn] && s.pnToLid == map[pn := ""] && s.lidToPn == map["" := pn];
    assert PutNext(s, lid, pn).table == map[lid := pn];
  }

  /** Where every user is named, no eviction is skipped. */
  lemma NamedRowsEvicted(s: Store, lid: string, pn: string)
    requires RightAt(s, "") && NonEmptyUsers(s.table)
    ensures !EvictionSkipped(s, lid, pn)
  {
    AnswerIsRow(s.table, "");
  }

  lemma UnlockedPutKeepsCoherence(s: Store, lid: string, pn: string)
    requires Coherent(s) && lid != "" && pn != ""
    ensures Coherent(UnlockedPut(s, lid, pn))
  {
    PutKeepsConstraints(s.table, lid, pn);
    CachesRightAt(s, "");
    NamedRowsEvicted(s, lid, pn);
    RightIsExceptNone(s);
    PutKeepsRight(s, {}, lid, pn);
    RightIsExceptNone(UnlockedPut(s, lid, pn));
  }

  /** The caches of s' have the pair both ways, and otherwise exactly the entries of s that name
      neither of its users. */
  ghost predicate CachesPair(s: Store, lid: string, pn: string, s': Store) {
    && s'.filled == s.filled
    && (forall u :: u in s'.pnToLid <==> u == pn || (u in s.pnToLid && s.pnToLid[u] != lid))
    && (forall u :: u in s'.lidToPn <==> u == lid || (u in s.lidToPn && s.lidToPn[u] != pn))
    && (forall u :: u in s'.pnToLid ==> s'.pnToLid[u] == if u == pn then lid else s.pnToLid[u])
    && (forall u :: u in s'.lidToPn ==> s'.lidToPn[u] == if u == lid then pn else s.lidToPn[u])
  }

  lemma OneEntryEach(s: Store, lid: string, pn: string, u: string)
    requires Coherent(s) && lid != "" && pn != ""
    ensures u in s.pnToLid && s.pnToLid[u] == lid ==> u != "" && Get(s.lidToPn, lid) == u
    ensures u in s.lidToPn && s.lidToPn[u] == pn ==> u != "" && Get(s.pnToLid, pn) == u
  {
    CachesRightAt(s, u);
    AnswerIsRow(s.table, u);
  }

  lemma PairAtPn(s: Store, lid: string, pn: string, u: string)
    requires Coherent(s) && lid != "" && pn != ""
    ensures var s' := PutCaches(s, lid, pn);
            && (u in s'.pnToLid <==> u == pn || (u in s.pnToLid && s.pnToLid[u] != lid))
            && (u in s'.pnToLid ==> s'.pnToLid[u] == if u == pn then lid else s.pnToLid[u])
  {
    OneEntryEach(s, lid, pn, u);
  }

  lemma PairAtLid(s: Store, lid: string, pn: string, u: string)
    requires Coherent(s) && lid != "" && pn != ""
    ensures var s' := PutCaches(s, lid, pn);
            && (u in s'.lidToPn <==> u == lid || (u in s.lidToPn && s.lidToPn[u] != pn))
            && (u in s'.lidToPn ==> s'.lidToPn[u] == if u == lid then pn else s.lidToPn[u])
  {
    OneEntryEach(s, lid, pn, u);
  }

  /** From coherent caches a put caches the pair both ways and loses exactly the other entries
      that name one of its users. */
  lemma PutCachesPair(s: Store, lid: string, pn: string)
    requires Coherent(s) && lid != "" && pn != ""
    ensures CachesPair(s, lid, pn, PutCaches(s, lid, pn))
  {
    forall u
      ensures var s' := PutCaches(s, lid, pn);
              && (u in s'.pnToLid <==> u == pn || (u in s.pnToLid && s.pnToLid[u] != lid))
              && (u in s'.pnToLid ==> s'.pnToLid[u] == if u == pn then lid else s.pnToLid[u])
    {
      PairAtPn(s, lid, pn, u);
    }
    forall u
      ensures var s' := PutCaches(s, lid, pn);
              && (u in s'.lidToPn <==> u == lid || (u in s.lidToPn && s.lidToPn[u] != pn))
              && (u in s'.lidToPn ==> s'.lidToPn[u] == if u == lid then pn else s.lidToPn[u])
    {
      PairAtLid(s, lid, pn, u);
    }
  }

  /** A put that is skipped has nothing to lose. */
  lemma CachedIsPair(s: Store, lid: string, pn: string)
    requires Coherent(s) && lid != "" && pn != "" && Cached(s, lid, pn)
    ensures CachesPair(s, lid, pn, s)
  {
    forall u
      ensures u in s.pnToLid && s.pnToLid[u] == lid ==> u == pn
      ensures u in s.lidToPn && s.lidToPn[u] == pn ==> u == lid
    {
      OneEntryEach(s, lid, pn, u);
      OneEntryEach(s, lid, pn, pn);
    }
    OneEntryEach(s, lid, pn, pn);
  }

  /** The invariant that also wants every user of the table named. */
  lemma PutKeepsCoherence(s: Store, lid: string, pn: string)
    requires Coherent(s)
    ensures Coherent(PutNext(s, lid, pn)) <==> Cached(s, lid, pn) || (lid != "" && pn != "")
  {
    if !Cached(s, lid, pn) {
      if lid != "" && pn != "" {
        UnlockedPutKeepsCoherence(s, lid, pn);
      } else {
        PutKeepsConstraints(s.table, lid, pn);
      }
    }
  }

  /** The short-circuit is invisible in the table, except that a cached absence of `pn` passes
      for a cached mapping to the empty LID. */
  lemma PutRefinesIff(s: Store, lid: string, pn: string)
    requires CachesRight(s)
    ensures PutNext(s, lid, pn).table == Put(s.table, lid, pn)
       <==> !Cached(s, lid, pn) || lid != "" || Has(s.table, lid, pn)
  {
    if Cached(s, lid, pn) {
      AnswerIsRow(s.table, pn);
      if Has(s.table, lid, pn) {
        PutOfRow(s.table, lid, pn);
      } else {
        assert Has(Put(s.table, lid, pn), lid, pn);
      }
    }
  }

  lemma PutRefines(s: Store, lid: string, pn: string)
    requires Coherent(s) && lid != "" && pn != ""
    ensures PutNext(s, lid, pn).table == Put(s.table, lid, pn)
  {
    PutRefinesIff(s, lid, pn);
  }

  lemma PutOfRow(t: Table, lid: string, pn: string)
    requires UniquePn(t) && Has(t, lid, pn)
    ensures Put(t, lid, pn) == t
  {
    assert DeleteOthers(t, lid, pn) == t;
  }

  /** A put whose transaction rolls back keeps its cache entries.  They are right exactly when
      the row was in the table all along. */
  lemma RolledBackPut(s: Store, lid: string, pn: string)
    requires Coherent(s) && lid != "" && pn != ""
    ensures Coherent(PutCaches(s, lid, pn)) <==> Has(s.table, lid, pn)
  {
    var s' := PutCaches(s, lid, pn);
    if Has(s.table, lid, pn) {
      UnlockedPutKeepsCoherence(s, lid, pn);
      PutOfRow(s.table, lid, pn);
    } else {
      assert s'.lidToPn[lid] == pn;
    }
  }

  /** Without the pairing clause the eviction logic would not be right: here every entry
      agrees with the table, yet a put leaves a stale one behind. */
  lemma PairingIsNeeded()
    ensures exists s: Store, lid: string, pn: string ::
              && WellFormed(s.table) && EntriesAgree(s) && FilledMeansAll(s) && lid != "" && pn != ""
              && !EntriesAgree(UnlockedPut(s, lid, pn))
  {
    var s := Store(map["l" := "p"], map["p" := "l"], map[], false);
    LookupsAtRow(s.table, "l", "p");
    var s' := UnlockedPut(s, "l", "q");
    assert Has(s'.table, "l", "q");
    assert s'.pnToLid["p"] == "l";
    assert !Has(s'.table, "l", "p");
    assert LidOf(s'.table, "p") != "l";
  }
}

/** Batches that contradict themselves: consistency is exactly what a batch needs to have a
    meaning of its own, independent of what happened to be cached. */
module LidClash {
  import opened Sql
  import opened LidTable
  import opened LidCache
  import opened LidPuts
  import opened LidBatch
  import opened LidRuns

  /** The entries share one of their users and not the other. */
  predicate Clash(a: Mapping, b: Mapping) {
    (a.lid.user == b.lid.user) != (a.pn.user == b.pn.user)
  }

  /** The last entry that clashes with an earlier one; nothing after it clashes with it. */
  lemma {:induction false} LastClash(ws: seq<Mapping>) returns (i: nat, j: nat)
    requires (forall m :: m in ws ==> ValidEntry(m)) && !Consistent(Pairs(ws))
    ensures j < i < |ws| && Clash(ws[i], ws[j])
    ensures forall k :: i < k < |ws| ==> !Clash(ws[i], ws[k])
  {
    assert ws != [];
    var front, last := ws[..|ws| - 1], ws[|ws| - 1];
    if e :| 0 <= e < |front| && Clash(last, front[e]) {
      return |front|, e;
    }
    assert ws == front + [last];
    assert !Consistent(Pairs(front)) by {
      if Consistent(Pairs(front)) {
        ConsistentExtends(front, last);
      }
    }
    i, j := LastClash(front);
  }

  lemma ConsistentExtends(front: seq<Mapping>, last: Mapping)
    requires ValidEntry(last) && Consistent(Pairs(front)) && forall m :: m in front ==> !Clash(last, m)
    ensures Consistent(Pairs(front + [last]))
  {
    var ws := front + [last];
    assert ws[..|ws| - 1] == front;
    PairsSplit(ws);
    forall a | a in Pairs(front)
      ensures a.0 == last.lid.user <==> a.1 == last.pn.user
    {
      var m :| m in front && ValidEntry(m) && a == (m.lid.user, m.pn.user);
      assert !Clash(last, m);
    }
  }

  /** A put that no later put clashes with is visible at the end. */
  lemma {:induction false} LaterWins(s: Store, ws: seq<Mapping>, i: nat)
    requires i < |ws| && forall k :: i < k < |ws| ==> !Clash(ws[i], ws[k])
    ensures Has(PutAll(s, ws).table, ws[i].lid.user, ws[i].pn.user)
  {
    var front, last := ws[..|ws| - 1], ws[|ws| - 1];
    if i < |front| {
      LaterWins(s, front, i);
      assert !Clash(ws[i], ws[|front|]);
    }
    PutRows(PutAll(s, front).table, last.lid.user, last.pn.user, ws[i].lid.user, ws[i].pn.user);
  }

  /** Puts of other pairs keep a row exactly if all of them leave both of its columns alone. */
  lemma {:induction false} OthersEvict(s: Store, ws: seq<Mapping>, l: string, p: string)
    requires forall m :: m in ws ==> (m.lid.user, m.pn.user) != (l, p)
    ensures Has(PutAll(s, ws).table, l, p)
       <==> Has(s.table, l, p) && forall m :: m in ws ==> m.lid.user != l && m.pn.user != p
  {
    if ws != [] {
      var front, last := ws[..|ws| - 1], ws[|ws| - 1];
      assert ws == front + [last];
      OthersEvict(s, front, l, p);
      PutRows(PutAll(s, front).table, last.lid.user, last.pn.user, l, p);
    }
  }

  /** Two coherent stores over the one row (l, p): in one of them it is cached. */
  function Warm(l: string, p: string): Store {
    Store(map[l := p], map[p := l], map[l := p], false)
  }

  function Cold(l: string, p: string): Store {
    Store(map[l := p], map[], map[], false)
  }

  lemma WarmAndColdCoherent(l: string, p: string)
    requires l != "" && p != ""
    ensures Coherent(Warm(l, p)) && Coherent(Cold(l, p))
  {
    LookupsAtRow(Warm(l, p).table, l, p);
  }

  /** From the warm store every entry for (l, p) is dropped, and an entry that clashes with it
      takes the row away. */
  lemma WarmLoses(ms: seq<Mapping>, c: Mapping, b: Mapping)
    requires b in ms && ValidEntry(b) && Clash(c, b)
    ensures !Has(PutManyNext(Warm(c.lid.user, c.pn.user), ms, NoFault).table, c.lid.user, c.pn.user)
  {
    var s := Warm(c.lid.user, c.pn.user);
    KeptPairs(s, ms);
    DedupSameElements(Kept(s, ms));
    assert b in Work(s, ms);
    OthersEvict(s, Work(s, ms), c.lid.user, c.pn.user);
  }

  /** With empty caches nothing but invalid entries is dropped. */
  lemma {:induction false} ColdKept(s: Store, ms: seq<Mapping>)
    requires s.pnToLid == map[]
    ensures Kept(s, ms) == Kept(Store(map[], map[], map[], false), ms)
  {
    if ms != [] {
      ColdKept(s, ms[..|ms| - 1]);
    }
  }

  function ValidOf(ms: seq<Mapping>): seq<Mapping> {
    Kept(Store(map[], map[], map[], false), ms)
  }

  lemma ValidOfPairs(ms: seq<Mapping>)
    ensures forall m :: m in ValidOf(ms) <==> m in ms && ValidEntry(m)
    ensures forall m :: m in Dedup(ValidOf(ms)) <==> m in ms && ValidEntry(m)
    ensures Pairs(ValidOf(ms)) == Pairs(ms) && Pairs(Dedup(ValidOf(ms))) == Pairs(ms)
  {
    KeptPairs(Store(map[], map[], map[], false), ms);
    DedupSameElements(ValidOf(ms));
  }

  lemma PutAllPush(s: Store, ws: seq<Mapping>, m: Mapping)
    ensures PutAll(s, ws + [m]) == UnlockedPut(PutAll(s, ws), m.lid.user, m.pn.user)
  {
    assert (ws + [m])[..|ws|] == ws;
  }

  lemma {:induction false} PutEachPutsAll(s: Store, ms: seq<Mapping>)
    ensures PutEach(s.table, ms) == PutAll(s, ValidOf(ms)).table
  {
    if ms != [] {
      var front, last := ms[..|ms| - 1], ms[|ms| - 1];
      PutEachPutsAll(s, front);
      if ValidEntry(last) {
        PutAllPush(s, ValidOf(front), last);
      } else {
        assert ValidOf(ms) == ValidOf(front);
      }
    }
  }

  /** Putting the entries one after the other keeps a pair that the warm store loses. */
  lemma EachDiffers(ms: seq<Mapping>) returns (s: Store)
    requires NonEmptyPairs(Pairs(ms)) && !Consistent(Pairs(ms))
    ensures Coherent(s) && PutManyNext(s, ms, NoFault).table != PutEach(s.table, ms)
  {
    var ws := ValidOf(ms);
    ValidOfPairs(ms);
    var i, j := LastClash(ws);
    var c, b := ws[i], ws[j];
    assert c in ws && b in ws;
    assert (c.lid.user, c.pn.user) in Pairs(ms);
    s := Warm(c.lid.user, c.pn.user);
    WarmAndColdCoherent(c.lid.user, c.pn.user);
    WarmLoses(ms, c, b);
    PutEachPutsAll(s, ms);
    LaterWins(s, ws, i);
  }

  /** And so does the same batch from the cold store over the same table. */
  lemma CachesDecide(ms: seq<Mapping>) returns (l: string, p: string)
    requires NonEmptyPairs(Pairs(ms)) && !Consistent(Pairs(ms))
    ensures Coherent(Warm(l, p)) && Coherent(Cold(l, p))
    ensures PutManyNext(Warm(l, p), ms, NoFault).table != PutManyNext(Cold(l, p), ms, NoFault).table
  {
    var ws := Dedup(ValidOf(ms));
    ValidOfPairs(ms);
    var i, j := LastClash(ws);
    var c, b := ws[i], ws[j];
    assert c in ws && b in ws;
    assert (c.lid.user, c.pn.user) in Pairs(ms);
    l, p := c.lid.user, c.pn.user;
    WarmAndColdCoherent(l, p);
    WarmLoses(ms, c, b);
    ColdKept(Cold(l, p), ms);
    LaterWins(Cold(l, p), ws, i);
  }

  /** A batch means "put each valid entry in turn" from every coherent store, exactly if it does
      not contradict itself. */
  lemma BatchMeaningIff(ms: seq<Mapping>)
    requires NonEmptyPairs(Pairs(ms))
    ensures (forall s: Store :: Coherent(s) ==> PutManyNext(s, ms, NoFault).table == PutEach(s.table, ms))
       <==> Consistent(Pairs(ms))
  {
    if Consistent(Pairs(ms)) {
      forall s: Store | Coherent(s)
        ensures PutManyNext(s, ms, NoFault).table == PutEach(s.table, ms)
      {
        BatchEqualsSinglePuts(s, ms, NoFault);
        PutEachIsSinglePuts(s, ms);
      }
    } else {
      var s := EachDiffers(ms);
    }
  }

  /** Weaker even: that the caches have no say at all in the resulting table already takes a
      batch that does not contradict itself. */
  lemma CacheIndependentIff(ms: seq<Mapping>)
    requires NonEmptyPairs(Pairs(ms))
    ensures (forall s1: Store, s2: Store :: Coherent(s1) && Coherent(s2) && s1.table == s2.table ==>
               PutManyNext(s1, ms, NoFault).table == PutManyNext(s2, ms, NoFault).table)
       <==> Consistent(Pairs(ms))
  {
    if Consistent(Pairs(ms)) {
      forall s1: Store, s2: Store | Coherent(s1) && Coherent(s2) && s1.table == s2.table
        ensures PutManyNext(s1, ms, NoFault).table == PutManyNext(s2, ms, NoFault).table
      {
        BatchOrderIrrelevant(s1, s2, ms, ms, NoFault, NoFault);
      }
    } else {
      var l, p := CachesDecide(ms);
    }
  }
}

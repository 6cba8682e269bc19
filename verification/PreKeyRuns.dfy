/** What the pre-key calls promise over sequences of calls: stable results, the upload
    protocol, and when IDs run out or are issued again. */
module PreKeyRuns {
  import opened Sql
  import opened SortedIds
  import opened PreKeys

  function Ids(ks: seq<PreKey>): set<nat> {
    set k | k in ks :: k.id
  }

  /** The listing is ascending and has exactly the unuploaded rows. */
  lemma ListingFacts(t: Table)
    ensures |Listing(t)| == |Unuploaded(t)|
    ensures forall i, j :: 0 <= i < j < |Listing(t)| ==> Listing(t)[i].id < Listing(t)[j].id
    ensures forall k :: k in Listing(t) <==> k.id in t && t[k.id] == PreKeyRow(k.key, false)
  {
    var ids := Sorted(Unuploaded(t));
    SortedElements(Unuploaded(t));
    SortedIncreases(Unuploaded(t));
    forall k
      ensures k in Listing(t) <==> k.id in t && t[k.id] == PreKeyRow(k.key, false)
    {
      if k in Listing(t) {
        var i :| 0 <= i < |ids| && Listing(t)[i] == k;
        assert ids[i] in ids;
      }
      if k.id in t && t[k.id] == PreKeyRow(k.key, false) {
        assert k.id in Unuploaded(t) && k.id in ids;
        var i :| 0 <= i < |ids| && ids[i] == k.id;
        assert Listing(t)[i] == k;
      }
    }
  }

  lemma SameKeysAt(t: Table, t': Table, ids: seq<nat>)
    requires forall id :: id in ids ==> KeyAt(t, id) == KeyAt(t', id)
    ensures KeysAt(t, ids) == KeysAt(t', ids)
  {
  }

  lemma SameUnuploadedSameListing(t: Table, t': Table)
    requires Unuploaded(t) == Unuploaded(t') && forall id :: id in Unuploaded(t) ==> t[id] == t'[id]
    ensures Listing(t) == Listing(t')
  {
    SortedElements(Unuploaded(t));
    SameKeysAt(t, t', Sorted(Unuploaded(t)));
  }

  lemma KeysAtPush(t: Table, ids: seq<nat>, id: nat)
    ensures KeysAt(t, ids + [id]) == KeysAt(t, ids) + [KeyAt(t, id)]
  {
  }

  /** An unuploaded row above all live IDs goes to the end of the listing. */
  lemma ListingPush(t: Table, id: nat, key: Bytes)
    requires forall x :: x in t ==> x < id
    ensures Listing(t[id := PreKeyRow(key, false)]) == Listing(t) + [PreKey(id, key)]
  {
    var t' := t[id := PreKeyRow(key, false)];
    var ids := Sorted(Unuploaded(t));
    assert Sorted(Unuploaded(t')) == ids + [id] by {
      assert Unuploaded(t') == Unuploaded(t) + {id};
      SortedPush(Unuploaded(t), id);
    }
    assert KeysAt(t', ids) == KeysAt(t, ids) by {
      SortedElements(Unuploaded(t));
      SameKeysAt(t, t', ids);
    }
    KeysAtPush(t', ids, id);
  }

  lemma FreshAbove(t: Table, next: nat, n: nat, gen: nat -> Bytes)
    requires forall x :: x in t ==> x < next
    ensures forall x :: x in WithFresh(t, next, n, gen) ==> x < next + n
  {
    FreshRows(t, next, n, gen);
  }

  /** `list` gets an unuploaded row above all live IDs at its end. */
  ghost predicate Appends(list: Table -> seq<PreKey>) {
    forall t: Table, id: nat, key: Bytes | (forall x :: x in t ==> x < id) ::
      list(t[id := PreKeyRow(key, false)]) == list(t) + [PreKey(id, key)]
  }

  lemma AppendsOne(list: Table -> seq<PreKey>, t: Table, front: seq<PreKey>, ks: seq<PreKey>, id: nat, key: Bytes)
    requires Appends(list) && (forall x :: x in t ==> x < id) && list(t) == front + ks
    ensures list(t[id := PreKeyRow(key, false)]) == front + (ks + [PreKey(id, key)])
  {
    assert front + ks + [PreKey(id, key)] == front + (ks + [PreKey(id, key)]);
  }

  lemma AppendsNext(list: Table -> seq<PreKey>, t: Table, next: nat, n: nat, gen: nat -> Bytes)
    requires Appends(list) && forall x :: x in t ==> x < next
    requires list(WithFresh(t, next, n, gen)) == list(t) + Generated(next, n, gen)
    ensures list(WithFresh(t, next, n + 1, gen)) == list(t) + Generated(next, n + 1, gen)
  {
    FreshAbove(t, next, n, gen);
    AppendsOne(list, WithFresh(t, next, n, gen), list(t), Generated(next, n, gen), next + n, gen(n));
  }

  lemma {:induction false} AppendsFresh(list: Table -> seq<PreKey>, t: Table, next: nat, n: nat, gen: nat -> Bytes)
    requires Appends(list) && forall x :: x in t ==> x < next
    ensures list(WithFresh(t, next, n, gen)) == list(t) + Generated(next, n, gen)
  {
    if n > 0 {
      AppendsFresh(list, t, next, n - 1, gen);
      AppendsNext(list, t, next, n - 1, gen);
    }
  }

  lemma FreshListing(t: Table, next: nat, n: nat, gen: nat -> Bytes)
    requires forall x :: x in t ==> x < next
    ensures Listing(WithFresh(t, next, n, gen)) == Listing(t) + Generated(next, n, gen)
  {
    assert Appends(Listing) by {
      forall t': Table, id: nat, key: Bytes | forall x :: x in t' ==> x < id
        ensures Listing(t'[id := PreKeyRow(key, false)]) == Listing(t') + [PreKey(id, key)]
      {
        ListingPush(t', id, key);
      }
    }
    AppendsFresh(Listing, t, next, n, gen);
  }

  lemma TopUpListing(t: Table, n: nat, gen: nat -> Bytes)
    ensures Listing(WithFresh(t, NextId(t), n, gen)) == Listing(t) + Generated(NextId(t), n, gen)
  {
    FreshListing(t, NextId(t), n, gen);
  }

  /** The tables that generators make of t: more rows, all above the live IDs of t, and a
      listing that only got longer at its end. */
  ghost predicate Grows(t: Table, t': Table) {
    && (forall id :: id in t ==> id in t' && t'[id] == t[id])
    && (forall id :: id in t' && id !in t ==> id > Top(t.Keys))
    && Listing(t) <= Listing(t')
  }

  lemma GrowsTransitive(t: Table, t1: Table, t2: Table)
    requires Grows(t, t1) && Grows(t1, t2)
    ensures Grows(t, t2)
  {
    if t != map[] {
      assert Top(t.Keys) in t1.Keys;
    }
  }

  lemma GetOrGenGrows(t: Table, count: nat, gen: nat -> Bytes, fault: Fault)
    requires ValidIds(t)
    ensures ValidIds(GetOrGenTable(t, count, gen, fault)) && Grows(t, GetOrGenTable(t, count, gen, fault))
  {
    FreshRows(t, NextId(t), Inserted(t, count, fault), gen);
    TopUpListing(t, Inserted(t, count, fault), gen);
  }

  lemma GenOneGrows(t: Table, key: Bytes, fault: Fault)
    requires ValidIds(t)
    ensures ValidIds(GenOneTable(t, key, fault)) && Grows(t, GenOneTable(t, key, fault))
  {
    UploadedRowUnlisted(t, NextId(t), key);
  }

  /** An uploaded row with a new ID is not listed. */
  lemma UploadedRowUnlisted(t: Table, id: nat, key: Bytes)
    requires id !in t
    ensures Listing(t[id := PreKeyRow(key, true)]) == Listing(t)
  {
    var t' := t[id := PreKeyRow(key, true)];
    assert Unuploaded(t) == Unuploaded(t');
    SameUnuploadedSameListing(t, t');
  }

  /** A successful call returns the first `count` entries of the listing it leaves. */
  lemma ResultIsLowest(t: Table, count: nat, gen: nat -> Bytes, fault: Fault)
    requires ValidIds(t) && GetOrGenKeys(t, count, gen, fault).Some?
    ensures |GetOrGenKeys(t, count, gen, fault).value| == count
    ensures GetOrGenKeys(t, count, gen, fault).value <= Listing(GetOrGenTable(t, count, gen, fault))
  {
    var n := Shortfall(t, count);
    TopUpListing(t, n, gen);
    if n == 0 {
      assert GetOrGenKeys(t, count, gen, fault).value == Lowest(t, count);
    }
  }

  /** A list of stored keys with everything else that is unuploaded above it. */
  ghost predicate LowestUnuploaded(t: Table, r: seq<PreKey>) {
    && (forall i, j :: 0 <= i < j < |r| ==> r[i].id < r[j].id)
    && (forall k :: k in r ==> k.id in t && t[k.id] == PreKeyRow(k.key, false))
    && (forall k, id :: k in r && id in Unuploaded(t) - Ids(r) ==> k.id < id)
  }

  /** A successful call returns exactly `count` keys with strictly increasing IDs, all stored
      and unuploaded, the lowest there are; it changes no row that was there, and it adds
      rows only for keys that it returns. */
  lemma GetOrGenExact(t: Table, count: nat, gen: nat -> Bytes, fault: Fault)
    requires ValidIds(t) && GetOrGenKeys(t, count, gen, fault).Some?
    ensures var t', r := GetOrGenTable(t, count, gen, fault), GetOrGenKeys(t, count, gen, fault).value;
            && |r| == count && LowestUnuploaded(t', r)
            && Grows(t, t') && t'.Keys - t.Keys <= Ids(r)
  {
    var t', r := GetOrGenTable(t, count, gen, fault), GetOrGenKeys(t, count, gen, fault).value;
    ResultIsLowest(t, count, gen, fault);
    GetOrGenGrows(t, count, gen, fault);
    ListingFacts(t');
    forall k | k in r
      ensures k in Listing(t')
    {
      var i :| 0 <= i < count && r[i] == k;
      assert Listing(t')[i] == k;
    }
    RestIsAbove(t', r);
    NewRowsReturned(t, count, gen, fault);
  }

  lemma RestIsAbove(t: Table, r: seq<PreKey>)
    requires r <= Listing(t)
    ensures forall k, id :: k in r && id in Unuploaded(t) - Ids(r) ==> k.id < id
  {
    var all := Listing(t);
    ListingFacts(t);
    assert forall m :: 0 <= m < |r| ==> r[m].id in Ids(r);
    forall k, id | k in r && id in Unuploaded(t) - Ids(r)
      ensures k.id < id
    {
      assert PreKey(id, t[id].key) in all;
      var i, j :| 0 <= i < |r| && r[i] == k && 0 <= j < |all| && all[j] == PreKey(id, t[id].key);
      assert all[i] == k;
    }
  }

  lemma GeneratedIds(low: seq<PreKey>, next: nat, n: nat, gen: nat -> Bytes)
    ensures forall id :: next <= id < next + n ==> id in Ids(low + Generated(next, n, gen))
  {
    var r := low + Generated(next, n, gen);
    forall id | next <= id < next + n
      ensures id in Ids(r)
    {
      GeneratedAt(next, n, gen, id - next);
      assert r[|low| + (id - next)] == PreKey(id, gen(id - next));
    }
  }

  lemma NewRowsReturned(t: Table, count: nat, gen: nat -> Bytes, fault: Fault)
    requires ValidIds(t) && GetOrGenKeys(t, count, gen, fault).Some?
    ensures GetOrGenTable(t, count, gen, fault).Keys - t.Keys <= Ids(GetOrGenKeys(t, count, gen, fault).value)
  {
    FreshRows(t, NextId(t), Shortfall(t, count), gen);
    GeneratedIds(Lowest(t, count), NextId(t), Shortfall(t, count), gen);
  }

  /** With a working database a call works out exactly when the largest live ID plus the keys
      it has to generate stays below 2^24. */
  lemma TopUpSucceedsIff(t: Table, count: nat, gen: nat -> Bytes, fault: Fault)
    requires ValidIds(t)
    ensures var missing := if count > |Unuploaded(t)| then count - |Unuploaded(t)| else 0;
            GetOrGenKeys(t, count, gen, fault).Some? <==>
              && Top(t.Keys) + missing <= 16777215
              && !(exists step :: fault == FailAt(step) && CallReaches(missing, step))
  {
    ListingFacts(t);
  }

  /** The steps of a call that has `missing` keys to insert. */
  predicate CallReaches(missing: nat, step: nat) {
    step == 0 || (missing > 0 && step < 2 + missing)
  }

  lemma ExhaustedTop(t: Table, count: nat, gen: nat -> Bytes)
    requires ValidIds(t) && GetOrGenKeys(t, count, gen, NoFault).None?
    ensures ValidIds(GetOrGenTable(t, count, gen, NoFault))
    ensures Top(GetOrGenTable(t, count, gen, NoFault).Keys) == ID_LIMIT - 1
  {
    var t' := GetOrGenTable(t, count, gen, NoFault);
    GetOrGenGrows(t, count, gen, NoFault);
    FreshAt(t, NextId(t), Room(t), gen, ID_LIMIT - 1);
    if Room(t) > 0 {
      assert ID_LIMIT - 1 in t'.Keys;
    }
  }

  lemma NoRoomNoKeys(t: Table, n: nat, gen: nat -> Bytes, key: Bytes, fault: Fault)
    requires ValidIds(t) && Room(t) == 0
    ensures GenOneTable(t, key, fault) == t && GetOrGenTable(t, n, gen, fault) == t
    ensures GetOrGenKeys(t, n, gen, fault).Some? <==> n <= |Unuploaded(t)| && !Fails(fault, 0)
  {
    ListingFacts(t);
    assert Inserted(t, n, fault) == 0;
  }

  /** A call that runs out of IDs leaves the rows it did insert: the last ID is live then, and
      until something is removed no call generates anything. */
  lemma ExhaustionIsFinal(t: Table, count: nat, gen: nat -> Bytes,
                          n: nat, gen': nat -> Bytes, key: Bytes, fault: Fault)
    requires ValidIds(t) && GetOrGenKeys(t, count, gen, NoFault).None?
    ensures var t' := GetOrGenTable(t, count, gen, NoFault);
            && Top(t'.Keys) == ID_LIMIT - 1
            && GenOneTable(t', key, fault) == t'
            && GetOrGenTable(t', n, gen', fault) == t'
            && (GetOrGenKeys(t', n, gen', fault).Some? <==> n <= |Unuploaded(t')| && !Fails(fault, 0))
  {
    var t' := GetOrGenTable(t, count, gen, NoFault);
    ExhaustedTop(t, count, gen);
    NoRoomNoKeys(t', n, gen', key, fault);
  }

  // ---------------------------------------------------------------- sequences of calls

  /** One call; a generator may meet a database fault, and keeps the rows it inserted before. */
  datatype Op =
    | GenOne(key: Bytes, fault: Fault)
    | GetOrGen(count: nat, gen: nat -> Bytes, fault: Fault)
    | MarkUpTo(id: nat)
    | Remove(id: nat)

  function Next(t: Table, op: Op): (t': Table)
    requires ValidIds(t)
    ensures ValidIds(t')
  {
    match op
    case GenOne(key, fault) => GenOneGrows(t, key, fault); GenOneTable(t, key, fault)
    case GetOrGen(count, gen, fault) => GetOrGenGrows(t, count, gen, fault); GetOrGenTable(t, count, gen, fault)
    case MarkUpTo(id) => Mark(t, id)
    case Remove(id) => t - {id}
  }

  function Run(t: Table, ops: seq<Op>): (t': Table)
    requires ValidIds(t)
    ensures ValidIds(t')
    decreases |ops|
  {
    if ops == [] then t else Run(Next(t, ops[0]), ops[1..])
  }

  lemma {:induction false} GeneratorRunGrows(t: Table, ops: seq<Op>)
    requires ValidIds(t) && forall op :: op in ops ==> op.GenOne? || op.GetOrGen?
    ensures Grows(t, Run(t, ops))
    decreases |ops|
  {
    if ops != [] {
      var t1 := Next(t, ops[0]);
      assert ops[0] in ops;
      if ops[0].GenOne? {
        GenOneGrows(t, ops[0].key, ops[0].fault);
      } else {
        GetOrGenGrows(t, ops[0].count, ops[0].gen, ops[0].fault);
      }
      GeneratorRunGrows(t1, ops[1..]);
      GrowsTransitive(t, t1, Run(t1, ops[1..]));
    }
  }

  /** Keys handed out once are handed out again, in the same places, to any later call that
      asks for at least as many, whatever generators ran in between. */
  lemma LaterCallExtends(t: Table, c1: nat, gen1: nat -> Bytes, f1: Fault,
                          ops: seq<Op>, c2: nat, gen2: nat -> Bytes, f2: Fault)
    requires ValidIds(t) && GetOrGenKeys(t, c1, gen1, f1).Some? && c1 <= c2
    requires forall op :: op in ops ==> op.GenOne? || op.GetOrGen?
    requires ValidIds(GetOrGenTable(t, c1, gen1, f1))
    requires GetOrGenKeys(Run(GetOrGenTable(t, c1, gen1, f1), ops), c2, gen2, f2).Some?
    ensures GetOrGenKeys(t, c1, gen1, f1).value
         <= GetOrGenKeys(Run(GetOrGenTable(t, c1, gen1, f1), ops), c2, gen2, f2).value
  {
    var t1 := GetOrGenTable(t, c1, gen1, f1);
    var t2 := Run(t1, ops);
    ResultIsLowest(t, c1, gen1, f1);
    ResultIsLowest(t2, c2, gen2, f2);
    GeneratorRunGrows(t1, ops);
    GetOrGenGrows(t2, c2, gen2, f2);
  }

  /** Nothing unuploaded is left at or below `last`, and the next ID lies above it. */
  ghost predicate AllAbove(t: Table, last: nat) {
    && (forall id :: id in Unuploaded(t) ==> id > last)
    && Top(t.Keys) >= last
  }

  lemma MarkUploadsList(t: Table, r: seq<PreKey>)
    requires r != [] && LowestUnuploaded(t, r)
    ensures var marked := Mark(t, r[|r| - 1].id);
            && (forall k :: k in r ==> k.id in marked && marked[k.id] == PreKeyRow(k.key, true))
            && Unuploaded(marked) == Unuploaded(t) - Ids(r)
            && AllAbove(marked, r[|r| - 1].id)
  {
    var last := r[|r| - 1];
    var marked := Mark(t, last.id);
    assert last in r && last.id in t.Keys && marked.Keys == t.Keys;
    forall k | k in r
      ensures k.id <= last.id
    {
      var i :| 0 <= i < |r| && r[i] == k;
    }
    forall id
      ensures id in Unuploaded(marked) <==> id in Unuploaded(t) - Ids(r)
    {
      if id in Ids(r) {
        var k :| k in r && k.id == id;
      }
    }
  }

  /** Marking up to the last returned ID uploads exactly the returned keys. */
  lemma MarkUploadsReturned(t: Table, count: nat, gen: nat -> Bytes, fault: Fault)
    requires ValidIds(t) && count > 0 && GetOrGenKeys(t, count, gen, fault).Some?
    ensures var t', r := GetOrGenTable(t, count, gen, fault), GetOrGenKeys(t, count, gen, fault).value;
            && |r| == count
            && var marked := Mark(t', r[count - 1].id);
               && (forall k :: k in r ==> k.id in marked && marked[k.id] == PreKeyRow(k.key, true))
               && Unuploaded(marked) == Unuploaded(t') - Ids(r)
               && AllAbove(marked, r[count - 1].id)
  {
    GetOrGenExact(t, count, gen, fault);
    MarkUploadsList(GetOrGenTable(t, count, gen, fault), GetOrGenKeys(t, count, gen, fault).value);
  }

  /** A row that counts as uploaded keeps doing so until it is removed. */
  lemma {:induction false} UploadedStays(t: Table, ops: seq<Op>, id: nat)
    requires ValidIds(t) && id in t && t[id].uploaded
    requires forall op :: op in ops ==> op != Remove(id)
    ensures id in Run(t, ops) && Run(t, ops)[id] == t[id]
    decreases |ops|
  {
    if ops != [] {
      var t1 := Next(t, ops[0]);
      assert ops[0] in ops;
      if ops[0].GenOne? {
        GenOneGrows(t, ops[0].key, ops[0].fault);
      } else if ops[0].GetOrGen? {
        GetOrGenGrows(t, ops[0].count, ops[0].gen, ops[0].fault);
      }
      assert forall op :: op in ops[1..] ==> op in ops;
      UploadedStays(t1, ops[1..], id);
    }
  }

  lemma UploadedNotReturned(t: Table, id: nat, count: nat, gen: nat -> Bytes, fault: Fault)
    requires ValidIds(t) && id in t && t[id].uploaded
    ensures GetOrGenKeys(t, count, gen, fault).Some? ==>
              forall k :: k in GetOrGenKeys(t, count, gen, fault).value ==> k.id != id
  {
    if GetOrGenKeys(t, count, gen, fault).Some? {
      GetOrGenExact(t, count, gen, fault);
      assert GetOrGenTable(t, count, gen, fault)[id] == t[id];
    }
  }

  /** A key that GenOnePreKey has handed out is stored, and no later call hands it out again
      while its row is live. */
  lemma OneKeyNeverListed(t: Table, key: Bytes, fault: Fault,
                          ops: seq<Op>, count: nat, gen: nat -> Bytes, f2: Fault)
    requires ValidIds(t) && GenOneSucceeds(t, fault)
    requires forall op :: op in ops ==> op != Remove(Top(t.Keys) + 1)
    ensures ValidIds(GenOneTable(t, key, fault))
    ensures var id, t' := Top(t.Keys) + 1, Run(GenOneTable(t, key, fault), ops);
            && id !in t && id in t' && t'[id] == PreKeyRow(key, true)
            && (GetOrGenKeys(t', count, gen, f2).Some? ==>
                  forall k :: k in GetOrGenKeys(t', count, gen, f2).value ==> k.id != id)
  {
    var id, t1 := Top(t.Keys) + 1, GenOneTable(t, key, fault);
    GenOneGrows(t, key, fault);
    UploadedStays(t1, ops, id);
    UploadedNotReturned(Run(t1, ops), id, count, gen, f2);
  }

  lemma NextKeepsAbove(t: Table, op: Op, last: nat)
    requires ValidIds(t) && AllAbove(t, last) && !op.Remove?
    ensures AllAbove(Next(t, op), last)
  {
    var t' := Next(t, op);
    match op
    case GenOne(key, fault) =>
      GenOneGrows(t, key, fault);
      GrowthKeepsAbove(t, t', last);
    case GetOrGen(count, gen, fault) =>
      GetOrGenGrows(t, count, gen, fault);
      GrowthKeepsAbove(t, t', last);
    case MarkUpTo(id) =>
      assert t'.Keys == t.Keys;
      assert forall x :: x in Unuploaded(t') ==> x in Unuploaded(t);
  }

  lemma GrowthKeepsAbove(t: Table, t': Table, last: nat)
    requires AllAbove(t, last) && Grows(t, t')
    ensures AllAbove(t', last)
  {
    forall id | id in Unuploaded(t')
      ensures id > last
    {
      if id in t {
        assert id in Unuploaded(t);
      }
    }
    if t != map[] {
      assert Top(t.Keys) in t'.Keys;
    }
  }

  lemma {:induction false} RunKeepsAbove(t: Table, ops: seq<Op>, last: nat)
    requires ValidIds(t) && AllAbove(t, last) && forall op :: op in ops ==> !op.Remove?
    ensures AllAbove(Run(t, ops), last)
    decreases |ops|
  {
    if ops != [] {
      assert ops[0] in ops;
      NextKeepsAbove(t, ops[0], last);
      RunKeepsAbove(Next(t, ops[0]), ops[1..], last);
    }
  }

  lemma ReturnsAbove(t: Table, count: nat, gen: nat -> Bytes, fault: Fault, last: nat)
    requires ValidIds(t) && AllAbove(t, last) && GetOrGenKeys(t, count, gen, fault).Some?
    ensures forall k :: k in GetOrGenKeys(t, count, gen, fault).value ==> k.id > last
  {
    GetOrGenExact(t, count, gen, fault);
    var t' := GetOrGenTable(t, count, gen, fault);
    GrowthKeepsAbove(t, t', last);
    forall k | k in GetOrGenKeys(t, count, gen, fault).value
      ensures k.id > last
    {
      assert k.id in Unuploaded(t');
    }
  }

  /** The upload protocol: generate, mark up to the last returned ID, and go on without
      removals; then every later call returns larger IDs only. */
  lemma UploadedNeverReturned(t: Table, count: nat, gen: nat -> Bytes, fault: Fault,
                              ops: seq<Op>, c2: nat, gen2: nat -> Bytes, f2: Fault)
    requires ValidIds(t) && count > 0 && GetOrGenKeys(t, count, gen, fault).Some?
    requires forall op :: op in ops ==> !op.Remove?
    ensures ValidIds(GetOrGenTable(t, count, gen, fault))
    ensures |GetOrGenKeys(t, count, gen, fault).value| == count
    ensures var last := GetOrGenKeys(t, count, gen, fault).value[count - 1].id;
            var t' := Run(Mark(GetOrGenTable(t, count, gen, fault), last), ops);
            GetOrGenKeys(t', c2, gen2, f2).Some? ==>
              forall k :: k in GetOrGenKeys(t', c2, gen2, f2).value ==> k.id > last
  {
    GetOrGenGrows(t, count, gen, fault);
    MarkUploadsReturned(t, count, gen, fault);
    var last := GetOrGenKeys(t, count, gen, fault).value[count - 1].id;
    var t' := Run(Mark(GetOrGenTable(t, count, gen, fault), last), ops);
    RunKeepsAbove(Mark(GetOrGenTable(t, count, gen, fault), last), ops, last);
    if GetOrGenKeys(t', c2, gen2, f2).Some? {
      ReturnsAbove(t', c2, gen2, f2, last);
    }
  }

  /** With removals the promise holds exactly while nothing has to be generated or a live ID
      at or above `last` remains: the next ID is counted from the live rows only. */
  lemma RemovalMayReissue(t: Table, removed: set<nat>, last: nat, count: nat, gen: nat -> Bytes, fault: Fault)
    requires ValidIds(t) && AllAbove(t, last)
    requires ValidIds(t - removed) && GetOrGenKeys(t - removed, count, gen, fault).Some?
    ensures (forall k :: k in GetOrGenKeys(t - removed, count, gen, fault).value ==> k.id > last)
       <==> count <= |Unuploaded(t - removed)| || Top((t - removed).Keys) >= last
  {
    var t' := t - removed;
    ListingFacts(t');
    if count <= |Unuploaded(t')| {
      WithoutTopUp(t', count, gen, fault);
      assert forall id :: id in Unuploaded(t') ==> id in Unuploaded(t);
    } else {
      FirstGenerated(t', count, gen, fault);
      if Top(t'.Keys) >= last {
        assert AllAbove(t', last) by {
          assert forall id :: id in Unuploaded(t') ==> id in Unuploaded(t);
        }
        ReturnsAbove(t', count, gen, fault, last);
      }
    }
  }

  lemma WithoutTopUp(t: Table, count: nat, gen: nat -> Bytes, fault: Fault)
    requires ValidIds(t) && GetOrGenKeys(t, count, gen, fault).Some? && count <= |Unuploaded(t)|
    ensures forall k :: k in GetOrGenKeys(t, count, gen, fault).value ==> k.id in Unuploaded(t)
  {
    ListingFacts(t);
    assert GetOrGenKeys(t, count, gen, fault).value == Lowest(t, count);
    assert forall k :: k in Lowest(t, count) ==> k in Listing(t);
  }

  lemma FirstGenerated(t: Table, count: nat, gen: nat -> Bytes, fault: Fault)
    requires ValidIds(t) && GetOrGenKeys(t, count, gen, fault).Some? && count > |Unuploaded(t)|
    ensures PreKey(NextId(t), gen(0)) in GetOrGenKeys(t, count, gen, fault).value
  {
    ListingFacts(t);
    GeneratedAt(NextId(t), Shortfall(t, count), gen, 0);
    assert Generated(NextId(t), Shortfall(t, count), gen)[0] in GetOrGenKeys(t, count, gen, fault).value;
  }

  lemma OneFromEmpty(t: Table, gen: nat -> Bytes)
    requires t == map[]
    ensures ValidIds(t)
    ensures GetOrGenKeys(t, 1, gen, NoFault) == Some([PreKey(1, gen(0))])
    ensures GetOrGenTable(t, 1, gen, NoFault) == map[1 := PreKeyRow(gen(0), false)]
  {
    assert Unuploaded(t) == {};
    assert Listing(t) == [];
    assert Generated(1, 1, gen) == [PreKey(1, gen(0))];
    assert WithFresh(t, 1, 1, gen) == map[1 := PreKeyRow(gen(0), false)];
  }

  /** The plain case: generate one key, mark it, remove it, and its ID comes out again. */
  lemma RemovedTopIdComesBack(t: Table, gen1: nat -> Bytes, gen2: nat -> Bytes)
    requires t == map[]
    ensures ValidIds(t) && GetOrGenKeys(t, 1, gen1, NoFault) == Some([PreKey(1, gen1(0))])
    ensures var t' := Mark(GetOrGenTable(t, 1, gen1, NoFault), 1) - {1};
            ValidIds(t') && GetOrGenKeys(t', 1, gen2, NoFault) == Some([PreKey(1, gen2(0))])
  {
    OneFromEmpty(t, gen1);
    var t' := Mark(GetOrGenTable(t, 1, gen1, NoFault), 1) - {1};
    assert t' == map[];
    OneFromEmpty(t', gen2);
  }
}

/** The one-time pre-keys of an account: handing out the lowest unuploaded ones, topping up
    above the largest live ID, and marking them uploaded up to an ID. */
module PreKeys {
  import opened Sql
  import opened SortedIds

  datatype PreKeyRow = PreKeyRow(key: Bytes, uploaded: bool)

  datatype PreKey = PreKey(id: nat, key: Bytes)

  /** The rows of `pre_keys` that belong to this account, by key_id. */
  type Table = map<nat, PreKeyRow>

  /** CHECK ( key_id >= 0 AND key_id < 16777216 ). */
  const ID_LIMIT: nat := 16777216

  predicate ValidIds(t: Table) {
    forall id | id in t :: id < ID_LIMIT
  }

  function Unuploaded(t: Table): set<nat> {
    set id | id in t && !t[id].uploaded
  }

  function KeyAt(t: Table, id: nat): PreKey {
    PreKey(id, if id in t then t[id].key else "")
  }

  function KeysAt(t: Table, ids: seq<nat>): (ks: seq<PreKey>)
    ensures |ks| == |ids|
  {
    seq(|ids|, i requires 0 <= i < |ids| => KeyAt(t, ids[i]))
  }

  /** SELECT key_id, key ... WHERE uploaded=false ORDER BY key_id. */
  function Listing(t: Table): seq<PreKey> {
    KeysAt(t, Sorted(Unuploaded(t)))
  }

  /** The same with LIMIT $2. */
  function Lowest(t: Table, count: nat): seq<PreKey> {
    if count < |Listing(t)| then Listing(t)[..count] else Listing(t)
  }

  function NextId(t: Table): nat {
    Top(t.Keys) + 1
  }

  /** INSERT INTO pre_keys: None stands for a violated CHECK or PRIMARY KEY. */
  function Insert(t: Table, id: nat, key: Bytes, uploaded: bool): Option<Table> {
    if id >= ID_LIMIT || id in t then None else Some(t[id := PreKeyRow(key, uploaded)])
  }

  function Mark(t: Table, upTo: nat): Table {
    map id | id in t :: if id <= upTo then t[id].(uploaded := true) else t[id]
  }

  /** The table after n fresh rows from `next` on; gen(i) is the i-th key generated. */
  function WithFresh(t: Table, next: nat, n: nat, gen: nat -> Bytes): Table {
    if n == 0 then t
    else WithFresh(t, next, n - 1, gen)[next + n - 1 := PreKeyRow(gen(n - 1), false)]
  }

  lemma {:induction false} FreshAt(t: Table, next: nat, n: nat, gen: nat -> Bytes, id: nat)
    ensures var t' := WithFresh(t, next, n, gen);
            && (id in t' <==> id in t || next <= id < next + n)
            && (next <= id < next + n ==> t'[id] == PreKeyRow(gen(id - next), false))
            && (id in t && !(next <= id < next + n) ==> t'[id] == t[id])
  {
    if n > 0 {
      FreshAt(t, next, n - 1, gen, id);
    }
  }

  /** The table gets exactly the fresh rows, in place of any old row with the same ID. */
  lemma FreshRows(t: Table, next: nat, n: nat, gen: nat -> Bytes)
    ensures var t' := WithFresh(t, next, n, gen);
            && (forall id :: id in t' <==> id in t || next <= id < next + n)
            && (forall id :: id in t' ==>
                  t'[id] == if next <= id < next + n then PreKeyRow(gen(id - next), false) else t[id])
  {
    forall id: nat
      ensures var t' := WithFresh(t, next, n, gen);
              && (id in t' <==> id in t || next <= id < next + n)
              && (id in t' ==> t'[id] == if next <= id < next + n then PreKeyRow(gen(id - next), false) else t[id])
    {
      FreshAt(t, next, n, gen, id);
    }
  }

  /** How many IDs are left above the largest live one. */
  function Room(t: Table): nat
    requires ValidIds(t)
  {
    ID_LIMIT - NextId(t)
  }

  function Generated(next: nat, n: nat, gen: nat -> Bytes): (ks: seq<PreKey>)
    ensures |ks| == n
  {
    if n == 0 then [] else Generated(next, n - 1, gen) + [PreKey(next + n - 1, gen(n - 1))]
  }

  lemma {:induction false} GeneratedAt(next: nat, n: nat, gen: nat -> Bytes, i: nat)
    requires i < n
    ensures Generated(next, n, gen)[i] == PreKey(next + i, gen(i))
  {
    if i < n - 1 {
      GeneratedAt(next, n - 1, gen, i);
    }
  }

  /** The rows of t' are those of t and n unuploaded ones with the IDs next to the largest live one. */
  ghost predicate AddsGenerated(t: Table, n: nat, gen: nat -> Bytes, t': Table) {
    && (forall id :: id in t' <==> id in t || Top(t.Keys) < id <= Top(t.Keys) + n)
    && (forall id :: id in t ==> t'[id] == t[id])
    && (forall id :: id in t' && id !in t ==> t'[id] == PreKeyRow(gen(id - Top(t.Keys) - 1), false))
  }

  lemma TopUpAdds(t: Table, n: nat, gen: nat -> Bytes)
    requires ValidIds(t) && n <= Room(t)
    ensures AddsGenerated(t, n, gen, WithFresh(t, NextId(t), n, gen)) && ValidIds(WithFresh(t, NextId(t), n, gen))
    ensures forall i :: 0 <= i < n ==> Generated(NextId(t), n, gen)[i] == PreKey(Top(t.Keys) + 1 + i, gen(i))
  {
    FreshRows(t, NextId(t), n, gen);
    forall i | 0 <= i < n
      ensures Generated(NextId(t), n, gen)[i] == PreKey(Top(t.Keys) + 1 + i, gen(i))
    {
      GeneratedAt(NextId(t), n, gen, i);
    }
  }

  function Shortfall(t: Table, count: nat): nat {
    if count > |Listing(t)| then count - |Listing(t)| else 0
  }

  /** A top-up call runs SELECT (step 0), and if keys are missing SELECT MAX (step 1) and an
      INSERT for each of them (steps 2, 3 and so on).  It ends at the first step that fails or
      is refused; this many rows are inserted then. */
  function Inserted(t: Table, count: nat, fault: Fault): (n: nat)
    requires ValidIds(t)
    ensures n <= Room(t) && n <= Shortfall(t, count)
  {
    var fit := if Shortfall(t, count) <= Room(t) then Shortfall(t, count) else Room(t);
    if fault.NoFault? || fault.step >= 2 + fit then fit
    else if fault.step < 2 then 0
    else fault.step - 2
  }

  predicate GetOrGenSucceeds(t: Table, count: nat, fault: Fault)
    requires ValidIds(t)
  {
    && Shortfall(t, count) <= Room(t)
    && (fault.NoFault? || fault.step >= 2 + Shortfall(t, count) || (fault.step == 1 && Shortfall(t, count) == 0))
  }

  /** A failing top-up keeps the rows it has inserted: there is no transaction around it. */
  function GetOrGenTable(t: Table, count: nat, gen: nat -> Bytes, fault: Fault): Table
    requires ValidIds(t)
  {
    WithFresh(t, NextId(t), Inserted(t, count, fault), gen)
  }

  function GetOrGenKeys(t: Table, count: nat, gen: nat -> Bytes, fault: Fault): Option<seq<PreKey>>
    requires ValidIds(t)
  {
    if GetOrGenSucceeds(t, count, fault)
    then Some(Lowest(t, count) + Generated(NextId(t), Shortfall(t, count), gen))
    else None
  }

  /** A call that reaches no insert. */
  lemma WithoutInserts(t: Table, count: nat, gen: nat -> Bytes, fault: Fault)
    requires ValidIds(t)
    ensures Fails(fault, 0) || (Fails(fault, 1) && |Lowest(t, count)| < count) ==>
              GetOrGenTable(t, count, gen, fault) == t && GetOrGenKeys(t, count, gen, fault) == None
    ensures !Fails(fault, 0) && |Lowest(t, count)| >= count ==>
              GetOrGenTable(t, count, gen, fault) == t && GetOrGenKeys(t, count, gen, fault) == Some(Lowest(t, count))
  {
    if |Lowest(t, count)| >= count {
      assert Lowest(t, count) == Lowest(t, count) + Generated(NextId(t), 0, gen);
    }
  }

  /** A call that runs its loop for `n` keys, and how far the loop gets. */
  lemma WithInserts(t: Table, count: nat, fault: Fault, n: nat)
    requires ValidIds(t) && n == count - |Lowest(t, count)| > 0 && (fault.FailAt? ==> fault.step >= 2)
    ensures Shortfall(t, count) == n
    ensures GetOrGenSucceeds(t, count, fault) <==> n <= Room(t) && (fault.NoFault? || fault.step >= 2 + n)
    ensures Inserted(t, count, fault) == LoopCount(t, n, fault)
  {
  }

  /** The loop for `n` keys inserts so many. */
  function LoopCount(t: Table, n: nat, fault: Fault): nat
    requires ValidIds(t) && (fault.FailAt? ==> fault.step >= 2)
  {
    if n <= Room(t) && (fault.NoFault? || fault.step >= 2 + n) then n
    else if fault.FailAt? && fault.step - 2 <= Room(t) then fault.step - 2
    else Room(t)
  }

  /** A top-up for `count` keys may end after n inserts: with all that were missing, or at a
      statement that fails or an ID that is refused. */
  ghost predicate EndsAfter(t: Table, count: nat, fault: Fault, n: nat, ok: bool) {
    var unuploaded := |set id | id in t && !t[id].uploaded|;
    var missing := if count > unuploaded then count - unuploaded else 0;
    if ok then n == missing
    else
      || (n == 0 && (fault == FailAt(0) || (missing > 0 && fault == FailAt(1))))
      || (n < missing && (fault == FailAt(2 + n) || Top(t.Keys) + n + 1 == ID_LIMIT))
  }

  lemma CallAdds(t: Table, count: nat, gen: nat -> Bytes, fault: Fault)
    requires ValidIds(t)
    ensures var n := Inserted(t, count, fault);
            && AddsGenerated(t, n, gen, GetOrGenTable(t, count, gen, fault))
            && EndsAfter(t, count, fault, n, GetOrGenKeys(t, count, gen, fault).Some?)
  {
    TopUpAdds(t, Inserted(t, count, fault), gen);
    assert Unuploaded(t) == set id | id in t && !t[id].uploaded;
  }

  /** A single generation runs SELECT MAX (step 0) and an INSERT (step 1). */
  predicate GenOneSucceeds(t: Table, fault: Fault) {
    NextId(t) < ID_LIMIT && (fault.NoFault? || fault.step > 1)
  }

  function GenOneTable(t: Table, key: Bytes, fault: Fault): Table {
    if GenOneSucceeds(t, fault) then t[NextId(t) := PreKeyRow(key, true)] else t
  }

  /** Removing a row lowers the next ID exactly if it has the largest ID (above 0). */
  lemma RemovalLowersNextIff(t: Table, id: nat)
    ensures NextId(t - {id}) <= NextId(t)
    ensures NextId(t - {id}) < NextId(t) <==> id in t && id == Top(t.Keys) && id > 0
  {
    var rest := (t - {id}).Keys;
    assert rest == t.Keys - {id};
    if id in t && id != Top(t.Keys) {
      assert Top(t.Keys) in rest;
    } else if id !in t {
      assert rest == t.Keys;
    }
  }

  lemma MarkFacts(t: Table, upTo: nat)
    ensures Unuploaded(Mark(t, upTo)) == set id | id in Unuploaded(t) && id > upTo
    ensures NextId(Mark(t, upTo)) == NextId(t)
  {
    assert Mark(t, upTo).Keys == t.Keys;
  }

  class PreKeyStore {
    var rows: Table

    constructor ()
      ensures rows == map[] && ValidIds(rows)
    {
      rows := map[];
    }

    /** genOnePreKey: a fresh key is made, and stored if the table accepts it.  The key is
        returned in any case, beside the error. */
    method GenPreKey(id: nat, key: Bytes, markUploaded: bool, fault: bool) returns (r: PreKey, ok: bool)
      modifies this
      ensures r == PreKey(id, key) && ok == !(fault || id >= ID_LIMIT || id in old(rows))
      ensures rows == if ok then old(rows)[id := PreKeyRow(key, markUploaded)] else old(rows)
    {
      r := PreKey(id, key);
      if fault {
        return r, false;
      }
      var inserted := Insert(rows, id, key, markUploaded);
      if inserted.None? {
        return r, false;
      }
      rows := inserted.value;
      ok := true;
    }

    /** Step 0 is the query for the next ID, step 1 the insert.  No key comes back only if the
        query fails.  The key counts as uploaded at once, so no listing will name it. */
    method GenOnePreKey(key: Bytes, fault: Fault) returns (r: Option<PreKey>, ok: bool)
      requires ValidIds(rows)
      modifies this
      ensures ValidIds(rows)
      ensures ok <==> Top(old(rows).Keys) + 1 < ID_LIMIT && fault != FailAt(0) && fault != FailAt(1)
      ensures rows == if ok then old(rows)[Top(old(rows).Keys) + 1 := PreKeyRow(key, true)] else old(rows)
      ensures r == if fault == FailAt(0) then None else Some(PreKey(Top(old(rows).Keys) + 1, key))
      ensures forall id :: id in rows && !rows[id].uploaded <==> id in old(rows) && !old(rows)[id].uploaded
      ensures ok == GenOneSucceeds(old(rows), fault) && rows == GenOneTable(old(rows), key, fault)
    {
      assert NextId(rows) !in rows;
      if Fails(fault, 0) {
        return None, false;
      }
      var made;
      made, ok := GenPreKey(NextId(rows), key, true, Fails(fault, 1));
      r := Some(made);
    }

    /** The top-up loop: `n` fresh keys from `nextKeyID` on, until an insert fails or is refused. */
    method InsertFresh(nextKeyID: nat, n: nat, gen: nat -> Bytes, fault: Fault) returns (made: seq<PreKey>, ok: bool)
      requires ValidIds(rows) && (fault.FailAt? ==> fault.step >= 2) && nextKeyID == NextId(rows)
      modifies this
      ensures ok == (n <= Room(old(rows)) && (fault.NoFault? || fault.step >= 2 + n))
      ensures rows == WithFresh(old(rows), nextKeyID, |made|, gen)
      ensures made == Generated(nextKeyID, |made|, gen)
      ensures |made| == LoopCount(old(rows), n, fault)
    {
      ghost var t := rows;
      var next := nextKeyID;
      made := [];
      for i := 0 to n
        invariant next == nextKeyID + i <= ID_LIMIT
        invariant fault.NoFault? || fault.step >= 2 + i
        invariant rows == WithFresh(t, nextKeyID, i, gen)
        invariant |made| == i && made == Generated(nextKeyID, i, gen)
      {
        assert next !in rows by {
          FreshRows(t, nextKeyID, i, gen);
        }
        var key;
        key, ok := GenPreKey(next, gen(i), false, Fails(fault, 2 + i));
        if !ok {
          return made, false;
        }
        made := made + [key];
        next := next + 1;
      }
      ok := true;
    }

    method TopUp(n: nat, gen: nat -> Bytes, fault: Fault) returns (made: seq<PreKey>, ok: bool)
      requires ValidIds(rows) && (fault.FailAt? ==> fault.step >= 2)
      modifies this
      ensures ValidIds(rows)
      ensures if ok then |made| == n
              else |made| < n && (Top(old(rows).Keys) + |made| + 1 == ID_LIMIT || fault == FailAt(2 + |made|))
      ensures forall i :: 0 <= i < |made| ==> made[i] == PreKey(Top(old(rows).Keys) + 1 + i, gen(i))
      ensures AddsGenerated(old(rows), |made|, gen, rows)
      ensures ok == (n <= Room(old(rows)) && (fault.NoFault? || fault.step >= 2 + n))
      ensures rows == WithFresh(old(rows), NextId(old(rows)), |made|, gen)
      ensures made == Generated(NextId(old(rows)), |made|, gen)
      ensures |made| == LoopCount(old(rows), n, fault)
    {
      made, ok := InsertFresh(NextId(rows), n, gen, fault);
      TopUpAdds(old(rows), |made|, gen);
    }

    method GetOrGenPreKeys(count: nat, gen: nat -> Bytes, fault: Fault) returns (r: Option<seq<PreKey>>)
      requires ValidIds(rows)
      modifies this
      ensures ValidIds(rows)
      ensures exists n: nat :: AddsGenerated(old(rows), n, gen, rows) && EndsAfter(old(rows), count, fault, n, r.Some?)
      ensures rows == GetOrGenTable(old(rows), count, gen, fault)
      ensures r == GetOrGenKeys(old(rows), count, gen, fault)
    {
      ghost var t := rows;
      CallAdds(t, count, gen, fault);
      WithoutInserts(t, count, gen, fault);
      if Fails(fault, 0) {
        return None;
      }
      var newKeys := Lowest(rows, count);
      var alreadyGenerated := |newKeys|;
      if count > alreadyGenerated {
        if Fails(fault, 1) {
          return None;
        }
        WithInserts(t, count, fault, count - alreadyGenerated);
        var made, ok := TopUp(count - alreadyGenerated, gen, fault);
        assert |made| == Inserted(t, count, fault);
        if !ok {
          return None;
        }
        newKeys := newKeys + made;
      }
      r := Some(newKeys);
    }

    method RemovePreKey(id: nat, fault: bool) returns (ok: bool)
      modifies this
      ensures ok == !fault
      ensures ok ==> id !in rows
      ensures forall other :: other != id || !ok ==>
                (other in rows <==> other in old(rows)) && (other in rows ==> rows[other] == old(rows)[other])
      ensures ValidIds(old(rows)) ==> ValidIds(rows)
      ensures NextId(rows) <= NextId(old(rows))
      ensures NextId(rows) < NextId(old(rows)) <==> ok && id in old(rows) && id == Top(old(rows).Keys) && id > 0
    {
      if fault {
        return false;
      }
      RemovalLowersNextIff(rows, id);
      rows := rows - {id};
      ok := true;
    }

    method MarkPreKeysAsUploaded(upToID: nat, fault: bool) returns (ok: bool)
      modifies this
      ensures ok == !fault
      ensures rows.Keys == old(rows).Keys
      ensures forall id :: id in rows ==>
                && rows[id].key == old(rows)[id].key
                && (rows[id].uploaded <==> old(rows)[id].uploaded || (ok && id <= upToID))
      ensures ok ==> Unuploaded(rows) == set id | id in Unuploaded(old(rows)) && id > upToID
      ensures ValidIds(old(rows)) ==> ValidIds(rows)
      ensures NextId(rows) == NextId(old(rows))
    {
      if fault {
        return false;
      }
      MarkFacts(rows, upToID);
      rows := Mark(rows, upToID);
      ok := true;
    }
  }
}

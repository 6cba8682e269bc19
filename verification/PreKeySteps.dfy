/** Pre-key calls under interleaving.  Generators hold a lock from their first to their last
    statement; removals and markings take no lock and run between any two of them. */
module PreKeySteps {
  import opened Sql
  import SortedIds
  import opened PreKeys
  import opened PreKeyRuns

  type Tid = nat

  datatype PC =
    | Idle
    | GenCalled(count: nat)
    | Selecting(count: nat)
    | Selected(count: nat, keys: seq<PreKey>)
    // `have` keys were selected, the others inserted so far; `next` comes next.
    | Inserting(count: nat, have: nat, keys: seq<PreKey>, next: nat)
    | OneCalled
    | OneLocked
    | OneInserting(next: nat)
    | Unlocking

  datatype Sys = Sys(rows: Table, lock: Option<Tid>, pc: map<Tid, PC>)

  predicate HoldsLock(p: PC) {
    !p.Idle? && !p.GenCalled? && !p.OneCalled?
  }

  /** One statement of one thread. */
  ghost predicate Local(t: Table, p: PC, t': Table, p': PC) {
    match p
    case Idle =>
      || (t' == t && (p'.GenCalled? || p'.OneCalled?))
      || (p' == p && exists id :: t' == t - {id} || t' == Mark(t, id))
    case GenCalled(count) => t' == t && p' == Selecting(count)
    case OneCalled => t' == t && p' == OneLocked
    case Selecting(count) => t' == t && (p' == Selected(count, Lowest(t, count)) || p' == Unlocking)
    case Selected(count, keys) =>
      t' == t && (p' == Unlocking || (|keys| < count && p' == Inserting(count, |keys|, keys, NextId(t))))
    case Inserting(count, have, keys, next) =>
      || (t' == t && p' == Unlocking)
      || (|keys| < count && exists key ::
            && Insert(t, next, key, false) == Some(t')
            && p' == Inserting(count, have, keys + [PreKey(next, key)], next + 1))
    case OneLocked => t' == t && (p' == OneInserting(NextId(t)) || p' == Unlocking)
    case OneInserting(next) =>
      p' == Unlocking && (t' == t || exists key :: Insert(t, next, key, true) == Some(t'))
    case Unlocking => t' == t && p' == Idle
  }

  ghost predicate Next(s: Sys, s': Sys, t: Tid) {
    && t in s.pc && t in s'.pc
    && s'.pc == s.pc[t := s'.pc[t]]
    && Local(s.rows, s.pc[t], s'.rows, s'.pc[t])
    && s'.lock == (if HoldsLock(s'.pc[t]) then Some(t) else if HoldsLock(s.pc[t]) then None else s.lock)
    && (HoldsLock(s'.pc[t]) && !HoldsLock(s.pc[t]) ==> s.lock.None?)
  }

  ghost predicate Init(s: Sys) {
    ValidIds(s.rows) && s.lock.None? && forall t :: t in s.pc ==> s.pc[t] == Idle
  }

  ghost predicate Ascending(keys: seq<PreKey>) {
    forall i, j :: 0 <= i < j < |keys| ==> keys[i].id < keys[j].id
  }

  /** What a generator knows: the ID it inserts next is above every live one, and its list is
      the ascending selected part followed by consecutive IDs up to that one. */
  ghost predicate Knows(t: Table, p: PC) {
    match p
    case Selected(count, keys) => |keys| <= count && Ascending(keys)
    case Inserting(count, have, keys, next) =>
      && (forall id :: id in t ==> id < next)
      && have <= |keys| <= count
      && Ascending(keys[..have])
      && (forall i :: have <= i < |keys| ==> keys[i].id + (|keys| - i) == next)
    case OneInserting(next) => forall id :: id in t ==> id < next
    case _ => true
  }

  ghost predicate Inv(s: Sys) {
    && ValidIds(s.rows)
    && (s.lock.Some? ==> s.lock.value in s.pc)
    && (forall t :: t in s.pc ==> (s.lock == Some(t) <==> HoldsLock(s.pc[t])))
    && (forall t :: t in s.pc ==> Knows(s.rows, s.pc[t]))
  }

  /** A step by another thread: rows may disappear or be marked, never appear. */
  lemma OthersOnlyRemove(t: Table, p: PC, t': Table, p': PC, q: PC)
    requires Local(t, p, t', p') && !HoldsLock(p) && Knows(t, q)
    ensures t'.Keys <= t.Keys && Knows(t', q)
  {
  }

  lemma SelectingKnows(t: Table, count: nat)
    ensures Knows(t, Selected(count, Lowest(t, count)))
  {
    ListingFacts(t);
  }

  lemma InsertingKeepsKnowing(t: Table, p: PC, t': Table, p': PC)
    requires ValidIds(t) && p.Inserting? && p'.Inserting? && Knows(t, p) && Local(t, p, t', p')
    ensures ValidIds(t') && Knows(t', p')
  {
    assert p'.keys[..p.have] == p.keys[..p.have];
  }

  lemma GeneratorKeepsKnowing(t: Table, p: PC, t': Table, p': PC)
    requires ValidIds(t) && Knows(t, p) && Local(t, p, t', p')
    ensures ValidIds(t') && Knows(t', p')
  {
    match p
    case Selecting(count) =>
      SelectingKnows(t, count);
    case Inserting(count, have, keys, next) =>
      if p'.Inserting? {
        InsertingKeepsKnowing(t, p, t', p');
      }
    case _ =>
  }

  lemma NextKeepsInv(s: Sys, s': Sys, t: Tid)
    requires Inv(s) && Next(s, s', t)
    ensures Inv(s')
  {
    GeneratorKeepsKnowing(s.rows, s.pc[t], s'.rows, s'.pc[t]);
    forall u | u in s'.pc && u != t
      ensures Knows(s'.rows, s'.pc[u])
    {
      if HoldsLock(s.pc[t]) {
        assert !HoldsLock(s.pc[u]);
      } else {
        OthersOnlyRemove(s.rows, s.pc[t], s'.rows, s'.pc[t], s.pc[u]);
      }
    }
  }

  ghost predicate Behaviour(trace: seq<Sys>, schedule: seq<Tid>) {
    && |trace| == |schedule| + 1
    && Init(trace[0])
    && forall i :: 0 <= i < |schedule| ==> Next(trace[i], trace[i + 1], schedule[i])
  }

  lemma {:induction false} BehaviourInv(trace: seq<Sys>, schedule: seq<Tid>, i: nat)
    requires Behaviour(trace, schedule) && i < |trace|
    ensures Inv(trace[i])
  {
    if i > 0 {
      BehaviourInv(trace, schedule, i - 1);
      assert Next(trace[i - 1], trace[i - 1 + 1], schedule[i - 1]);
      NextKeepsInv(trace[i - 1], trace[i], schedule[i - 1]);
    }
  }

  /** Every ID that appears in the table is greater than all IDs live at that moment. */
  lemma InsertsAboveAllLive(trace: seq<Sys>, schedule: seq<Tid>, i: nat, id: nat)
    requires Behaviour(trace, schedule) && i < |schedule|
    requires id in trace[i + 1].rows && id !in trace[i].rows
    ensures forall live :: live in trace[i].rows ==> live < id
  {
    BehaviourInv(trace, schedule, i);
    var p := trace[i].pc[schedule[i]];
    assert Next(trace[i], trace[i + 1], schedule[i]);
    assert Knows(trace[i].rows, p);
  }

  /** So an insert is never refused for a key collision, only for running out of IDs. */
  lemma InsertsNeverCollide(trace: seq<Sys>, schedule: seq<Tid>, i: nat, t: Tid, key: Bytes, uploaded: bool)
    requires Behaviour(trace, schedule) && i < |trace|
    requires t in trace[i].pc && (trace[i].pc[t].Inserting? || trace[i].pc[t].OneInserting?)
    ensures trace[i].pc[t].next !in trace[i].rows
    ensures Insert(trace[i].rows, trace[i].pc[t].next, key, uploaded).None? <==> trace[i].pc[t].next >= ID_LIMIT
  {
    BehaviourInv(trace, schedule, i);
    assert Knows(trace[i].rows, trace[i].pc[t]);
  }

  /** How rows come and change: an inserted one is either unuploaded and the end of the list of the
      call that inserts it, or uploaded and a single key; and a row that stays keeps its key, and
      does not lose its mark. */
  lemma RowsComeAndChange(trace: seq<Sys>, schedule: seq<Tid>, i: nat, id: nat)
    requires Behaviour(trace, schedule) && i < |schedule| && id in trace[i + 1].rows
    ensures schedule[i] in trace[i].pc && schedule[i] in trace[i + 1].pc
    ensures var t, row := schedule[i], trace[i + 1].rows[id];
            var p, p' := trace[i].pc[t], trace[i + 1].pc[t];
            if id in trace[i].rows then
              row.key == trace[i].rows[id].key && (trace[i].rows[id].uploaded ==> row.uploaded)
            else if row.uploaded then p == OneInserting(id)
            else p.Inserting? && p'.Inserting? && p'.keys == p.keys + [PreKey(id, row.key)]
  {
    assert Next(trace[i], trace[i + 1], schedule[i]);
  }

  lemma {:induction false} MarkStays(trace: seq<Sys>, schedule: seq<Tid>, i: nat, j: nat, id: nat)
    requires Behaviour(trace, schedule) && i <= j < |trace|
    requires forall m :: i <= m <= j ==> id in trace[m].rows
    requires trace[i].rows[id].uploaded
    ensures trace[j].rows[id].uploaded
    decreases j
  {
    if i < j {
      MarkStays(trace, schedule, i, j - 1, id);
      RowsComeAndChange(trace, schedule, j - 1, id);
    }
  }

  /** A key that a single generation has inserted is in no list that is selected while its row is
      live, whatever threads run in between. */
  lemma OneKeyNeverSelected(trace: seq<Sys>, schedule: seq<Tid>, i: nat, j: nat, id: nat)
    requires Behaviour(trace, schedule) && i < j < |schedule|
    requires schedule[i] in trace[i].pc && trace[i].pc[schedule[i]].OneInserting?
    requires id !in trace[i].rows && forall m :: i < m <= j ==> id in trace[m].rows
    requires schedule[j] in trace[j + 1].pc && trace[j + 1].pc[schedule[j]].Selected?
    ensures forall k :: k in trace[j + 1].pc[schedule[j]].keys ==> k.id != id
  {
    RowsComeAndChange(trace, schedule, i, id);
    MarkStays(trace, schedule, i + 1, j, id);
    assert Next(trace[j], trace[j + 1], schedule[j]);
    ListingFacts(trace[j].rows);
  }

  /** The list being built ascends exactly if it does where its selected part ends. */
  lemma AscendsAtSeam(t: Table, p: PC)
    requires p.Inserting? && Knows(t, p) && p.have < |p.keys|
    ensures Ascending(p.keys) <==> p.have == 0 || p.keys[p.have - 1].id < p.keys[p.have].id
  {
    if p.have == 0 || p.keys[p.have - 1].id < p.keys[p.have].id {
      forall m, n | 0 <= m < n < |p.keys|
        ensures p.keys[m].id < p.keys[n].id
      {
        if m < p.have {
          assert p.keys[..p.have][m] == p.keys[m];
          assert n < p.have ==> p.keys[..p.have][n] == p.keys[n];
          assert p.keys[..p.have][p.have - 1] == p.keys[p.have - 1];
        }
      }
    }
  }

  /** At instant k thread t, with its selected keys in hand, runs SELECT MAX; from then up to
      instant i it inserts. */
  ghost predicate ReadsMaxAt(trace: seq<Sys>, schedule: seq<Tid>, t: Tid, k: nat, i: nat)
    requires |trace| == |schedule| + 1 && i < |trace| && t in trace[i].pc && trace[i].pc[t].Inserting?
    requires trace[i].pc[t].have <= |trace[i].pc[t].keys|
  {
    var p := trace[i].pc[t];
    && k < i && schedule[k] == t
    && t in trace[k].pc && trace[k].pc[t] == Selected(p.count, p.keys[..p.have])
    && p.next == SortedIds.Top(trace[k].rows.Keys) + 1 + (|p.keys| - p.have)
    && forall m :: k < m <= i ==> t in trace[m].pc && trace[m].pc[t].Inserting?
  }

  lemma MaxStep(s: Sys, s': Sys, u: Tid, t: Tid)
    requires Inv(s) && Next(s, s', u) && t in s'.pc && s'.pc[t].Inserting?
    ensures t in s.pc && (s.pc[t].Inserting? || s.pc[t].Selected?)
    ensures s.pc[t].Selected? ==>
              && u == t && s'.pc[t] == Inserting(s.pc[t].count, |s.pc[t].keys|, s.pc[t].keys, NextId(s.rows))
    ensures s.pc[t].Inserting? ==>
              && s'.pc[t].count == s.pc[t].count && s'.pc[t].have == s.pc[t].have <= |s.pc[t].keys|
              && s.pc[t].keys <= s'.pc[t].keys
              && s'.pc[t].next - s.pc[t].next == |s'.pc[t].keys| - |s.pc[t].keys|
  {
    assert t in s.pc ==> Knows(s.rows, s.pc[t]);
  }

  lemma StillInserting(trace: seq<Sys>, schedule: seq<Tid>, t: Tid, k: nat, i: nat)
    requires |trace| == |schedule| + 1 && 0 < i < |trace| && t in trace[i - 1].pc && t in trace[i].pc
    requires trace[i - 1].pc[t].Inserting? && trace[i].pc[t].Inserting?
    requires var before, p := trace[i - 1].pc[t], trace[i].pc[t];
             && p.count == before.count && p.have == before.have <= |before.keys| && before.keys <= p.keys
             && p.next - before.next == |p.keys| - |before.keys|
    requires ReadsMaxAt(trace, schedule, t, k, i - 1)
    ensures ReadsMaxAt(trace, schedule, t, k, i)
  {
    var before, p := trace[i - 1].pc[t], trace[i].pc[t];
    assert p.keys[..p.have] == before.keys[..before.have];
  }

  lemma {:induction false} MaxWasRead(trace: seq<Sys>, schedule: seq<Tid>, i: nat, t: Tid) returns (k: nat)
    requires Behaviour(trace, schedule) && i < |trace|
    requires t in trace[i].pc && trace[i].pc[t].Inserting?
    ensures trace[i].pc[t].have <= |trace[i].pc[t].keys|
    ensures ReadsMaxAt(trace, schedule, t, k, i)
  {
    assert i > 0;
    BehaviourInv(trace, schedule, i - 1);
    assert Next(trace[i - 1], trace[i - 1 + 1], schedule[i - 1]);
    MaxStep(trace[i - 1], trace[i], schedule[i - 1], t);
    var before, p := trace[i - 1].pc[t], trace[i].pc[t];
    if before.Selected? {
      k := i - 1;
      assert p.keys[..p.have] == before.keys;
    } else {
      k := MaxWasRead(trace, schedule, i - 1, t);
      StillInserting(trace, schedule, t, k, i);
    }
  }

  /** What decides the order is the SELECT MAX: the list of a call ascends exactly if, at the
      instant of that statement, some live ID is as large as the last one selected.  A removal
      between the two statements can undo it. */
  lemma ListAscendsIff(trace: seq<Sys>, schedule: seq<Tid>, i: nat, t: Tid)
    requires Behaviour(trace, schedule) && i < |trace|
    requires t in trace[i].pc && trace[i].pc[t].Inserting? && trace[i].pc[t].have < |trace[i].pc[t].keys|
    ensures exists k: nat :: ReadsMaxAt(trace, schedule, t, k, i) &&
              (Ascending(trace[i].pc[t].keys) <==>
                 trace[i].pc[t].have == 0
                 || SortedIds.Top(trace[k].rows.Keys) >= trace[i].pc[t].keys[trace[i].pc[t].have - 1].id)
  {
    var k := MaxWasRead(trace, schedule, i, t);
    BehaviourInv(trace, schedule, i);
    var p := trace[i].pc[t];
    assert Knows(trace[i].rows, p);
    AscendsAtSeam(trace[i].rows, p);
    assert p.keys[p.have].id == SortedIds.Top(trace[k].rows.Keys) + 1;
  }

  ghost predicate DistinctIds(keys: seq<PreKey>) {
    forall i, j :: 0 <= i < j < |keys| ==> keys[i].id != keys[j].id
  }

  /** Where the selected and the generated part of a list may meet. */
  lemma DistinctAcrossSeam(t: Table, p: PC, top: nat)
    requires p.Inserting? && Knows(t, p) && p.next == top + 1 + (|p.keys| - p.have)
    ensures DistinctIds(p.keys) <==>
            forall m :: 0 <= m < p.have ==> !(top < p.keys[m].id <= top + (|p.keys| - p.have))
  {
    forall m | 0 <= m < p.have && top < p.keys[m].id <= top + (|p.keys| - p.have)
      ensures !DistinctIds(p.keys)
    {
      assert p.keys[p.have + (p.keys[m].id - top - 1)].id == p.keys[m].id;
    }
    if forall m :: 0 <= m < p.have ==> !(top < p.keys[m].id <= top + (|p.keys| - p.have)) {
      forall m, n | 0 <= m < n < |p.keys|
        ensures p.keys[m].id != p.keys[n].id
      {
        if n < p.have {
          assert p.keys[..p.have][m] == p.keys[m] && p.keys[..p.have][n] == p.keys[n];
        }
      }
    }
  }

  /** One result names an ID twice exactly if a selected ID lies in the range of IDs that the
      call has generated, which starts above the largest ID live at its SELECT MAX. */
  lemma ListDistinctIff(trace: seq<Sys>, schedule: seq<Tid>, i: nat, t: Tid)
    requires Behaviour(trace, schedule) && i < |trace|
    requires t in trace[i].pc && trace[i].pc[t].Inserting?
    ensures trace[i].pc[t].have <= |trace[i].pc[t].keys|
    ensures exists k: nat :: ReadsMaxAt(trace, schedule, t, k, i) &&
              var p, top := trace[i].pc[t], SortedIds.Top(trace[k].rows.Keys);
              DistinctIds(p.keys) <==>
                forall m :: 0 <= m < p.have ==> !(top < p.keys[m].id <= top + (|p.keys| - p.have))
  {
    var k := MaxWasRead(trace, schedule, i, t);
    BehaviourInv(trace, schedule, i);
    assert Knows(trace[i].rows, trace[i].pc[t]);
    DistinctAcrossSeam(trace[i].rows, trace[i].pc[t], SortedIds.Top(trace[k].rows.Keys));
  }

  /** A behaviour in which both are undone: thread 0 selects the only key, thread 1 removes it
      before SELECT MAX runs, and thread 0 generates the same ID again. */
  function Scene(i: nat, k1: Bytes, k2: Bytes): Sys {
    var row, none, again := map[1 := PreKeyRow(k1, false)], map[], map[1 := PreKeyRow(k2, false)];
    var first := [PreKey(1, k1)];
    if i == 0 then Sys(row, None, map[0 := Idle, 1 := Idle])
    else if i == 1 then Sys(row, None, map[0 := GenCalled(2), 1 := Idle])
    else if i == 2 then Sys(row, Some(0), map[0 := Selecting(2), 1 := Idle])
    else if i == 3 then Sys(row, Some(0), map[0 := Selected(2, first), 1 := Idle])
    else if i == 4 then Sys(none, Some(0), map[0 := Selected(2, first), 1 := Idle])
    else if i == 5 then Sys(none, Some(0), map[0 := Inserting(2, 1, first, 1), 1 := Idle])
    else Sys(again, Some(0), map[0 := Inserting(2, 1, first + [PreKey(1, k2)], 2), 1 := Idle])
  }

  lemma SceneSelects(k1: Bytes)
    ensures Lowest(map[1 := PreKeyRow(k1, false)], 2) == [PreKey(1, k1)]
  {
    var row: Table := map[1 := PreKeyRow(k1, false)];
    ListingFacts(row);
    assert Unuploaded(row) == {1};
    assert PreKey(1, k1) in Listing(row);
  }

  lemma SceneRemoves(k1: Bytes, k2: Bytes)
    ensures Next(Scene(3, k1, k2), Scene(4, k1, k2), 1)
  {
    var t, t' := Scene(3, k1, k2).rows, Scene(4, k1, k2).rows;
    assert t' == t - {1};
    assert Local(t, Idle, t', Idle);
  }

  lemma SceneInserts(k1: Bytes, k2: Bytes)
    ensures Next(Scene(5, k1, k2), Scene(6, k1, k2), 0)
  {
    assert Insert(Scene(5, k1, k2).rows, 1, k2, false) == Some(Scene(6, k1, k2).rows);
  }

  lemma SceneStep(i: nat, k1: Bytes, k2: Bytes)
    requires i < 6
    ensures Next(Scene(i, k1, k2), Scene(i + 1, k1, k2), if i == 3 then 1 else 0)
  {
    if i == 2 {
      SceneSelects(k1);
    } else if i == 3 {
      SceneRemoves(k1, k2);
    } else if i == 5 {
      SceneInserts(k1, k2);
    }
  }

  lemma RemovalCanRepeatAnId(k1: Bytes, k2: Bytes)
    ensures exists trace: seq<Sys>, schedule: seq<Tid> ::
              && Behaviour(trace, schedule)
              && 0 in trace[|schedule|].pc
              && trace[|schedule|].pc[0] == Inserting(2, 1, [PreKey(1, k1), PreKey(1, k2)], 2)
  {
    var trace := seq(7, i requires 0 <= i => Scene(i, k1, k2));
    var schedule: seq<Tid> := [0, 0, 0, 1, 0, 0];
    forall i | 0 <= i < |schedule|
      ensures Next(trace[i], trace[i + 1], schedule[i])
    {
      SceneStep(i, k1, k2);
    }
    assert Behaviour(trace, schedule);
  }
}

/** Contact calls under interleaving.  The cache lock covers the calls on one contact and the
    eviction that ends a bulk write, but not the transaction of that bulk write: it commits
    between any two steps of anybody. */
module ContactSteps {
  import opened Sql
  import opened Contacts
  import opened ContactRows

  type Tid = nat

  datatype PC =
    | Idle
    // A call on one contact; without a change it is a read.
    | Called(user: Jid, change: Option<Change>)
    | Locked(user: Jid, change: Option<Change>)
    | Loading(user: Jid, change: Option<Change>, info: Info)
    | Loaded(user: Jid, change: Option<Change>)
    // The row is written, the cached entry not yet.
    | Stored(user: Jid, written: Change)
    // The change is made, or made no difference; the lock is still held.
    | Finishing(user: Jid, made: Change)
    // A read of all contacts; `todo` has the rows that its query has still to deliver.
    | AllCalled
    | Caching(todo: map<Jid, Info>)
    // Bulk writes: committed, waiting for the lock, and holding it before the eviction.
    | NamesCalled(names: seq<NameEntry>)
    | NamesCommitted(names: seq<NameEntry>)
    | NamesLocked(names: seq<NameEntry>)
    | PhonesCalled(phones: seq<PhoneEntry>)
    | PhonesCommitted(phones: seq<PhoneEntry>)
    | PhonesLocked(phones: seq<PhoneEntry>)
    | Unlocking

  datatype Sys = Sys(table: Table, cache: map<Jid, Info>, lock: Option<Tid>, pc: map<Tid, PC>)

  predicate HoldsLock(p: PC) {
    || p.Locked? || p.Loading? || p.Loaded? || p.Stored? || p.Finishing? || p.Caching?
    || p.NamesLocked? || p.PhonesLocked? || p.Unlocking?
  }

  predicate IsCall(p: PC) {
    p.Called? || p.AllCalled? || p.NamesCalled? || p.PhonesCalled?
  }

  /** One step of a call that uses the cache under its lock; a statement may fail. */
  ghost predicate CachedStep(t: Table, c: map<Jid, Info>, p: PC, t': Table, c': map<Jid, Info>, p': PC) {
    match p
    case Called(user, change) => t' == t && c' == c && p' == Locked(user, change)
    case Locked(user, change) =>
      t' == t && c' == c && if user in c then p' == Loaded(user, change)
                            else p' == Loading(user, change, View(t, user)) || p' == Unlocking
    case Loading(user, change, info) => t' == t && c' == c[user := info] && p' == Loaded(user, change)
    case Loaded(user, change) =>
      && c' == c && user in c
      && if change.Some? && Differs(c[user], change.value)
         then || (t' == t[user := RowWith(RowOf(t, user), change.value)] && p' == Stored(user, change.value))
              || (t' == t && p' == Unlocking)
         else t' == t && p' == if change.Some? then Finishing(user, change.value) else Unlocking
    case Stored(user, ch) => t' == t && user in c && c' == c[user := InfoWith(c[user], ch)] && p' == Finishing(user, ch)
    case Finishing(_, _) => t' == t && c' == c && p' == Idle
    case AllCalled => t' == t && c' == c && p' == Caching(map u | u in t :: InfoOf(t[u]))
    case Caching(todo) =>
      || (t' == t && c' == c && p' == Unlocking)
      || (t' == t && exists u :: u in todo && c' == c[u := todo[u]] && p' == Caching(todo - {u}))
    case Unlocking => t' == t && c' == c && p' == Idle
    case _ => false
  }

  /** One step of a bulk write: the transaction commits or fails without the lock, the eviction
      happens under it. */
  ghost predicate BulkStep(t: Table, c: map<Jid, Info>, p: PC, t': Table, c': map<Jid, Info>, p': PC) {
    match p
    case NamesCalled(names) =>
      c' == c && if p' == Idle then t' == t
                 else t' == SetAllNames(t, DedupNames(names)) && p' == NamesCommitted(names)
    case NamesCommitted(names) => t' == t && c' == c && p' == NamesLocked(names)
    case NamesLocked(_) => t' == t && c' == map[] && p' == Unlocking
    case PhonesCalled(phones) =>
      c' == c && if p' == Idle then t' == t
                 else t' == SetAllPhones(t, DedupPhones(phones)) && p' == PhonesCommitted(DedupPhones(phones))
    case PhonesCommitted(phones) => t' == t && c' == c && p' == PhonesLocked(phones)
    case PhonesLocked(phones) => t' == t && c' == Evict(c, phones) && p' == Unlocking
    case _ => false
  }

  ghost predicate Local(s: Sys, s': Sys, p: PC, p': PC) {
    || (p.Idle? && s'.table == s.table && s'.cache == s.cache && IsCall(p'))
    || CachedStep(s.table, s.cache, p, s'.table, s'.cache, p')
    || BulkStep(s.table, s.cache, p, s'.table, s'.cache, p')
  }

  ghost predicate Next(s: Sys, s': Sys, x: Tid) {
    && x in s.pc && x in s'.pc
    && s'.pc == s.pc[x := s'.pc[x]]
    && Local(s, s', s.pc[x], s'.pc[x])
    && s'.lock == (if HoldsLock(s'.pc[x]) then Some(x) else if HoldsLock(s.pc[x]) then None else s.lock)
    && (HoldsLock(s'.pc[x]) && !HoldsLock(s.pc[x]) ==> s.lock.None?)
  }

  ghost predicate Init(s: Sys) {
    s.cache == map[] && s.lock.None? && forall x :: x in s.pc ==> s.pc[x] == Idle
  }

  // ---------------------------------------------------------------- the invariant

  /** A name batch with this contact is between its commit and the end of its eviction. */
  predicate PendsNames(p: PC, user: Jid) {
    (p.NamesCommitted? || p.NamesLocked?) && exists e :: e in p.names && e.jid == user
  }

  /** So is a phone batch that has written this phone. */
  predicate PendsPhone(p: PC, user: Jid, phone: string) {
    (p.PhonesCommitted? || p.PhonesLocked?) && PhoneEntry(user, phone) in p.phones
  }

  ghost predicate NamesPending(pc: map<Tid, PC>, user: Jid) {
    exists x :: x in pc && PendsNames(pc[x], user)
  }

  ghost predicate PhonePending(pc: map<Tid, PC>, user: Jid, phone: string) {
    exists x :: x in pc && PendsPhone(pc[x], user, phone)
  }

  /** An entry says what the table says, but for the `found` flag and for columns that a bulk
      write has changed whose eviction is still to come. */
  ghost predicate Excused(pc: map<Tid, PC>, t: Table, user: Jid, info: Info) {
    var view := View(t, user);
    && (info.found ==> user in t) && info.push == view.push && info.business == view.business
    && ((info.first == view.first && info.full == view.full) || NamesPending(pc, user))
    && (info.phone == view.phone || PhonePending(pc, user, view.phone))
  }

  /** The entry as it will be once the lock holder has written what it has stored. */
  function Entry(s: Sys, user: Jid): Info
    requires user in s.cache
  {
    if s.lock.Some? && s.lock.value in s.pc && s.pc[s.lock.value].Stored? && s.pc[s.lock.value].user == user
    then InfoWith(s.cache[user], s.pc[s.lock.value].written) else s.cache[user]
  }

  /** What the lock holder carries with it. */
  ghost predicate Carries(s: Sys, p: PC) {
    && (p.Loading? ==> Excused(s.pc, s.table, p.user, p.info))
    && (p.Loaded? || p.Stored? || p.Finishing? ==> p.user in s.cache)
    && (p.Finishing? ==> !Differs(s.cache[p.user], p.made))
    && (p.Caching? ==> forall u :: u in p.todo ==> Excused(s.pc, s.table, u, p.todo[u]))
    && (p.PhonesCommitted? || p.PhonesLocked? ==> DistinctPhones(p.phones))
  }

  ghost predicate Inv(s: Sys) {
    && (s.lock.Some? ==> s.lock.value in s.pc)
    && (forall x :: x in s.pc ==> (s.lock == Some(x) <==> HoldsLock(s.pc[x])))
    && (forall x :: x in s.pc ==> Carries(s, s.pc[x]))
    && (forall user :: user in s.cache ==> Excused(s.pc, s.table, user, Entry(s, user)))
  }

  // ---------------------------------------------------------------- steps keep it

  lemma PendingKept(pc: map<Tid, PC>, x: Tid, p: PC, user: Jid, phone: string)
    requires x in pc
    ensures NamesPending(pc, user) && (PendsNames(pc[x], user) ==> PendsNames(p, user)) ==>
              NamesPending(pc[x := p], user)
    ensures PhonePending(pc, user, phone) && (PendsPhone(pc[x], user, phone) ==> PendsPhone(p, user, phone)) ==>
              PhonePending(pc[x := p], user, phone)
  {
    if NamesPending(pc, user) && (PendsNames(pc[x], user) ==> PendsNames(p, user)) {
      var y :| y in pc && PendsNames(pc[y], user);
      assert PendsNames(pc[x := p][y], user);
    }
    if PhonePending(pc, user, phone) && (PendsPhone(pc[x], user, phone) ==> PendsPhone(p, user, phone)) {
      var y :| y in pc && PendsPhone(pc[y], user, phone);
      assert PendsPhone(pc[x := p][y], user, phone);
    }
  }

  /** A step that leaves the table alone and ends no bulk write. */
  lemma QuietKeeps(pc: map<Tid, PC>, x: Tid, p: PC, t: Table, user: Jid, info: Info)
    requires x in pc && Excused(pc, t, user, info)
    requires !pc[x].NamesLocked? && !pc[x].PhonesLocked?
    requires pc[x].NamesCommitted? ==> p == NamesLocked(pc[x].names)
    requires pc[x].PhonesCommitted? ==> p == PhonesLocked(pc[x].phones)
    ensures Excused(pc[x := p], t, user, info)
  {
    PendingKept(pc, x, p, user, View(t, user).phone);
  }

  /** Writing one row: others see nothing of it, and the entry is right once it is written. */
  lemma RowWritten(pc: map<Tid, PC>, t: Table, user: Jid, ch: Change, other: Jid, info: Info)
    requires Excused(pc, t, other, info)
    ensures var t' := t[user := RowWith(RowOf(t, user), ch)];
            Excused(pc, t', other, if other == user then InfoWith(info, ch) else info)
  {
  }

  lemma NamesWritten(pc: map<Tid, PC>, x: Tid, t: Table, names: seq<NameEntry>, user: Jid, info: Info)
    requires x in pc && pc[x] == NamesCalled(names) && Excused(pc, t, user, info)
    ensures Excused(pc[x := NamesCommitted(names)], SetAllNames(t, DedupNames(names)), user, info)
  {
    var pc' := pc[x := NamesCommitted(names)];
    NameBatchExact(t, names, user);
    FirstEntryIn(names, user);
    PendingKept(pc, x, NamesCommitted(names), user, View(t, user).phone);
    if FirstEntry(names, user).Some? {
      assert PendsNames(pc'[x], user);
    }
  }

  lemma PhonesWritten(pc: map<Tid, PC>, x: Tid, t: Table, phones: seq<PhoneEntry>, user: Jid, info: Info)
    requires x in pc && pc[x].PhonesCalled? && DistinctPhones(phones) && Excused(pc, t, user, info)
    ensures Excused(pc[x := PhonesCommitted(phones)], SetAllPhones(t, phones), user, info)
  {
    var pc', t' := pc[x := PhonesCommitted(phones)], SetAllPhones(t, phones);
    PhoneRow(t, phones, user);
    PendingKept(pc, x, PhonesCommitted(phones), user, View(t, user).phone);
    if e :| e in phones && e.jid == user {
      assert e == PhoneEntry(user, View(t', user).phone);
      assert PendsPhone(pc'[x], user, View(t', user).phone);
    }
  }

  /** An entry that survives the eviction shows the phone of its batch, so if the table has
      another one by now, another phone batch is still to evict it. */
  lemma EvictionKeeps(pc: map<Tid, PC>, x: Tid, t: Table, c: map<Jid, Info>, user: Jid)
    requires x in pc && pc[x].PhonesLocked? && user in Evict(c, pc[x].phones)
    requires user in c && Excused(pc, t, user, c[user])
    ensures Excused(pc[x := Unlocking], t, user, Evict(c, pc[x].phones)[user])
  {
    var phone := View(t, user).phone;
    EvictAt(c, pc[x].phones, user);
    PendingKept(pc, x, Unlocking, user, phone);
    if PendsPhone(pc[x], user, phone) {
      assert c[user].phone == PhoneEntry(user, phone).phone;
    }
  }

  /** Whatever was excused before the step is excused after it. */
  ghost predicate Keeps(s: Sys, s': Sys) {
    forall user, info :: Excused(s.pc, s.table, user, info) ==> Excused(s'.pc, s'.table, user, info)
  }

  predicate Evicts(p: PC) {
    p.NamesLocked? || p.PhonesLocked?
  }

  lemma CachedStepKeeps(s: Sys, s': Sys, x: Tid)
    requires Next(s, s', x) && s'.table == s.table && !Evicts(s.pc[x])
    ensures Keeps(s, s')
  {
    forall user, info | Excused(s.pc, s.table, user, info)
      ensures Excused(s'.pc, s'.table, user, info)
    {
      QuietKeeps(s.pc, x, s'.pc[x], s.table, user, info);
    }
  }

  lemma CommitKeeps(s: Sys, s': Sys, x: Tid)
    requires Next(s, s', x) && (s.pc[x].NamesCalled? || s.pc[x].PhonesCalled?) && s'.pc[x] != Idle
    ensures Keeps(s, s')
  {
    forall user, info | Excused(s.pc, s.table, user, info)
      ensures Excused(s'.pc, s'.table, user, info)
    {
      if s.pc[x].NamesCalled? {
        NamesWritten(s.pc, x, s.table, s.pc[x].names, user, info);
      } else {
        DedupPhonesDistinct(s.pc[x].phones);
        PhonesWritten(s.pc, x, s.table, DedupPhones(s.pc[x].phones), user, info);
      }
    }
  }

  /** The steps that do not keep everything: writing a row, and the two evictions. */
  predicate Special(p: PC, p': PC) {
    p'.Stored? || Evicts(p)
  }

  lemma StepKeeps(s: Sys, s': Sys, x: Tid)
    requires Next(s, s', x) && !Special(s.pc[x], s'.pc[x])
    ensures Keeps(s, s')
  {
    if (s.pc[x].NamesCalled? || s.pc[x].PhonesCalled?) && s'.pc[x] != Idle {
      CommitKeeps(s, s', x);
    } else {
      CachedStepKeeps(s, s', x);
    }
  }

  lemma EvictedEntries(s: Sys, s': Sys, x: Tid, user: Jid)
    requires Inv(s) && Next(s, s', x) && s.pc[x].PhonesLocked? && user in s'.cache
    ensures Excused(s'.pc, s'.table, user, Entry(s', user))
  {
    EvictAt(s.cache, s.pc[x].phones, user);
    EvictionKeeps(s.pc, x, s.table, s.cache, user);
  }

  lemma WrittenEntries(s: Sys, s': Sys, x: Tid, user: Jid)
    requires Inv(s) && Next(s, s', x) && s'.pc[x].Stored? && user in s'.cache
    ensures Excused(s'.pc, s'.table, user, Entry(s', user))
  {
    var p' := s'.pc[x];
    RowWritten(s.pc, s.table, p'.user, p'.written, user, s.cache[user]);
    QuietKeeps(s.pc, x, p', s'.table, user, Entry(s', user));
  }

  lemma SpecialEntries(s: Sys, s': Sys, x: Tid, user: Jid)
    requires Inv(s) && Next(s, s', x) && Special(s.pc[x], s'.pc[x]) && user in s'.cache
    ensures Excused(s'.pc, s'.table, user, Entry(s', user))
  {
    if s.pc[x].PhonesLocked? {
      EvictedEntries(s, s', x, user);
    } else if s'.pc[x].Stored? {
      WrittenEntries(s, s', x, user);
    }
  }

  lemma OtherEntries(s: Sys, s': Sys, x: Tid, user: Jid)
    requires Inv(s) && Next(s, s', x) && !Special(s.pc[x], s'.pc[x]) && Keeps(s, s') && user in s'.cache
    ensures Excused(s'.pc, s'.table, user, Entry(s', user))
  {
    var p := s.pc[x];
    assert Carries(s, p);
    if user in s.cache && s'.cache[user] == s.cache[user] && !p.Stored? {
      assert Entry(s', user) == Entry(s, user);
    }
  }

  lemma ReadsAreExcused(pc: map<Tid, PC>, t: Table)
    ensures forall user :: Excused(pc, t, user, View(t, user))
  {
  }

  lemma CachingCarries(s: Sys, s': Sys, x: Tid)
    requires Inv(s) && Next(s, s', x) && s'.pc[x].Caching? && Keeps(s, s')
    ensures Carries(s', s'.pc[x])
  {
    assert Carries(s, s.pc[x]);
    ReadsAreExcused(s'.pc, s'.table);
    forall u | u in s'.pc[x].todo
      ensures Excused(s'.pc, s'.table, u, s'.pc[x].todo[u])
    {
      if s.pc[x].AllCalled? {
        assert s'.pc[x].todo[u] == View(s'.table, u);
      }
    }
  }

  lemma OneCarries(s: Sys, s': Sys, x: Tid)
    requires Inv(s) && Next(s, s', x) && (s'.pc[x].Loaded? || s'.pc[x].Stored? || s'.pc[x].Finishing?)
    ensures Carries(s', s'.pc[x])
  {
    assert Carries(s, s.pc[x]);
  }

  lemma PhonesCarries(s: Sys, s': Sys, x: Tid)
    requires Inv(s) && Next(s, s', x) && (s'.pc[x].PhonesCommitted? || s'.pc[x].PhonesLocked?)
    ensures Carries(s', s'.pc[x])
  {
    assert Carries(s, s.pc[x]);
    if s'.pc[x].PhonesCommitted? {
      DedupPhonesDistinct(s.pc[x].phones);
    }
  }

  lemma OwnCarries(s: Sys, s': Sys, x: Tid)
    requires Inv(s) && Next(s, s', x) && (Special(s.pc[x], s'.pc[x]) || Keeps(s, s'))
    ensures Carries(s', s'.pc[x])
  {
    var p' := s'.pc[x];
    if p'.PhonesCommitted? || p'.PhonesLocked? {
      PhonesCarries(s, s', x);
    } else if p'.Loaded? || p'.Stored? || p'.Finishing? {
      OneCarries(s, s', x);
    } else if p'.Caching? {
      CachingCarries(s, s', x);
    } else if p'.Loading? {
      ReadsAreExcused(s'.pc, s'.table);
    }
  }

  lemma OtherCarries(s: Sys, s': Sys, x: Tid, y: Tid)
    requires Inv(s) && Next(s, s', x) && y in s'.pc && y != x && (Special(s.pc[x], s'.pc[x]) || Keeps(s, s'))
    ensures Carries(s', s'.pc[y])
  {
    assert Carries(s, s.pc[y]);
    assert HoldsLock(s.pc[y]) ==> s.lock == Some(y) && !HoldsLock(s.pc[x]);
  }

  lemma NextKeepsInv(s: Sys, s': Sys, x: Tid)
    requires Inv(s) && Next(s, s', x)
    ensures Inv(s')
  {
    if !Special(s.pc[x], s'.pc[x]) {
      StepKeeps(s, s', x);
    }
    forall y | y in s'.pc
      ensures Carries(s', s'.pc[y])
    {
      if y == x {
        OwnCarries(s, s', x);
      } else {
        OtherCarries(s, s', x, y);
      }
    }
    forall user | user in s'.cache
      ensures Excused(s'.pc, s'.table, user, Entry(s', user))
    {
      if Special(s.pc[x], s'.pc[x]) {
        SpecialEntries(s, s', x, user);
      } else {
        OtherEntries(s, s', x, user);
      }
    }
  }

  // ---------------------------------------------------------------- behaviours

  ghost predicate Behaviour(trace: seq<Sys>, schedule: seq<Tid>) {
    && |trace| == |schedule| + 1
    && Init(trace[0])
    && forall i :: 0 <= i < |schedule| ==> Next(trace[i], trace[i + 1], schedule[i])
  }

  lemma {:induction false} BehaviourInv(trace: seq<Sys>, schedule: seq<Tid>, i: nat)
    requires Behaviour(trace, schedule) && i < |trace|
    ensures Inv(trace[i])
  {
    if i > 0 {
      BehaviourInv(trace, schedule, i - 1);
      assert Next(trace[i - 1], trace[i - 1 + 1], schedule[i - 1]);
      NextKeepsInv(trace[i - 1], trace[i], schedule[i - 1]);
    }
  }

  /** A call that is about to return success has made its change: the table shows it, but for names
      that a bulk write has changed since. */
  lemma SuccessShows(trace: seq<Sys>, schedule: seq<Tid>, i: nat, t: Tid)
    requires Behaviour(trace, schedule) && i < |trace| && t in trace[i].pc && trace[i].pc[t].Finishing?
    ensures var info := View(trace[i].table, trace[i].pc[t].user);
            match trace[i].pc[t].made
            case PushName(name) => info.push == name
            case BusinessName(name) => info.business == name
            case Names(first, full) =>
              (info.first == first && info.full == full) || NamesPending(trace[i].pc, trace[i].pc[t].user)
  {
    BehaviourInv(trace, schedule, i);
    var s, p := trace[i], trace[i].pc[t];
    assert Carries(s, p) && s.lock == Some(t);
    assert Excused(s.pc, s.table, p.user, Entry(s, p.user));
  }

  /** The row of the user with the change, column by column. */
  function Changed(t: Table, user: Jid, change: Change): Row {
    var row := if user in t then t[user] else Row(None, None, None, None, None);
    match change
    case PushName(name) => row.(push := Some(name))
    case BusinessName(name) => row.(business := Some(name))
    case Names(first, full) => row.(first := Some(first), full := Some(full))
  }

  /** A committed bulk write. */
  predicate Commits(p: PC, p': PC) {
    (p.NamesCalled? && p'.NamesCommitted?) || (p.PhonesCalled? && p'.PhonesCommitted?)
  }

  lemma BulkChanges(s: Sys, s': Sys, p: PC, p': PC)
    requires Local(s, s', p, p') && Commits(p, p')
    ensures if p.NamesCalled? then NamesPut(s.table, p.names, s'.table) else PhonesPut(s.table, p.phones, s'.table)
  {
    assert BulkStep(s.table, s.cache, p, s'.table, s'.cache, p');
    if p.NamesCalled? {
      NameBatchPuts(s.table, p.names);
    } else {
      PhoneBatchPuts(s.table, p.phones);
    }
  }

  lemma OneChanges(s: Sys, s': Sys, p: PC, p': PC)
    requires Local(s, s', p, p') && p.Loaded? && p'.Stored?
    ensures p.change == Some(p'.written) && p'.user == p.user
    ensures s'.table == s.table[p.user := Changed(s.table, p.user, p'.written)]
  {
  }

  lemma CachedStepChanges(t: Table, c: map<Jid, Info>, p: PC, t': Table, c': map<Jid, Info>, p': PC)
    requires CachedStep(t, c, p, t', c', p') && !(p.Loaded? && p'.Stored?)
    ensures t' == t
  {
  }

  lemma BulkStepChanges(t: Table, c: map<Jid, Info>, p: PC, t': Table, c': map<Jid, Info>, p': PC)
    requires BulkStep(t, c, p, t', c', p') && !Commits(p, p')
    ensures t' == t
  {
  }

  lemma NothingElseChanges(s: Sys, s': Sys, p: PC, p': PC)
    requires Local(s, s', p, p') && !Commits(p, p') && !(p.Loaded? && p'.Stored?)
    ensures s'.table == s.table
  {
    if CachedStep(s.table, s.cache, p, s'.table, s'.cache, p') {
      CachedStepChanges(s.table, s.cache, p, s'.table, s'.cache, p');
    } else if BulkStep(s.table, s.cache, p, s'.table, s'.cache, p') {
      BulkStepChanges(s.table, s.cache, p, s'.table, s'.cache, p');
    }
  }

  /** The table changes in three ways only: by a committed bulk write, as a whole, and by the change
      of a call on one contact, in the columns that it asks for. */
  lemma TableChanges(trace: seq<Sys>, schedule: seq<Tid>, i: nat)
    requires Behaviour(trace, schedule) && i < |schedule|
    ensures schedule[i] in trace[i].pc && schedule[i] in trace[i + 1].pc
    ensures var p, p' := trace[i].pc[schedule[i]], trace[i + 1].pc[schedule[i]];
            if p.NamesCalled? && p'.NamesCommitted? then NamesPut(trace[i].table, p.names, trace[i + 1].table)
            else if p.PhonesCalled? && p'.PhonesCommitted? then PhonesPut(trace[i].table, p.phones, trace[i + 1].table)
            else if p.Loaded? && p'.Stored? then
              && p.change == Some(p'.written) && p'.user == p.user
              && trace[i + 1].table == trace[i].table[p.user := Changed(trace[i].table, p.user, p'.written)]
            else trace[i + 1].table == trace[i].table
  {
    assert Next(trace[i], trace[i + 1], schedule[i]);
    var p, p' := trace[i].pc[schedule[i]], trace[i + 1].pc[schedule[i]];
    if Commits(p, p') {
      BulkChanges(trace[i], trace[i + 1], p, p');
    } else if p.Loaded? && p'.Stored? {
      OneChanges(trace[i], trace[i + 1], p, p');
    } else {
      NothingElseChanges(trace[i], trace[i + 1], p, p');
    }
  }

  /** The thread is in a bulk write that has written this contact, between its commit and the end
      of its eviction. */
  predicate Pends(p: PC, user: Jid) {
    || PendsNames(p, user)
    || ((p.PhonesCommitted? || p.PhonesLocked?) && exists e :: e in p.phones && e.jid == user)
  }

  /** In every behaviour, whenever the lock is free, a cached entry is right but for its `found`
      flag, unless a bulk write of that very contact has still to evict it. */
  lemma RightUnlessPending(trace: seq<Sys>, schedule: seq<Tid>, i: nat, user: Jid)
    requires Behaviour(trace, schedule) && i < |trace| && trace[i].lock.None? && user in trace[i].cache
    requires forall x :: x in trace[i].pc ==> !Pends(trace[i].pc[x], user)
    ensures trace[i].cache[user].(found := true) == View(trace[i].table, user).(found := true)
    ensures trace[i].cache[user].found ==> user in trace[i].table
  {
    BehaviourInv(trace, schedule, i);
    var s := trace[i];
    assert Excused(s.pc, s.table, user, Entry(s, user));
  }

  lemma AgreesUnlessPending(trace: seq<Sys>, schedule: seq<Tid>, i: nat)
    requires Behaviour(trace, schedule) && i < |trace| && trace[i].lock.None?
    requires forall x, user :: x in trace[i].pc ==> !Pends(trace[i].pc[x], user)
    ensures AgreesButFound(trace[i].table, trace[i].cache)
  {
    forall user | user in trace[i].cache
      ensures trace[i].cache[user].(found := true) == View(trace[i].table, user).(found := true)
      ensures trace[i].cache[user].found ==> user in trace[i].table
    {
      RightUnlessPending(trace, schedule, i, user);
    }
  }
}

/** The contact calls of a store, updating table and cache in place. */
module ContactStore {
  import opened Sql
  import opened Contacts
  import opened ContactRows

  const BATCH_SIZE: nat := 300

  /** How many statements a mass insert of n rows takes. */
  function Chunks(n: nat): nat {
    (n + BATCH_SIZE - 1) / BATCH_SIZE
  }

  lemma ChunkStep(from: nat, n: nat)
    requires from < n && from % BATCH_SIZE == 0
    ensures var to := if from + BATCH_SIZE <= n then from + BATCH_SIZE else n;
            Chunks(to) == Chunks(from) + 1 && (to == n || to % BATCH_SIZE == 0)
  {
  }

  class SQLStore {
    /** The account's rows of `contacts`. */
    var contacts: Table
    var contactCache: map<Jid, Info>

    constructor (contacts: Table)
      ensures this.contacts == contacts && contactCache == map[]
      ensures Coherent(contacts, contactCache) && AgreesButFound(contacts, contactCache)
    {
      this.contacts := contacts;
      contactCache := map[];
    }

    /** Step 0 of a call is the query, if one is needed. */
    method LoadContact(user: Jid, fault: Fault) returns (r: Option<Info>)
      requires AgreesButFound(contacts, contactCache)
      modifies this`contactCache
      ensures AgreesButFound(contacts, contactCache)
      ensures Coherent(old(contacts), old(contactCache)) ==> Coherent(contacts, contactCache)
      ensures r.None? <==> user !in old(contactCache) && fault == FailAt(0)
      ensures r.Some? && user in old(contactCache) ==> r.value == old(contactCache)[user]
      ensures r.Some? && user !in old(contactCache) ==> r.value == View(contacts, user)
      ensures r.Some? ==> r.value.(found := true) == View(contacts, user).(found := true)
      ensures contactCache == if r.None? then old(contactCache) else old(contactCache)[user := r.value]
    {
      if user in contactCache {
        assert contactCache == contactCache[user := contactCache[user]];
        return Some(contactCache[user]);
      }
      if Fails(fault, 0) {
        return None;
      }
      var info := if user in contacts then InfoOf(contacts[user]) else ABSENT;
      ReadKeeps(contacts, contactCache, user);
      contactCache := contactCache[user := info];
      r := Some(info);
    }

    /** The upsert of one row, and the same change to the cached entry. */
    method WriteThrough(user: Jid, change: Change)
      requires AgreesButFound(contacts, contactCache) && user in contactCache
      modifies this
      ensures AgreesButFound(contacts, contactCache)
      ensures Coherent(old(contacts), old(contactCache)) ==> Coherent(contacts, contactCache)
      ensures contacts == old(contacts)[user := RowWith(RowOf(old(contacts), user), change)]
      ensures contactCache == old(contactCache)[user := InfoWith(old(contactCache)[user], change)]
      ensures View(contacts, user) == InfoWith(View(old(contacts), user), change)
    {
      var row := RowWith(RowOf(contacts, user), change);
      assert InfoWith(contactCache[user], change) == InfoOf(row);
      WriteKeeps(contacts, contactCache, user, row);
      contacts := contacts[user := row];
      contactCache := contactCache[user := InfoWith(contactCache[user], change)];
    }

    method GetContact(user: Jid, fault: Fault) returns (r: Option<Info>)
      requires AgreesButFound(contacts, contactCache)
      modifies this`contactCache
      ensures AgreesButFound(contacts, contactCache)
      ensures Coherent(old(contacts), old(contactCache)) ==> Coherent(contacts, contactCache)
      ensures r.Some? && user in contacts ==>
                var row := contacts[user];
                && r.value.first == (if row.first.Some? then row.first.value else "")
                && r.value.full == (if row.full.Some? then row.full.value else "")
                && r.value.push == (if row.push.Some? then row.push.value else "")
                && r.value.business == (if row.business.Some? then row.business.value else "")
                && r.value.phone == (if row.phone.Some? then row.phone.value else "")
      ensures r.Some? && user !in contacts ==> r.value == Info(false, "", "", "", "", "")
      ensures r.Some? && Coherent(contacts, old(contactCache)) ==> (r.value.found <==> user in contacts)
      ensures r.Some? ==> r.value == Lookup(contacts, old(contactCache), user)
      ensures r.None? <==> user !in old(contactCache) && fault == FailAt(0)
      ensures contactCache == if r.None? then old(contactCache) else old(contactCache)[user := r.value]
    {
      r := LoadContact(user, fault);
    }

    /** Loads a contact, and writes a change that makes a difference; `previous` is the contact
        before such a write.  Step 0 is the query for a contact that is not cached, step 1 the
        upsert. */
    method Apply(user: Jid, change: Change, fault: Fault) returns (previous: Option<Info>, ok: bool)
      requires AgreesButFound(contacts, contactCache)
      modifies this
      ensures AgreesButFound(contacts, contactCache)
      ensures Coherent(old(contacts), old(contactCache)) ==> Coherent(contacts, contactCache)
      ensures previous.Some? <==> ok && Differs(View(old(contacts), user), change)
      ensures previous.Some? ==> previous.value.(found := true) == View(old(contacts), user).(found := true)
      ensures previous.Some? ==> View(contacts, user) == InfoWith(View(old(contacts), user), change)
      ensures contacts == if previous.Some? then old(contacts)[user := RowWith(RowOf(old(contacts), user), change)]
                          else old(contacts)
      ensures ok ==> contactCache.Keys == old(contactCache).Keys + {user}
      ensures !ok <==> (fault == FailAt(0) && user !in old(contactCache))
                       || (fault == FailAt(1) && Differs(View(old(contacts), user), change))
    {
      var cached := LoadContact(user, fault);
      if cached.None? {
        return None, false;
      }
      if Differs(cached.value, change) {
        if Fails(fault, 1) {
          return None, false;
        }
        WriteThrough(user, change);
        return cached, true;
      }
      return None, true;
    }

    /** `changed` and `previous` speak about the table, whatever was cached. */
    method PutPushName(user: Jid, name: string, fault: Fault) returns (changed: bool, previous: string, ok: bool)
      requires AgreesButFound(contacts, contactCache)
      modifies this
      ensures AgreesButFound(contacts, contactCache)
      ensures Coherent(old(contacts), old(contactCache)) ==> Coherent(contacts, contactCache)
      ensures changed <==> ok && View(old(contacts), user).push != name
      ensures previous == if changed then View(old(contacts), user).push else ""
      ensures !changed ==> contacts == old(contacts)
      ensures changed ==>
                contacts == old(contacts)[user :=
                  (if user in old(contacts) then old(contacts)[user] else Row(None, None, None, None, None))
                  .(push := Some(name))]
      ensures changed ==> View(contacts, user) == View(old(contacts), user).(push := name, found := true)
      ensures ok ==> View(contacts, user).push == name && contactCache.Keys == old(contactCache).Keys + {user}
      ensures !ok <==> (fault == FailAt(0) && user !in old(contactCache))
                       || (fault == FailAt(1) && View(old(contacts), user).push != name)
    {
      var before;
      before, ok := Apply(user, PushName(name), fault);
      changed, previous := before.Some?, if before.Some? then before.value.push else "";
    }

    method PutBusinessName(user: Jid, name: string, fault: Fault) returns (changed: bool, previous: string, ok: bool)
      requires AgreesButFound(contacts, contactCache)
      modifies this
      ensures AgreesButFound(contacts, contactCache)
      ensures Coherent(old(contacts), old(contactCache)) ==> Coherent(contacts, contactCache)
      ensures changed <==> ok && View(old(contacts), user).business != name
      ensures previous == if changed then View(old(contacts), user).business else ""
      ensures !changed ==> contacts == old(contacts)
      ensures changed ==>
                contacts == old(contacts)[user :=
                  (if user in old(contacts) then old(contacts)[user] else Row(None, None, None, None, None))
                  .(business := Some(name))]
      ensures changed ==> View(contacts, user) == View(old(contacts), user).(business := name, found := true)
      ensures ok ==> View(contacts, user).business == name && contactCache.Keys == old(contactCache).Keys + {user}
      ensures !ok <==> (fault == FailAt(0) && user !in old(contactCache))
                       || (fault == FailAt(1) && View(old(contacts), user).business != name)
    {
      var before;
      before, ok := Apply(user, BusinessName(name), fault);
      changed, previous := before.Some?, if before.Some? then before.value.business else "";
    }

    method PutContactName(user: Jid, first: string, full: string, fault: Fault) returns (ok: bool)
      requires AgreesButFound(contacts, contactCache)
      modifies this
      ensures AgreesButFound(contacts, contactCache)
      ensures Coherent(old(contacts), old(contactCache)) ==> Coherent(contacts, contactCache)
      ensures var changed := View(old(contacts), user).first != first || View(old(contacts), user).full != full;
              && (!(ok && changed) ==> contacts == old(contacts))
              && (ok && changed ==>
                    && View(contacts, user) == View(old(contacts), user).(first := first, full := full, found := true)
                    && contacts == old(contacts)[user :=
                         (if user in old(contacts) then old(contacts)[user] else Row(None, None, None, None, None))
                         .(first := Some(first), full := Some(full))])
              && (!ok <==> (fault == FailAt(0) && user !in old(contactCache)) || (fault == FailAt(1) && changed))
      ensures ok ==> View(contacts, user).first == first && View(contacts, user).full == full
      ensures ok ==> contactCache.Keys == old(contactCache).Keys + {user}
    {
      var before;
      before, ok := Apply(user, Names(first, full), fault);
    }

    /** The transaction of a name batch: mass inserts of at most 300 rows.  Step 0 is begin, then
        one statement a chunk, then commit. */
    method UpsertNames(distinct: seq<NameEntry>, fault: Fault) returns (ok: bool)
      modifies this`contacts
      ensures contacts == if ok then SetAllNames(old(contacts), distinct) else old(contacts)
      ensures ok <==> fault.NoFault? || fault.step > 1 + Chunks(|distinct|)
    {
      if Fails(fault, 0) {
        return false;
      }
      var snapshot := contacts;
      var from, step := 0, 1;
      while from < |distinct|
        invariant from <= |distinct| && (from == |distinct| || from % BATCH_SIZE == 0)
        invariant step == 1 + Chunks(from) && (fault.NoFault? || fault.step >= step)
        invariant contacts == SetAllNames(snapshot, distinct[..from])
      {
        var to := if from + BATCH_SIZE <= |distinct| then from + BATCH_SIZE else |distinct|;
        if Fails(fault, step) {
          contacts := snapshot;
          return false;
        }
        ChunkStep(from, |distinct|);
        assert distinct[..to] == distinct[..from] + distinct[from..to];
        NamesAppend(snapshot, distinct[..from], distinct[from..to]);
        contacts := SetAllNames(contacts, distinct[from..to]);
        from, step := to, step + 1;
      }
      assert distinct[..from] == distinct;
      if Fails(fault, step) {
        contacts := snapshot;
        return false;
      }
      ok := true;
    }

    /** The transaction and then the emptying of the cache. */
    method StoreNames(entries: seq<NameEntry>, fault: Fault) returns (ok: bool)
      modifies this
      ensures ok <==> entries == [] || fault.NoFault? || fault.step > 1 + Chunks(|DedupNames(entries)|)
      ensures contacts == if ok then SetAllNames(old(contacts), DedupNames(entries)) else old(contacts)
      ensures contactCache == if ok && entries != [] then map[] else old(contactCache)
    {
      if entries == [] {
        return true;
      }
      ok := UpsertNames(DedupNames(entries), fault);
      if ok {
        contactCache := map[];
      }
    }

    /** Of several entries for a contact the first one counts. */
    method PutAllContactNames(entries: seq<NameEntry>, fault: Fault) returns (ok: bool)
      requires AgreesButFound(contacts, contactCache)
      modifies this
      ensures AgreesButFound(contacts, contactCache)
      ensures Coherent(old(contacts), old(contactCache)) ==> Coherent(contacts, contactCache)
      ensures if ok then NamesPut(old(contacts), entries, contacts) else contacts == old(contacts)
      ensures contactCache == if ok && entries != [] then map[] else old(contactCache)
      ensures ok <==> entries == [] || fault.NoFault? ||
                      fault.step > 1 + ((|set e | e in entries :: e.jid|) + 299) / 300
    {
      NameBatchPuts(contacts, entries);
      DedupNamesCount(entries);
      ok := StoreNames(entries, fault);
    }

    /** The transaction of a phone batch; step 0 is begin, then one statement a chunk, commit. */
    method UpsertPhones(distinct: seq<PhoneEntry>, fault: Fault) returns (ok: bool)
      modifies this`contacts
      ensures contacts == if ok then SetAllPhones(old(contacts), distinct) else old(contacts)
      ensures ok <==> fault.NoFault? || fault.step > 1 + Chunks(|distinct|)
    {
      if Fails(fault, 0) {
        return false;
      }
      var snapshot := contacts;
      var from, step := 0, 1;
      while from < |distinct|
        invariant from <= |distinct| && (from == |distinct| || from % BATCH_SIZE == 0)
        invariant step == 1 + Chunks(from) && (fault.NoFault? || fault.step >= step)
        invariant contacts == SetAllPhones(snapshot, distinct[..from])
      {
        var to := if from + BATCH_SIZE <= |distinct| then from + BATCH_SIZE else |distinct|;
        if Fails(fault, step) {
          contacts := snapshot;
          return false;
        }
        ChunkStep(from, |distinct|);
        assert distinct[..to] == distinct[..from] + distinct[from..to];
        PhonesAppend(snapshot, distinct[..from], distinct[from..to]);
        contacts := SetAllPhones(contacts, distinct[from..to]);
        from, step := to, step + 1;
      }
      assert distinct[..from] == distinct;
      if Fails(fault, step) {
        contacts := snapshot;
        return false;
      }
      ok := true;
    }

    method EvictPhones(distinct: seq<PhoneEntry>)
      modifies this`contactCache
      ensures contactCache == Evict(old(contactCache), distinct)
    {
      for i := 0 to |distinct|
        invariant contactCache == Evict(old(contactCache), distinct[..i])
      {
        assert distinct[..i + 1][..i] == distinct[..i];
        var e := distinct[i];
        if !(e.jid in contactCache && contactCache[e.jid].phone == e.phone) {
          contactCache := contactCache - {e.jid};
        }
      }
      assert distinct[..|distinct|] == distinct;
    }

    /** The transaction and then the eviction, of the first entry of each contact. */
    method StorePhones(entries: seq<PhoneEntry>, fault: Fault) returns (ok: bool)
      modifies this
      ensures ok <==> entries == [] || fault.NoFault? || fault.step > 1 + Chunks(|DedupPhones(entries)|)
      ensures contacts == if ok then SetAllPhones(old(contacts), DedupPhones(entries)) else old(contacts)
      ensures contactCache == if ok then Evict(old(contactCache), DedupPhones(entries)) else old(contactCache)
    {
      if entries == [] {
        return true;
      }
      var distinct := DedupPhones(entries);
      ok := UpsertPhones(distinct, fault);
      if ok {
        EvictPhones(distinct);
      }
    }

    /** Afterwards the cache is coherent exactly unless an entry with an empty phone was the
        first to create the row of a contact that is cached as absent. */
    method PutManyRedactedPhones(entries: seq<PhoneEntry>, fault: Fault) returns (ok: bool)
      requires AgreesButFound(contacts, contactCache)
      modifies this
      ensures if ok then PhonesPut(old(contacts), entries, contacts) else contacts == old(contacts)
      ensures if ok then PhonesEvicted(old(contactCache), entries, contactCache) else contactCache == old(contactCache)
      ensures AgreesButFound(contacts, contactCache)
      ensures Coherent(old(contacts), old(contactCache)) && ok ==>
                (Coherent(contacts, contactCache) <==>
                 !StaleAbsence(old(contacts), old(contactCache), DedupPhones(entries)))
      ensures Coherent(old(contacts), old(contactCache)) && (forall e :: e in entries ==> e.phone != "") ==>
                Coherent(contacts, contactCache)
      ensures ok <==> entries == [] || fault.NoFault? ||
                      fault.step > 1 + ((|set e | e in entries :: e.jid|) + 299) / 300
    {
      PhoneBatchFacts(contacts, contactCache, entries);
      DedupPhonesCount(entries);
      ok := StorePhones(entries, fault);
    }

    /** `users` are the rows delivered before the end or the failure of the query. */
    method GetAllContacts(users: seq<Jid>, fault: bool) returns (output: map<Jid, Info>, ok: bool)
      requires AgreesButFound(contacts, contactCache)
      requires forall u :: u in users ==> u in contacts
      requires !fault ==> forall u :: u in contacts ==> u in users
      modifies this`contactCache
      ensures AgreesButFound(contacts, contactCache)
      ensures Coherent(old(contacts), old(contactCache)) ==> Coherent(contacts, contactCache)
      ensures ok == !fault
      ensures output == map u | u in users :: View(contacts, u)
      ensures contactCache == old(contactCache) + output
      ensures ok ==> output.Keys == contacts.Keys
    {
      output := map[];
      for i := 0 to |users|
        invariant output == Viewed(contacts, users[..i])
        invariant contactCache == old(contactCache) + output
      {
        assert users[i] in users;
        assert users[..i + 1][..i] == users[..i];
        var info := InfoOf(contacts[users[i]]);
        MergePush(old(contactCache), output, users[i], info);
        output := output[users[i] := info];
        contactCache := contactCache[users[i] := info];
      }
      assert users[..|users|] == users;
      ViewedIsMap(contacts, users);
      ViewedKeeps(contacts, old(contactCache), users);
      ok := !fault;
    }
  }
}

/** What the batches of contacts promise, column by column and entry by entry: of several entries
    for a contact the first one counts. */
module ContactRows {
  import opened Sql
  import opened Contacts

  /** t' has, for each contact of the batch, the names of its first entry, and is t otherwise. */
  ghost predicate NamesPut(t: Table, es: seq<NameEntry>, t': Table) {
    && (forall i :: 0 <= i < |es| && (forall j :: 0 <= j < i ==> es[j].jid != es[i].jid) ==>
          && es[i].jid in t'
          && t'[es[i].jid] == (if es[i].jid in t then t[es[i].jid] else Row(None, None, None, None, None))
                              .(first := Some(es[i].first), full := Some(es[i].full)))
    && (forall user :: (forall e :: e in es ==> e.jid != user) ==>
          (user in t' <==> user in t) && (user in t ==> t'[user] == t[user]))
  }

  lemma NameBatchPuts(t: Table, es: seq<NameEntry>)
    ensures NamesPut(t, es, SetAllNames(t, DedupNames(es)))
  {
    var t' := SetAllNames(t, DedupNames(es));
    forall i | 0 <= i < |es| && forall j :: 0 <= j < i ==> es[j].jid != es[i].jid
      ensures es[i].jid in t'
      ensures t'[es[i].jid] == (if es[i].jid in t then t[es[i].jid] else Row(None, None, None, None, None))
                               .(first := Some(es[i].first), full := Some(es[i].full))
    {
      NamesOfFirst(t, es, i);
    }
    forall user | forall e :: e in es ==> e.jid != user
      ensures (user in t' <==> user in t) && (user in t ==> t'[user] == t[user])
    {
      NamesElsewhere(t, es, user);
    }
  }

  /** The same for phones. */
  ghost predicate PhonesPut(t: Table, es: seq<PhoneEntry>, t': Table) {
    && (forall i :: 0 <= i < |es| && (forall j :: 0 <= j < i ==> es[j].jid != es[i].jid) ==>
          && es[i].jid in t'
          && t'[es[i].jid] == (if es[i].jid in t then t[es[i].jid] else Row(None, None, None, None, None))
                              .(phone := Some(es[i].phone)))
    && (forall user :: (forall e :: e in es ==> e.jid != user) ==>
          (user in t' <==> user in t) && (user in t ==> t'[user] == t[user]))
  }

  lemma PhoneBatchPuts(t: Table, es: seq<PhoneEntry>)
    ensures PhonesPut(t, es, SetAllPhones(t, DedupPhones(es)))
  {
    var t' := SetAllPhones(t, DedupPhones(es));
    forall i | 0 <= i < |es| && forall j :: 0 <= j < i ==> es[j].jid != es[i].jid
      ensures es[i].jid in t'
      ensures t'[es[i].jid] == (if es[i].jid in t then t[es[i].jid] else Row(None, None, None, None, None))
                               .(phone := Some(es[i].phone))
    {
      PhoneOfFirst(t, es, i);
    }
    forall user | forall e :: e in es ==> e.jid != user
      ensures (user in t' <==> user in t) && (user in t ==> t'[user] == t[user])
    {
      PhonesElsewhere(t, es, user);
    }
  }

  /** c' has the entries of c whose contact is not in the batch, or that show the phone of the
      contact's first entry. */
  ghost predicate PhonesEvicted(c: map<Jid, Info>, es: seq<PhoneEntry>, c': map<Jid, Info>) {
    && (forall user :: user in c' ==> user in c && c'[user] == c[user])
    && (forall i :: 0 <= i < |es| && (forall j :: 0 <= j < i ==> es[j].jid != es[i].jid) ==>
          (es[i].jid in c' <==> es[i].jid in c && c[es[i].jid].phone == es[i].phone))
    && (forall user :: user in c && (forall e :: e in es ==> e.jid != user) ==> user in c')
  }

  lemma EvictionEvicts(c: map<Jid, Info>, es: seq<PhoneEntry>)
    ensures PhonesEvicted(c, es, Evict(c, DedupPhones(es)))
  {
    var c' := Evict(c, DedupPhones(es));
    forall user | user in c'
      ensures user in c && c'[user] == c[user]
    {
      EvictAt(c, DedupPhones(es), user);
    }
    forall i | 0 <= i < |es| && forall j :: 0 <= j < i ==> es[j].jid != es[i].jid
      ensures es[i].jid in c' <==> es[i].jid in c && c[es[i].jid].phone == es[i].phone
    {
      EvictionOfFirst(c, es, i);
    }
    forall user | user in c && forall e :: e in es ==> e.jid != user
      ensures user in c'
    {
      EvictionElsewhere(c, es, user);
    }
  }

  /** What a committed phone batch with its eviction leaves. */
  lemma PhoneBatchFacts(t: Table, c: map<Jid, Info>, es: seq<PhoneEntry>)
    requires AgreesButFound(t, c)
    ensures var t', c' := SetAllPhones(t, DedupPhones(es)), Evict(c, DedupPhones(es));
            && PhonesPut(t, es, t') && PhonesEvicted(c, es, c') && AgreesButFound(t', c')
            && (Coherent(t, c) ==> (Coherent(t', c') <==> !StaleAbsence(t, c, DedupPhones(es))))
            && ((forall e :: e in es ==> e.phone != "") ==> !StaleAbsence(t, c, DedupPhones(es)))
  {
    PhoneBatchPuts(t, es);
    EvictionEvicts(c, es);
    DedupPhonesDistinct(es);
    PhoneBatchAgrees(t, c, DedupPhones(es));
    if Coherent(t, c) {
      PhoneBatchCoherentIff(t, c, DedupPhones(es));
    }
  }
}

/** The contact cache in front of the `contacts` table. */
module Contacts {
  import opened Sql

  type Jid = string

  /** A row of the account; every column may be NULL. */
  datatype Row = Row(first: Option<string>, full: Option<string>, push: Option<string>,
                     business: Option<string>, phone: Option<string>)

  type Table = map<Jid, Row>

  datatype Info = Info(found: bool, first: string, full: string, push: string, business: string, phone: string)

  datatype NameEntry = NameEntry(jid: Jid, first: string, full: string)

  datatype PhoneEntry = PhoneEntry(jid: Jid, phone: string)

  /** sql.NullString: NULL reads as the empty string. */
  function Text(column: Option<string>): string {
    if column.None? then "" else column.value
  }

  function InfoOf(r: Row): Info {
    Info(true, Text(r.first), Text(r.full), Text(r.push), Text(r.business), Text(r.phone))
  }

  const ABSENT := Info(false, "", "", "", "", "")

  /** What the table says about a contact. */
  function View(t: Table, user: Jid): Info {
    if user in t then InfoOf(t[user]) else ABSENT
  }

  ghost predicate Coherent(t: Table, c: map<Jid, Info>) {
    forall user :: user in c ==> c[user] == View(t, user)
  }

  /** Everything but the `found` flag is what the table says, and the flag is not set without
      a row.  This is what every call keeps; a phone batch can lose the rest (PhoneBatchCoherentIff). */
  ghost predicate AgreesButFound(t: Table, c: map<Jid, Info>) {
    forall user :: user in c ==>
      c[user].(found := true) == View(t, user).(found := true) && (c[user].found ==> user in t)
  }

  /** What a lookup answers, coherent cache or not. */
  function Lookup(t: Table, c: map<Jid, Info>, user: Jid): Info {
    if user in c then c[user] else View(t, user)
  }

  /** A row and its cache entry written together. */
  lemma WriteKeeps(t: Table, c: map<Jid, Info>, user: Jid, row: Row)
    ensures AgreesButFound(t, c) ==> AgreesButFound(t[user := row], c[user := InfoOf(row)])
    ensures Coherent(t, c) ==> Coherent(t[user := row], c[user := InfoOf(row)])
  {
  }

  lemma ReadKeeps(t: Table, c: map<Jid, Info>, user: Jid)
    ensures AgreesButFound(t, c) ==> AgreesButFound(t, c[user := View(t, user)])
    ensures Coherent(t, c) ==> Coherent(t, c[user := View(t, user)])
  {
  }

  /** The views of the given contacts, collected one by one. */
  function Viewed(t: Table, users: seq<Jid>): map<Jid, Info> {
    if users == [] then map[]
    else Viewed(t, users[..|users| - 1])[users[|users| - 1] := View(t, users[|users| - 1])]
  }

  lemma {:induction false} ViewedIsMap(t: Table, users: seq<Jid>)
    ensures Viewed(t, users) == map u | u in users :: View(t, u)
  {
    if users != [] {
      var front, last := users[..|users| - 1], users[|users| - 1];
      ViewedIsMap(t, front);
      assert users == front + [last];
    }
  }

  lemma MergePush(c: map<Jid, Info>, m: map<Jid, Info>, user: Jid, info: Info)
    ensures (c + m)[user := info] == c + m[user := info]
  {
  }

  lemma ViewedKeeps(t: Table, c: map<Jid, Info>, users: seq<Jid>)
    ensures AgreesButFound(t, c) ==> AgreesButFound(t, c + Viewed(t, users))
    ensures Coherent(t, c) ==> Coherent(t, c + Viewed(t, users))
  {
    ViewedIsMap(t, users);
  }

  // ---------------------------------------------------------------- the statements

  function RowOf(t: Table, user: Jid): Row {
    if user in t then t[user] else Row(None, None, None, None, None)
  }

  /** The columns that a call on one contact writes. */
  datatype Change = PushName(name: string) | BusinessName(name: string) | Names(first: string, full: string)

  function RowWith(r: Row, ch: Change): Row {
    match ch
    case PushName(name) => r.(push := Some(name))
    case BusinessName(name) => r.(business := Some(name))
    case Names(first, full) => r.(first := Some(first), full := Some(full))
  }

  function InfoWith(info: Info, ch: Change): Info {
    match ch
    case PushName(name) => info.(push := name, found := true)
    case BusinessName(name) => info.(business := name, found := true)
    case Names(first, full) => info.(first := first, full := full, found := true)
  }

  /** The cached entry differs from what is to be written. */
  predicate Differs(info: Info, ch: Change) {
    match ch
    case PushName(name) => info.push != name
    case BusinessName(name) => info.business != name
    case Names(first, full) => info.first != first || info.full != full
  }

  function SetNames(t: Table, e: NameEntry): Table {
    t[e.jid := RowWith(RowOf(t, e.jid), Names(e.first, e.full))]
  }

  function SetPhone(t: Table, e: PhoneEntry): Table {
    t[e.jid := RowOf(t, e.jid).(phone := Some(e.phone))]
  }

  /** A mass insert upserts its rows one after the other. */
  function SetAllNames(t: Table, es: seq<NameEntry>): Table {
    if es == [] then t else SetNames(SetAllNames(t, es[..|es| - 1]), es[|es| - 1])
  }

  function SetAllPhones(t: Table, es: seq<PhoneEntry>): Table {
    if es == [] then t else SetPhone(SetAllPhones(t, es[..|es| - 1]), es[|es| - 1])
  }

  /** The first entry of every JID, in order. */
  function DedupNames(es: seq<NameEntry>): seq<NameEntry> {
    if es == [] then []
    else
      var front, last := es[..|es| - 1], es[|es| - 1];
      DedupNames(front) + if exists e | e in front :: e.jid == last.jid then [] else [last]
  }

  function DedupPhones(es: seq<PhoneEntry>): seq<PhoneEntry> {
    if es == [] then []
    else
      var front, last := es[..|es| - 1], es[|es| - 1];
      DedupPhones(front) + if exists e | e in front :: e.jid == last.jid then [] else [last]
  }

  /** Statements appended to statements: chunking a batch does not change its meaning. */
  lemma {:induction false} NamesAppend(t: Table, a: seq<NameEntry>, b: seq<NameEntry>)
    ensures SetAllNames(t, a + b) == SetAllNames(SetAllNames(t, a), b)
  {
    if b == [] {
      assert a + b == a;
    } else {
      NamesAppend(t, a, b[..|b| - 1]);
      assert (a + b)[..|a + b| - 1] == a + b[..|b| - 1];
    }
  }

  lemma {:induction false} PhonesAppend(t: Table, a: seq<PhoneEntry>, b: seq<PhoneEntry>)
    ensures SetAllPhones(t, a + b) == SetAllPhones(SetAllPhones(t, a), b)
  {
    if b == [] {
      assert a + b == a;
    } else {
      PhonesAppend(t, a, b[..|b| - 1]);
      assert (a + b)[..|a + b| - 1] == a + b[..|b| - 1];
    }
  }

  // ---------------------------------------------------------------- what batches mean

  /** The first entry of a batch for a contact. */
  function FirstEntry(es: seq<NameEntry>, user: Jid): Option<NameEntry> {
    if es == [] then None
    else if es[0].jid == user then Some(es[0])
    else FirstEntry(es[1..], user)
  }

  lemma {:induction false} FirstEntryPush(es: seq<NameEntry>, last: NameEntry, user: Jid)
    ensures FirstEntry(es + [last], user) ==
            if FirstEntry(es, user).Some? then FirstEntry(es, user)
            else if last.jid == user then Some(last) else None
    ensures FirstEntry(es, user).Some? <==> exists e :: e in es && e.jid == user
  {
    if es != [] {
      FirstEntryPush(es[1..], last, user);
      assert (es + [last])[1..] == es[1..] + [last];
      assert es == [es[0]] + es[1..];
    } else {
      assert (es + [last])[1..] == [];
    }
  }

  lemma SetNamesPush(t: Table, es: seq<NameEntry>, last: NameEntry)
    ensures SetAllNames(t, es + [last]) == SetNames(SetAllNames(t, es), last)
  {
    assert (es + [last])[..|es|] == es;
  }

  lemma NameBatchStep(t: Table, front: seq<NameEntry>, last: NameEntry)
    ensures var before := SetAllNames(t, DedupNames(front));
            SetAllNames(t, DedupNames(front + [last])) ==
              if exists e :: e in front && e.jid == last.jid then before else SetNames(before, last)
  {
    var es, kept := front + [last], DedupNames(front);
    assert es[..|es| - 1] == front;
    if exists e :: e in front && e.jid == last.jid {
      assert DedupNames(es) == kept;
    } else {
      assert DedupNames(es) == kept + [last];
      SetNamesPush(t, kept, last);
    }
  }

  /** A name batch gives every contact in it the names of its first entry, and changes no
      other column and no other row. */
  lemma {:induction false} NameBatchExact(t: Table, es: seq<NameEntry>, user: Jid)
    ensures var t', e := SetAllNames(t, DedupNames(es)), FirstEntry(es, user);
            if e.None? then (user in t' <==> user in t) && RowOf(t', user) == RowOf(t, user)
            else user in t' && t'[user] == RowOf(t, user).(first := Some(e.value.first), full := Some(e.value.full))
  {
    if es != [] {
      var front, last := es[..|es| - 1], es[|es| - 1];
      assert es == front + [last];
      NameBatchExact(t, front, user);
      FirstEntryPush(front, last, user);
      FirstEntryPush(front, last, last.jid);
      NameBatchStep(t, front, last);
    }
  }

  lemma {:induction false} FirstEntryIsFirst(es: seq<NameEntry>, i: nat)
    requires i < |es| && forall j :: 0 <= j < i ==> es[j].jid != es[i].jid
    ensures FirstEntry(es, es[i].jid) == Some(es[i])
  {
    if i > 0 {
      FirstEntryIsFirst(es[1..], i - 1);
    }
  }

  lemma {:induction false} FirstEntryIn(es: seq<NameEntry>, user: Jid)
    ensures FirstEntry(es, user).Some? ==> exists e :: e in es && e.jid == user
  {
    if es != [] && es[0].jid != user {
      FirstEntryIn(es[1..], user);
    }
  }

  /** The row that a name batch leaves for a contact, column by column. */
  lemma NamesOfFirst(t: Table, es: seq<NameEntry>, i: nat)
    requires i < |es| && forall j :: 0 <= j < i ==> es[j].jid != es[i].jid
    ensures var t' := SetAllNames(t, DedupNames(es));
            && es[i].jid in t'
            && t'[es[i].jid] == (if es[i].jid in t then t[es[i].jid] else Row(None, None, None, None, None))
                                .(first := Some(es[i].first), full := Some(es[i].full))
  {
    FirstEntryIsFirst(es, i);
    NameBatchExact(t, es, es[i].jid);
  }

  lemma NamesElsewhere(t: Table, es: seq<NameEntry>, user: Jid)
    requires forall e :: e in es ==> e.jid != user
    ensures var t' := SetAllNames(t, DedupNames(es));
            (user in t' <==> user in t) && (user in t ==> t'[user] == t[user])
  {
    FirstEntryIn(es, user);
    NameBatchExact(t, es, user);
  }

  function NamedJids(es: seq<NameEntry>): set<Jid> {
    set e | e in es :: e.jid
  }

  function PhoneJids(es: seq<PhoneEntry>): set<Jid> {
    set e | e in es :: e.jid
  }

  lemma NamedJidsPush(front: seq<NameEntry>, last: NameEntry)
    ensures NamedJids(front + [last]) == NamedJids(front) + {last.jid}
  {
  }

  lemma PhoneJidsPush(front: seq<PhoneEntry>, last: PhoneEntry)
    ensures PhoneJids(front + [last]) == PhoneJids(front) + {last.jid}
  {
  }

  /** A batch has as many rows as contacts. */
  lemma {:induction false} DedupNamesCount(es: seq<NameEntry>)
    ensures |DedupNames(es)| == |NamedJids(es)|
  {
    if es != [] {
      var front, last := es[..|es| - 1], es[|es| - 1];
      assert es == front + [last];
      DedupNamesCount(front);
      NamedJidsPush(front, last);
      assert last.jid in NamedJids(front) <==> exists e :: e in front && e.jid == last.jid;
      assert |NamedJids(front) + {last.jid}| == |NamedJids(front)| + if last.jid in NamedJids(front) then 0 else 1 by {
        assert last.jid in NamedJids(front) ==> NamedJids(front) + {last.jid} == NamedJids(front);
      }
    }
  }

  lemma {:induction false} DedupPhonesCount(es: seq<PhoneEntry>)
    ensures |DedupPhones(es)| == |PhoneJids(es)|
  {
    if es != [] {
      var front, last := es[..|es| - 1], es[|es| - 1];
      assert es == front + [last];
      DedupPhonesCount(front);
      PhoneJidsPush(front, last);
      assert last.jid in PhoneJids(front) <==> exists e :: e in front && e.jid == last.jid;
      assert |PhoneJids(front) + {last.jid}| == |PhoneJids(front)| + if last.jid in PhoneJids(front) then 0 else 1 by {
        assert last.jid in PhoneJids(front) ==> PhoneJids(front) + {last.jid} == PhoneJids(front);
      }
    }
  }

  /** What the eviction after a phone batch keeps: entries it does not mention, and entries
      that show the new phone already. */
  function Evict(c: map<Jid, Info>, es: seq<PhoneEntry>): map<Jid, Info> {
    if es == [] then c
    else
      var before, last := Evict(c, es[..|es| - 1]), es[|es| - 1];
      if last.jid in before && before[last.jid].phone == last.phone then before else before - {last.jid}
  }

  ghost predicate DistinctPhones(es: seq<PhoneEntry>) {
    forall i, j :: 0 <= i < j < |es| ==> es[i].jid != es[j].jid
  }

  /** A cached absence survives the batch although the batch has created the row: this takes
      an empty phone number. */
  ghost predicate StaleAbsence(t: Table, c: map<Jid, Info>, es: seq<PhoneEntry>) {
    exists e :: e in es && e.phone == "" && e.jid in c && e.jid !in t
  }

  lemma {:induction false} OtherPhones(t: Table, es: seq<PhoneEntry>, user: Jid)
    requires forall e :: e in es ==> e.jid != user
    ensures user in SetAllPhones(t, es) <==> user in t
    ensures RowOf(SetAllPhones(t, es), user) == RowOf(t, user)
  {
    if es != [] {
      var front, last := es[..|es| - 1], es[|es| - 1];
      assert last in es && forall e :: e in front ==> e in es;
      OtherPhones(t, front, user);
    }
  }

  lemma {:induction false} PhonesAt(t: Table, es: seq<PhoneEntry>, i: nat)
    requires DistinctPhones(es) && i < |es|
    ensures es[i].jid in SetAllPhones(t, es)
    ensures SetAllPhones(t, es)[es[i].jid] == RowOf(t, es[i].jid).(phone := Some(es[i].phone))
  {
    var front, last := es[..|es| - 1], es[|es| - 1];
    if i < |front| {
      PhonesAt(t, front, i);
    } else {
      OtherPhones(t, front, last.jid);
    }
  }

  /** The row that a phone batch leaves for one contact. */
  lemma PhoneRow(t: Table, es: seq<PhoneEntry>, user: Jid)
    requires DistinctPhones(es)
    ensures forall e :: e in es && e.jid == user ==>
              user in SetAllPhones(t, es) && SetAllPhones(t, es)[user] == RowOf(t, user).(phone := Some(e.phone))
    ensures (forall e :: e in es ==> e.jid != user) ==>
              (user in SetAllPhones(t, es) <==> user in t) && RowOf(SetAllPhones(t, es), user) == RowOf(t, user)
  {
    if forall e :: e in es ==> e.jid != user {
      OtherPhones(t, es, user);
    }
    forall e | e in es && e.jid == user
      ensures user in SetAllPhones(t, es)
      ensures SetAllPhones(t, es)[user] == RowOf(t, user).(phone := Some(e.phone))
    {
      var i :| 0 <= i < |es| && es[i] == e;
      PhonesAt(t, es, i);
    }
  }

  lemma {:induction false} EvictAt(c: map<Jid, Info>, es: seq<PhoneEntry>, user: Jid)
    ensures user in Evict(c, es) <==> user in c && forall e :: e in es && e.jid == user ==> c[user].phone == e.phone
    ensures user in Evict(c, es) ==> Evict(c, es)[user] == c[user]
  {
    if es != [] {
      var front, last := es[..|es| - 1], es[|es| - 1];
      assert es == front + [last];
      EvictAt(c, front, user);
    }
  }

  /** A phone batch keeps the cache right but for the `found` flags. */
  lemma PhoneBatchAgrees(t: Table, c: map<Jid, Info>, es: seq<PhoneEntry>)
    requires AgreesButFound(t, c) && DistinctPhones(es)
    ensures AgreesButFound(SetAllPhones(t, es), Evict(c, es))
  {
    var t', c' := SetAllPhones(t, es), Evict(c, es);
    forall user | user in c'
      ensures c'[user].(found := true) == View(t', user).(found := true) && (c'[user].found ==> user in t')
    {
      PhoneRow(t, es, user);
      EvictAt(c, es, user);
      if e :| e in es && e.jid == user {
        assert c[user].phone == e.phone;
      }
    }
  }

  lemma OnlyEntry(es: seq<PhoneEntry>, e: PhoneEntry)
    requires DistinctPhones(es) && e in es
    ensures forall x :: x in es && x.jid == e.jid ==> x == e
  {
  }

  /** A phone batch keeps the cache coherent exactly when it leaves no stale absence behind. */
  lemma PhoneBatchCoherentIff(t: Table, c: map<Jid, Info>, es: seq<PhoneEntry>)
    requires Coherent(t, c) && DistinctPhones(es)
    ensures Coherent(SetAllPhones(t, es), Evict(c, es)) <==> !StaleAbsence(t, c, es)
  {
    var t', c' := SetAllPhones(t, es), Evict(c, es);
    if e :| e in es && e.phone == "" && e.jid in c && e.jid !in t {
      PhoneRow(t, es, e.jid);
      EvictAt(c, es, e.jid);
      OnlyEntry(es, e);
      assert c[e.jid] == View(t, e.jid);
      assert e.jid in c' && !c'[e.jid].found;
    } else {
      forall user | user in c'
        ensures c'[user] == View(t', user)
      {
        PhoneRow(t, es, user);
        EvictAt(c, es, user);
        if e :| e in es && e.jid == user {
          assert c[user] == View(t, user) && user in t;
        }
      }
    }
  }

  lemma {:induction false} DedupPhonesDistinct(es: seq<PhoneEntry>)
    ensures DistinctPhones(DedupPhones(es))
    ensures forall e :: e in DedupPhones(es) ==> e in es
  {
    if es != [] {
      var front, last := es[..|es| - 1], es[|es| - 1];
      assert es == front + [last];
      DedupPhonesDistinct(front);
    }
  }

  /** No contact of the batch is lost. */
  lemma {:induction false} DedupPhonesCovers(es: seq<PhoneEntry>, e: PhoneEntry)
    requires e in es
    ensures exists d :: d in DedupPhones(es) && d.jid == e.jid
  {
    if es != [] {
      var front, last := es[..|es| - 1], es[|es| - 1];
      assert es == front + [last];
      if x :| x in front && x.jid == e.jid {
        DedupPhonesCovers(front, x);
        var d :| d in DedupPhones(front) && d.jid == x.jid;
        assert d in DedupPhones(es);
      } else {
        assert last in DedupPhones(es);
      }
    }
  }

  lemma {:induction false} DedupPhonesKeepsFirst(es: seq<PhoneEntry>, i: nat)
    requires i < |es| && forall j :: 0 <= j < i ==> es[j].jid != es[i].jid
    ensures es[i] in DedupPhones(es)
  {
    var front := es[..|es| - 1];
    if i < |front| {
      DedupPhonesKeepsFirst(front, i);
    }
  }

  /** What is left of a contact's entries is its first one. */
  lemma DedupPhonesAt(es: seq<PhoneEntry>, i: nat)
    requires i < |es| && forall j :: 0 <= j < i ==> es[j].jid != es[i].jid
    ensures forall e :: e in DedupPhones(es) && e.jid == es[i].jid <==> e == es[i]
  {
    DedupPhonesDistinct(es);
    DedupPhonesKeepsFirst(es, i);
    OnlyEntry(DedupPhones(es), es[i]);
  }

  /** The row that a phone batch leaves for a contact, column by column. */
  lemma PhoneOfFirst(t: Table, es: seq<PhoneEntry>, i: nat)
    requires i < |es| && forall j :: 0 <= j < i ==> es[j].jid != es[i].jid
    ensures var t' := SetAllPhones(t, DedupPhones(es));
            && es[i].jid in t'
            && t'[es[i].jid] == (if es[i].jid in t then t[es[i].jid] else Row(None, None, None, None, None))
                                .(phone := Some(es[i].phone))
  {
    DedupPhonesDistinct(es);
    DedupPhonesKeepsFirst(es, i);
    PhoneRow(t, DedupPhones(es), es[i].jid);
  }

  lemma PhonesElsewhere(t: Table, es: seq<PhoneEntry>, user: Jid)
    requires forall e :: e in es ==> e.jid != user
    ensures var t' := SetAllPhones(t, DedupPhones(es));
            (user in t' <==> user in t) && (user in t ==> t'[user] == t[user])
  {
    DedupPhonesDistinct(es);
    PhoneRow(t, DedupPhones(es), user);
  }

  /** The eviction keeps entries of contacts that are not in the batch, and entries that show the
      phone of the contact's first entry there. */
  lemma EvictionElsewhere(c: map<Jid, Info>, es: seq<PhoneEntry>, user: Jid)
    requires forall e :: e in es ==> e.jid != user
    ensures user in Evict(c, DedupPhones(es)) <==> user in c
    ensures user in c ==> Evict(c, DedupPhones(es))[user] == c[user]
  {
    DedupPhonesDistinct(es);
    EvictAt(c, DedupPhones(es), user);
  }

  lemma EvictionOfFirst(c: map<Jid, Info>, es: seq<PhoneEntry>, i: nat)
    requires i < |es| && forall j :: 0 <= j < i ==> es[j].jid != es[i].jid
    ensures var user, c' := es[i].jid, Evict(c, DedupPhones(es));
            && (user in c' <==> user in c && c[user].phone == es[i].phone)
            && (user in c' ==> c'[user] == c[user])
  {
    DedupPhonesAt(es, i);
    EvictAt(c, DedupPhones(es), es[i].jid);
  }

  /** After a phone batch a lookup answers the phone of the contact's first entry, whatever was
      cached. */
  lemma PhoneIsAnswered(t: Table, c: map<Jid, Info>, es: seq<PhoneEntry>, i: nat)
    requires AgreesButFound(t, c)
    requires i < |es| && forall j :: 0 <= j < i ==> es[j].jid != es[i].jid
    ensures Lookup(SetAllPhones(t, DedupPhones(es)), Evict(c, DedupPhones(es)), es[i].jid).phone == es[i].phone
  {
    DedupPhonesDistinct(es);
    PhoneBatchAgrees(t, c, DedupPhones(es));
    PhoneOfFirst(t, es, i);
  }
}

/** MigratePNToLID: moving the sessions, identity keys and sender keys of a phone number to
    its LID, with SQL replace() and LIKE on address strings. */
module Rekey {
  import opened Sql
  import opened SqlText

  /** The primary key of a row; sessions and identity keys have no chat and use "". */
  datatype Key = Key(our: string, chat: string, id: string)

  type Table = map<Key, Bytes>

  /** Signal addresses read `user:device`. */
  predicate OfUser(id: string, user: string) {
    user + ":" <= id
  }

  /** The address with its user exchanged. */
  function WithUser(id: string, user: string, other: string): string
    requires OfUser(id, user)
  {
    other + id[|user|..]
  }

  // ---------------------------------------------------------------- the statements

  /** WHERE our_jid=$1 AND their_id LIKE $2 || ':%'. */
  predicate Matches(k: Key, our: string, user: string) {
    k.our == our && Like(user + ":%", k.id)
  }

  function Selected(t: Table, our: string, user: string): set<Key> {
    set k | k in t && Matches(k, our, user)
  }

  function Replaced(k: Key, pn: string, lid: string): Key {
    k.(id := Replace(k.id, pn, lid))
  }

  /** INSERT ... SELECT ... ON CONFLICT DO UPDATE: the selected rows are read first and then
      upserted one by one, in whatever order the database delivers them. */
  function InsertReplaced(t: Table, order: seq<Key>, pn: string, lid: string): Table
    requires forall k :: k in order ==> k in t
  {
    if order == [] then t
    else
      var front, last := order[..|order| - 1], order[|order| - 1];
      assert forall k :: k in front ==> k in order;
      InsertReplaced(t, front, pn, lid)[Replaced(last, pn, lid) := t[last]]
  }

  /** DELETE ... WHERE our_jid=$1 AND their_id LIKE $2. */
  function DeleteAll(t: Table, our: string, user: string): Table {
    map k | k in t && !Matches(k, our, user) :: t[k]
  }

  ghost predicate Enumerates(order: seq<Key>, keys: set<Key>) {
    && (forall k :: k in order <==> k in keys)
    && (forall i, j :: 0 <= i < j < |order| ==> order[i] != order[j])
  }

  lemma FirstIsElement(order: seq<Key>)
    requires order != []
    ensures order[0] in order
  {
  }

  lemma NoneEnumerated(order: seq<Key>)
    requires Enumerates(order, {})
    ensures order == []
  {
    if order != [] {
      FirstIsElement(order);
    }
  }

  function RekeyTable(t: Table, our: string, pn: string, lid: string, order: seq<Key>): Table
    requires forall k :: k in order ==> k in t
  {
    DeleteAll(InsertReplaced(t, order, pn, lid), our, pn)
  }

  /** Row p is selected, and replace() makes k of its key. */
  ghost predicate Becomes(t: Table, our: string, pn: string, lid: string, p: Key, k: Key) {
    && p in t && p.our == our && Like(pn + ":%", p.id)
    && k == Key(our, p.chat, Replace(p.id, pn, lid))
  }

  /** What the two statements leave, for any users at all: no selected address, at every other
      address that replace() makes the value of a row it makes it of, and all else as it was. */
  ghost predicate RowsReplaced(t: Table, our: string, pn: string, lid: string, t': Table) {
    forall k: Key ::
      if k.our == our && Like(pn + ":%", k.id) then k !in t'
      else if exists p :: Becomes(t, our, pn, lid, p, k) then
        k in t' && exists p :: Becomes(t, our, pn, lid, p, k) && t'[k] == t[p]
      else (k in t' <==> k in t) && (k in t ==> t'[k] == t[k])
  }

  lemma {:induction false} InsertedAt(t: Table, order: seq<Key>, pn: string, lid: string, k: Key)
    requires forall p :: p in order ==> p in t
    ensures var t1 := InsertReplaced(t, order, pn, lid);
            if exists p :: p in order && Replaced(p, pn, lid) == k
            then k in t1 && exists p :: p in order && Replaced(p, pn, lid) == k && t1[k] == t[p]
            else (k in t1 <==> k in t) && (k in t ==> t1[k] == t[k])
  {
    if order != [] {
      var front, last := order[..|order| - 1], order[|order| - 1];
      assert order == front + [last];
      InsertedAt(t, front, pn, lid, k);
    }
  }

  lemma RekeyReplaces(t: Table, our: string, pn: string, lid: string, order: seq<Key>)
    requires Enumerates(order, Selected(t, our, pn))
    ensures RowsReplaced(t, our, pn, lid, RekeyTable(t, our, pn, lid, order))
  {
    forall k: Key
      ensures var t1 := InsertReplaced(t, order, pn, lid);
              if exists p :: Becomes(t, our, pn, lid, p, k)
              then k in t1 && exists p :: Becomes(t, our, pn, lid, p, k) && t1[k] == t[p]
              else (k in t1 <==> k in t) && (k in t ==> t1[k] == t[k])
    {
      InsertedAt(t, order, pn, lid, k);
      assert forall p :: p in order && Replaced(p, pn, lid) == k <==> Becomes(t, our, pn, lid, p, k);
    }
  }

  // ---------------------------------------------------------------- the intention

  function UserRows(t: Table, our: string, pn: string): set<Key> {
    set k | k in t && k.our == our && OfUser(k.id, pn)
  }

  function Target(k: Key, pn: string, lid: string): Key {
    if OfUser(k.id, pn) then k.(id := WithUser(k.id, pn, lid)) else k
  }

  /** Every row of the phone number sits at the LID with its value, no row of the phone
      number remains, and no other row has changed. */
  ghost predicate Rekeyed(t: Table, our: string, pn: string, lid: string, t': Table) {
    && (forall k :: k in UserRows(t, our, pn) ==> Target(k, pn, lid) in t' && t'[Target(k, pn, lid)] == t[k])
    && (forall k :: k in t' ==> k !in UserRows(t', our, pn))
    && (forall k: Key :: !(k.our == our && OfUser(k.id, pn)) ==>
          (forall p :: p in UserRows(t, our, pn) ==> Target(p, pn, lid) != k) ==>
            (k in t <==> k in t') && (k in t ==> t[k] == t'[k]))
  }

  /** The same, address by address. */
  ghost predicate RowsMoved(t: Table, our: string, pn: string, lid: string, t': Table) {
    && (forall chat, rest :: Key(our, chat, pn + ":" + rest) in t ==>
          && Key(our, chat, lid + ":" + rest) in t'
          && t'[Key(our, chat, lid + ":" + rest)] == t[Key(our, chat, pn + ":" + rest)])
    && (forall chat, rest :: Key(our, chat, pn + ":" + rest) !in t')
    && (forall k :: k in t' ==>
          || (k in t && t'[k] == t[k])
          || exists rest :: k.our == our && k.id == lid + ":" + rest && Key(our, k.chat, pn + ":" + rest) in t)
    && (forall k :: k in t && !(k.our == our && pn + ":" <= k.id) ==> k in t')
  }

  lemma AddressParts(id: string, user: string, other: string, rest: string)
    ensures OfUser(user + ":" + rest, user)
    ensures WithUser(user + ":" + rest, user, other) == other + ":" + rest
    ensures OfUser(id, user) ==> id == user + ":" + id[|user| + 1..]
  {
    var a := user + ":" + rest;
    assert a[|user|..] == ":" + rest;
    assert other + (":" + rest) == other + ":" + rest;
    if OfUser(id, user) {
      assert id[..|user| + 1] == user + ":";
    }
  }

  lemma RekeyedMovesRows(t: Table, our: string, pn: string, lid: string, t': Table)
    requires Rekeyed(t, our, pn, lid, t')
    ensures RowsMoved(t, our, pn, lid, t')
  {
    forall chat, rest
      ensures Key(our, chat, pn + ":" + rest) !in t'
      ensures Key(our, chat, pn + ":" + rest) in t ==>
                && Key(our, chat, lid + ":" + rest) in t'
                && t'[Key(our, chat, lid + ":" + rest)] == t[Key(our, chat, pn + ":" + rest)]
    {
      AddressParts("", pn, lid, rest);
      var k := Key(our, chat, pn + ":" + rest);
      assert k in t' ==> k in UserRows(t', our, pn);
      if k in t {
        assert k in UserRows(t, our, pn) && Target(k, pn, lid) == Key(our, chat, lid + ":" + rest);
      }
    }
    forall k | k in t' && !(k in t && t'[k] == t[k])
      ensures exists rest :: k.our == our && k.id == lid + ":" + rest && Key(our, k.chat, pn + ":" + rest) in t
    {
      assert k !in UserRows(t', our, pn);
      var p :| p in UserRows(t, our, pn) && Target(p, pn, lid) == k;
      var rest := p.id[|pn| + 1..];
      AddressParts(p.id, pn, lid, rest);
      assert k.id == lid + ":" + rest && p == Key(our, k.chat, pn + ":" + rest);
    }
    forall k | k in t && !(k.our == our && pn + ":" <= k.id)
      ensures k in t'
    {
      if p :| p in UserRows(t, our, pn) && Target(p, pn, lid) == k {
        assert Target(p, pn, lid) in t';
      }
    }
  }

  /** What the caller can check of the phone number and the rows: the number is made of
      characters other than the colon that LIKE takes literally, and it does not occur again
      in the rest of any of its addresses. */
  ghost predicate CleanRows(t: Table, our: string, pn: string) {
    && pn != "" && AllLiteral(pn) && ':' !in pn
    && (forall k :: k in UserRows(t, our, pn) ==> !Occurs(pn, k.id[|pn|..]))
  }

  /** The LID's addresses are not addresses of the phone number. */
  predicate Apart(pn: string, lid: string) {
    !OfUser(lid + ":", pn)
  }

  lemma SelectedAreUserRows(t: Table, our: string, pn: string)
    requires AllLiteral(pn)
    ensures Selected(t, our, pn) == UserRows(t, our, pn)
    ensures forall k: Key :: Matches(k, our, pn) <==> k.our == our && OfUser(k.id, pn)
  {
    forall k: Key
      ensures Matches(k, our, pn) <==> k.our == our && OfUser(k.id, pn)
    {
      LiteralPrefix(pn, k.id);
    }
  }

  lemma TargetInjective(k1: Key, k2: Key, pn: string, lid: string)
    requires OfUser(k1.id, pn) && OfUser(k2.id, pn)
    requires Target(k1, pn, lid) == Target(k2, pn, lid)
    ensures k1 == k2
  {
    assert k1.id == pn + k1.id[|pn|..] && k2.id == pn + k2.id[|pn|..];
    var a, b := lid + k1.id[|pn|..], lid + k2.id[|pn|..];
    assert a[|lid|..] == k1.id[|pn|..] && b[|lid|..] == k2.id[|pn|..];
  }

  /** The target of an address of pn is an address of lid, so not one of pn. */
  lemma TargetApart(k: Key, pn: string, lid: string)
    requires OfUser(k.id, pn) && ':' !in pn
    ensures OfUser(Target(k, pn, lid).id, lid)
    ensures OfUser(Target(k, pn, lid).id, pn) <==> !Apart(pn, lid)
  {
    var rest, target := k.id[|pn|..], Target(k, pn, lid).id;
    assert rest[0] == (pn + ":")[|pn|] == ':';
    assert rest == ":" + rest[1..];
    assert target == lid + ":" + rest[1..];
    if OfUser(target, pn) {
      assert forall i :: 0 <= i < |pn| ==> target[i] == (pn + ":")[i] == pn[i] && pn[i] in pn;
      assert target[|lid|] == ':' && |pn| <= |lid|;
      assert lid + ":" == target[..|lid| + 1];
    }
  }

  // ---------------------------------------------------------------- exactness

  /** What a caller can check of the addresses in a table.  LIKE selects no address of another
      user.  No address of the number is selected again once it is moved, and none has the
      number in its rest, where replace() would exchange it too. */
  predicate Movable(keys: set<Key>, our: string, pn: string, lid: string) {
    forall k | k in keys && k.our == our ::
      && (Like(pn + ":%", k.id) ==> OfUser(k.id, pn))
      && (OfUser(k.id, pn) ==>
            !Like(pn + ":%", WithUser(k.id, pn, lid)) && pn != "" && !Occurs(pn, k.id[|pn|..]))
  }

  /** Whatever characters the number has, its own addresses are selected. */
  lemma LikeOwnAddress(id: string, user: string)
    requires OfUser(id, user)
    ensures Like(user + ":%", id)
  {
    var rest := id[|user|..];
    assert rest[0] == (user + ":")[|user|] == ':';
    assert id == user + rest && ":%"[1..] == "%";
    PercentMatchesAll(rest[1..]);
    LikeCharwise(user, user, ":%", rest);
  }

  lemma MovableSelects(t: Table, our: string, pn: string, lid: string)
    requires Movable(t.Keys, our, pn, lid)
    ensures Selected(t, our, pn) == UserRows(t, our, pn)
  {
    forall k | k in UserRows(t, our, pn)
      ensures k in Selected(t, our, pn)
    {
      LikeOwnAddress(k.id, pn);
    }
  }

  lemma MovableReplaces(keys: set<Key>, our: string, pn: string, lid: string, k: Key)
    requires Movable(keys, our, pn, lid) && k in keys && k.our == our && OfUser(k.id, pn)
    ensures Replaced(k, pn, lid) == Target(k, pn, lid)
    ensures !Matches(Target(k, pn, lid), our, pn) && !OfUser(Target(k, pn, lid).id, pn)
  {
    assert k.id == pn + k.id[|pn|..];
    ReplacesPrefixOnlyIff(pn, k.id[|pn|..], lid);
    if OfUser(Target(k, pn, lid).id, pn) {
      LikeOwnAddress(Target(k, pn, lid).id, pn);
    }
  }

  /** What the insert statement leaves: upserted targets over the old rows. */
  lemma {:induction false} InsertedRows(t: Table, order: seq<Key>, our: string, pn: string, lid: string)
    requires Movable(t.Keys, our, pn, lid)
    requires forall k :: k in order ==> k in t && k.our == our && OfUser(k.id, pn)
    ensures var t1 := InsertReplaced(t, order, pn, lid);
            && (forall k :: k in order ==> Target(k, pn, lid) in t1 && t1[Target(k, pn, lid)] == t[k])
            && (forall k :: (forall p :: p in order ==> Target(p, pn, lid) != k) ==>
                  (k in t <==> k in t1) && (k in t ==> t[k] == t1[k]))
  {
    if order != [] {
      var front, last := order[..|order| - 1], order[|order| - 1];
      assert order == front + [last];
      InsertedRows(t, front, our, pn, lid);
      MovableReplaces(t.Keys, our, pn, lid, last);
      forall k | k in front && Target(k, pn, lid) == Target(last, pn, lid)
        ensures k == last
      {
        TargetInjective(k, last, pn, lid);
      }
    }
  }

  lemma RekeyMoves(t: Table, our: string, pn: string, lid: string, order: seq<Key>)
    requires Movable(t.Keys, our, pn, lid) && Enumerates(order, Selected(t, our, pn))
    ensures Rekeyed(t, our, pn, lid, RekeyTable(t, our, pn, lid, order))
  {
    var t1, t2 := InsertReplaced(t, order, pn, lid), RekeyTable(t, our, pn, lid, order);
    MovableSelects(t, our, pn, lid);
    InsertedRows(t, order, our, pn, lid);
    forall k | k in UserRows(t, our, pn)
      ensures !Matches(Target(k, pn, lid), our, pn) && !OfUser(Target(k, pn, lid).id, pn)
    {
      MovableReplaces(t.Keys, our, pn, lid, k);
    }
    forall k | k in t2
      ensures k !in UserRows(t2, our, pn)
    {
      if OfUser(k.id, pn) && k.our == our {
        LikeOwnAddress(k.id, pn);
      }
    }
  }

  /** Rows enter the table with their own value, so a value that one row alone has shows up at
      that row's old key or at its replaced one. */
  lemma {:induction false} ValueStays(t: Table, order: seq<Key>, pn: string, lid: string, only: Key, k: Key)
    requires forall x :: x in order ==> x in t
    requires only in t && forall x :: x in t && x != only ==> t[x] != t[only]
    requires k in InsertReplaced(t, order, pn, lid) && InsertReplaced(t, order, pn, lid)[k] == t[only]
    ensures k == only || k == Replaced(only, pn, lid)
  {
    if order != [] {
      var front, last := order[..|order| - 1], order[|order| - 1];
      assert order == front + [last];
      if k == Replaced(last, pn, lid) {
        assert last in order && t[last] == t[only];
      } else {
        ValueStays(t, front, pn, lid, only, k);
      }
    }
  }

  /** A selected address of another user is deleted, and a row that ends up at an address
      selected again is deleted too. */
  lemma DeletedIsLost(t: Table, our: string, pn: string, lid: string, order: seq<Key>, k: Key)
    requires Enumerates(order, Selected(t, our, pn)) && k in t && k.our == our
    requires if OfUser(k.id, pn) then Like(pn + ":%", WithUser(k.id, pn, lid)) else Like(pn + ":%", k.id)
    ensures !Rekeyed(t, our, pn, lid, RekeyTable(t, our, pn, lid, order))
  {
    var t2 := RekeyTable(t, our, pn, lid, order);
    if OfUser(k.id, pn) {
      assert k in UserRows(t, our, pn) && Target(k, pn, lid) !in t2;
    } else {
      assert k !in t2;
      if p :| p in UserRows(t, our, pn) && Target(p, pn, lid) == k {
        assert Target(p, pn, lid) !in t2;
      }
    }
  }

  /** A row that replace() sends elsewhere is missing at its target. */
  lemma MisplacedIsLost(t: Table, our: string, pn: string, lid: string, order: seq<Key>, k: Key)
    requires Enumerates(order, Selected(t, our, pn)) && k in UserRows(t, our, pn)
    requires Target(k, pn, lid) != k && Target(k, pn, lid) != Replaced(k, pn, lid)
    requires forall other :: other in t && other != k ==> t[other] != t[k]
    ensures !Rekeyed(t, our, pn, lid, RekeyTable(t, our, pn, lid, order))
  {
    var t2 := RekeyTable(t, our, pn, lid, order);
    if Target(k, pn, lid) in t2 && t2[Target(k, pn, lid)] == t[k] {
      ValueStays(t, order, pn, lid, k, Target(k, pn, lid));
    }
  }

  lemma {:induction false} EnumerationExists(keys: set<Key>) returns (order: seq<Key>)
    ensures Enumerates(order, keys)
  {
    if keys == {} {
      order := [];
    } else {
      var k :| k in keys;
      var rest := EnumerationExists(keys - {k});
      order := rest + [k];
    }
  }

  /** A table with these addresses that is re-keyed wrongly, if one of them stands in the way. */
  lemma WronglyRekeyed(keys: set<Key>, our: string, pn: string, lid: string, k: Key)
    returns (t: Table, order: seq<Key>)
    requires k in keys && !Movable({k}, our, pn, lid)
    ensures t.Keys == keys && Enumerates(order, Selected(t, our, pn))
    ensures !Rekeyed(t, our, pn, lid, RekeyTable(t, our, pn, lid, order))
  {
    t := map other | other in keys :: if other == k then "1" else "0";
    order := EnumerationExists(Selected(t, our, pn));
    if if OfUser(k.id, pn) then Like(pn + ":%", WithUser(k.id, pn, lid)) else Like(pn + ":%", k.id) {
      DeletedIsLost(t, our, pn, lid, order, k);
    } else {
      LikeOwnAddress(k.id, pn);
      assert k.id == pn + k.id[|pn|..];
      ReplacesPrefixOnlyIff(pn, k.id[|pn|..], lid);
      MisplacedIsLost(t, our, pn, lid, order, k);
    }
  }

  /** Re-keying moves every table with these addresses as intended, for any phone number and
      LID at all and in any order of the rows, exactly if the addresses are movable. */
  lemma RekeyExactIff(keys: set<Key>, our: string, pn: string, lid: string)
    ensures (forall t: Table, order: seq<Key> :: t.Keys == keys && Enumerates(order, Selected(t, our, pn)) ==>
               Rekeyed(t, our, pn, lid, RekeyTable(t, our, pn, lid, order)))
       <==> Movable(keys, our, pn, lid)
  {
    if Movable(keys, our, pn, lid) {
      forall t: Table, order: seq<Key> | t.Keys == keys && Enumerates(order, Selected(t, our, pn))
        ensures Rekeyed(t, our, pn, lid, RekeyTable(t, our, pn, lid, order))
      {
        RekeyMoves(t, our, pn, lid, order);
      }
    } else {
      var k :| k in keys && !Movable({k}, our, pn, lid);
      var t, order := WronglyRekeyed(keys, our, pn, lid, k);
    }
  }

  /** For a number of characters that LIKE takes literally, without a colon, and a LID apart from
      it, the addresses are movable exactly if the number does not occur again in any of its own. */
  lemma MovableIffNotRepeated(keys: set<Key>, our: string, pn: string, lid: string)
    requires pn != "" && AllLiteral(pn) && ':' !in pn && Apart(pn, lid)
    ensures Movable(keys, our, pn, lid)
       <==> forall k :: k in keys && k.our == our && OfUser(k.id, pn) ==> !Occurs(pn, k.id[|pn|..])
  {
    forall k | k in keys && k.our == our
      ensures Like(pn + ":%", k.id) <==> OfUser(k.id, pn)
      ensures OfUser(k.id, pn) ==> !Like(pn + ":%", WithUser(k.id, pn, lid))
    {
      LiteralPrefix(pn, k.id);
      if OfUser(k.id, pn) {
        TargetApart(k, pn, lid);
        LiteralPrefix(pn, WithUser(k.id, pn, lid));
      }
    }
  }

  lemma CleanIsMovable(t: Table, our: string, pn: string, lid: string)
    requires CleanRows(t, our, pn) && Apart(pn, lid)
    ensures Movable(t.Keys, our, pn, lid)
  {
    MovableIffNotRepeated(t.Keys, our, pn, lid);
    assert forall k :: k in t.Keys && k.our == our && OfUser(k.id, pn) ==> k in UserRows(t, our, pn);
  }

  /** Clean rows are re-keyed exactly just when the LID's addresses are no addresses of the
      phone number, unless there is nothing to move.  (With the LID equal to the phone number,
      every row of it would be deleted.) */
  lemma RekeyCleanIff(t: Table, our: string, pn: string, lid: string, order: seq<Key>)
    requires CleanRows(t, our, pn) && Enumerates(order, Selected(t, our, pn))
    ensures Rekeyed(t, our, pn, lid, RekeyTable(t, our, pn, lid, order))
       <==> UserRows(t, our, pn) == {} || Apart(pn, lid)
  {
    var t2 := RekeyTable(t, our, pn, lid, order);
    SelectedAreUserRows(t, our, pn);
    if Apart(pn, lid) {
      CleanIsMovable(t, our, pn, lid);
      RekeyMoves(t, our, pn, lid, order);
    } else if UserRows(t, our, pn) == {} {
      NoneEnumerated(order);
    } else {
      var k :| k in UserRows(t, our, pn);
      TargetApart(k, pn, lid);
      assert Target(k, pn, lid) !in t2;
    }
  }

  /** For users without a colon, being apart is being different. */
  lemma ApartIsDifferent(pn: string, lid: string)
    requires ':' !in pn && ':' !in lid
    ensures Apart(pn, lid) <==> pn != lid
  {
    var a, b := pn + ":", lid + ":";
    if a <= b {
      assert b[|pn|] == a[|pn|] == ':';
      assert forall i :: 0 <= i < |lid| ==> b[i] == lid[i] && lid[i] in lid;
      assert |lid| <= |pn|;
      assert a == b[..|a|];
      assert a[..|pn|] == pn && b[..|lid|] == lid;
    }
  }

  /** The table that re-keying has to leave is determined: this one. */
  ghost function Moved(t: Table, our: string, pn: string, lid: string): Table {
    var targets := set p | p in UserRows(t, our, pn) :: Target(p, pn, lid);
    map k | k in t.Keys + targets && !(k.our == our && OfUser(k.id, pn)) ::
      if exists p :: p in UserRows(t, our, pn) && Target(p, pn, lid) == k
      then var p :| p in UserRows(t, our, pn) && Target(p, pn, lid) == k; t[p]
      else t[k]
  }

  lemma RekeyIsMoved(t: Table, our: string, pn: string, lid: string, t': Table)
    requires ':' !in pn && Apart(pn, lid) && Rekeyed(t, our, pn, lid, t')
    ensures t' == Moved(t, our, pn, lid)
  {
    var m := Moved(t, our, pn, lid);
    forall k
      ensures k in t' <==> k in m
      ensures k in t' ==> t'[k] == m[k]
    {
      assert k in UserRows(t', our, pn) <==> k in t' && k.our == our && OfUser(k.id, pn);
      if p :| p in UserRows(t, our, pn) && Target(p, pn, lid) == k {
        assert k in m;
      }
    }
  }

  // ---------------------------------------------------------------- row accounting

  lemma {:induction false} ImageSize(ks: set<Key>, pn: string, lid: string)
    requires forall k :: k in ks ==> OfUser(k.id, pn)
    ensures |set k | k in ks :: Target(k, pn, lid)| == |ks|
    decreases |ks|
  {
    var image := set k | k in ks :: Target(k, pn, lid);
    if ks == {} {
      assert image == {};
    } else {
      var x :| x in ks;
      var rest := set k | k in ks - {x} :: Target(k, pn, lid);
      ImageSize(ks - {x}, pn, lid);
      forall k | k in ks - {x}
        ensures Target(k, pn, lid) != Target(x, pn, lid)
      {
        if Target(k, pn, lid) == Target(x, pn, lid) {
          TargetInjective(k, x, pn, lid);
        }
      }
      assert image == rest + {Target(x, pn, lid)};
    }
  }

  /** The targets that were rows already are those of the addresses under both users. */
  lemma KeptAndMoved(t: Table, our: string, pn: string, lid: string)
    requires ':' !in pn && Apart(pn, lid)
    ensures var rows := UserRows(t, our, pn);
            (t.Keys - rows) * (set p | p in rows :: Target(p, pn, lid))
            == set p | p in PresentUnderBoth(t, our, pn, lid) :: Target(p, pn, lid)
  {
    forall p | p in UserRows(t, our, pn)
      ensures !OfUser(Target(p, pn, lid).id, pn)
    {
      TargetApart(p, pn, lid);
    }
  }

  lemma Accounting(keys: set<Key>, rows: set<Key>, moved: set<Key>, shared: set<Key>)
    requires rows <= keys && |moved| == |rows| && shared == (keys - rows) * moved
    ensures |(keys - rows) + moved| == |keys| - |shared|
  {
    assert |(keys - rows) + moved| == |keys - rows| + |moved| - |(keys - rows) * moved|;
    assert |keys - rows| == |keys| - |rows|;
  }

  /** The addresses of the phone number whose device is present under the LID too. */
  function PresentUnderBoth(t: Table, our: string, pn: string, lid: string): set<Key> {
    set p | p in UserRows(t, our, pn) && Target(p, pn, lid) in t
  }

  /** The number of rows falls by exactly the number of addresses present under both users. */
  lemma RekeyRowCount(t: Table, our: string, pn: string, lid: string, t': Table)
    requires ':' !in pn && Apart(pn, lid) && Rekeyed(t, our, pn, lid, t')
    ensures |t'| == |t| - |PresentUnderBoth(t, our, pn, lid)|
  {
    var rows, both := UserRows(t, our, pn), PresentUnderBoth(t, our, pn, lid);
    var moved := set p | p in rows :: Target(p, pn, lid);
    var shared := set p | p in both :: Target(p, pn, lid);
    RekeyIsMoved(t, our, pn, lid, t');
    RekeyedKeys(t, our, pn, lid);
    KeptAndMoved(t, our, pn, lid);
    ImageSize(rows, pn, lid);
    ImageSize(both, pn, lid);
    Accounting(t.Keys, rows, moved, shared);
  }

  lemma RekeyedKeys(t: Table, our: string, pn: string, lid: string)
    requires ':' !in pn && Apart(pn, lid)
    ensures Moved(t, our, pn, lid).Keys ==
            t.Keys - UserRows(t, our, pn) + set p | p in UserRows(t, our, pn) :: Target(p, pn, lid)
  {
    forall p | p in UserRows(t, our, pn)
      ensures !OfUser(Target(p, pn, lid).id, pn)
    {
      TargetApart(p, pn, lid);
    }
  }

  /** Why the number must not occur again in its addresses: here it does, as the device. */
  lemma DeviceEqualToNumberIsLost()
    ensures Replace("1:1", "1", "2") == "2:2"
    ensures var k := Key("me", "", "1:1");
            !Rekeyed(map[k := "s"], "me", "1", "2", RekeyTable(map[k := "s"], "me", "1", "2", [k]))
  {
    var k := Key("me", "", "1:1");
    var t: Table := map[k := "s"];
    assert ":1"[1..] == "1" && "1"[1..] == "";
    assert Replace("1", "1", "2") == "2" + Replace("", "1", "2");
    assert Replace(":1", "1", "2") == ":" + Replace("1", "1", "2");
    assert "1:1"[1..] == ":1";
    assert Replace("1:1", "1", "2") == "2:2";
    assert [k][..0] == [];
    assert InsertReplaced(t, [k], "1", "2") == InsertReplaced(t, [], "1", "2")[Replaced(k, "1", "2") := "s"];
    assert OfUser(k.id, "1") && k in UserRows(t, "me", "1");
    assert Target(k, "1", "2") == Key("me", "", "2:1");
    assert Target(k, "1", "2") !in RekeyTable(t, "me", "1", "2", [k]);
  }

  /** DeleteIdentity passes its address to the LIKE statement. */
  function DeleteIdentity(t: Table, our: string, address: string): Table {
    map k | k in t && !(k.our == our && Like(address, k.id)) :: t[k]
  }

  ghost predicate DeletesOne(t: Table, our: string, address: string) {
    DeleteIdentity(t, our, address) == map k | k in t && !(k.our == our && k.id == address) :: t[k]
  }

  /** It deletes the one identity it names, in every table, just when that address has no
      wildcard and no letter in it; the underscore of an agent is one. */
  lemma DeleteIdentityExactIff(our: string, address: string)
    ensures (forall t: Table :: DeletesOne(t, our, address)) <==> AllLiteral(address)
  {
    LikeIsEqualityIff(address);
    if AllLiteral(address) {
      forall t: Table
        ensures DeletesOne(t, our, address)
      {
        assert forall k: Key :: k in t ==> MatchesOnlyItself(address, k.id);
      }
    } else {
      var s :| !MatchesOnlyItself(address, s);
      var k := Key(our, "", s);
      var t: Table := map[k := ""];
      assert k in DeleteIdentity(t, our, address) <==> !Like(address, s);
      assert !DeletesOne(t, our, address);
    }
  }
}

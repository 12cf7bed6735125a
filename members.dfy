/**
  Membre.save (membres/models.py): a member whose numero_carte is empty gets the
  next number of its association, "{count+1:04d}{code}", before it is written;
  the write itself is refused when it would repeat a unique field of another row.
*/
module Members {
  import opened Wrappers
  import opened Text
  import opened Entities
  import opened Tables
  import opened Store
  import opened Allocator

  /** The number save gives a member of association a, given the members already
      stored: it reads back as their count plus one, followed by the association code. */
  function AssignedCardNumber(a: Association, stored: seq<Member>): (n: string)
    ensures ParseCardNumber(n) == (CountIn(stored, a.id) + 1, UniqueCode(a, stored))
    ensures EndsWith(n, UniqueCode(a, stored))
    ensures n != ""
  {
    CardNumberRoundTrip(CountIn(stored, a.id), UniqueCode(a, stored));
    CardNumber(CountIn(stored, a.id), UniqueCode(a, stored))
  }

  /** The stored row a would share a unique value with m. */
  predicate Repeats(a: Member, m: Member) {
    || a.numeroCarte == m.numeroCarte
    || a.numeroCin == m.numeroCin
    || (m.user.Some? && a.user == m.user)
  }

  /** Writing m would violate a unique index: another row holds one of its unique values. */
  predicate Clashes(stored: seq<Member>, m: Member) {
    exists i :: 0 <= i < |stored| && stored[i].id != m.id && Repeats(stored[i], m)
  }

  /** The outcome of save: the row as written, or why the write is refused. A missing
      association is reported while building the number (NotFound) and otherwise by the
      foreign key (Conflict); a unique index or a dangling user link gives Conflict. */
  function SaveOutcome(assocs: seq<Association>, stored: seq<Member>, users: seq<User>, m: Member): (r: Result<Member>)
    ensures r.Ok? ==> r.value.numeroCarte != "" && r.value == m.(numeroCarte := r.value.numeroCarte)
    ensures r.Ok? && m.numeroCarte != "" ==> r.value == m
    ensures r.Ok? && m.numeroCarte == "" ==>
      var a := FindAssociation(assocs, m.association);
      a.Some? && r.value.numeroCarte == AssignedCardNumber(a.value, stored)
    ensures r.Ok? ==> !Clashes(stored, r.value) && FindAssociation(assocs, m.association).Some?
    ensures r.Ok? && m.user.Some? ==> FindUser(users, m.user.value).Some?
    ensures r == Err(NotFound) <==> m.numeroCarte == "" && FindAssociation(assocs, m.association).None?
  {
    var a := FindAssociation(assocs, m.association);
    if m.numeroCarte == "" && a.None? then Err(NotFound)
    else
      var x := if m.numeroCarte == "" then m.(numeroCarte := AssignedCardNumber(a.value, stored)) else m;
      if a.None? || Clashes(stored, x) || (x.user.Some? && FindUser(users, x.user.value).None?) then Err(Conflict)
      else Ok(x)
  }

  /** The table after writing row x: the row with the same key is replaced, or x is
      inserted when there is none. */
  function Stored(ms: seq<Member>, x: Member): (r: seq<Member>)
    ensures x in r
    ensures forall y :: y in r && y != x ==> y in ms
    ensures FindMember(ms, x.id).Some? ==> |r| == |ms|
    ensures FindMember(ms, x.id).None? ==> r == ms + [x]
  {
    match FindMember(ms, x.id)
    case Some(k) =>
      var r := ms[k := x];
      assert r[k] == x;
      r
    case None => ms + [x]
  }

  /** Membre.save */
  method Save(db: Db, m: Member) returns (r: Result<Member>)
    requires db.Valid()
    modifies db
    ensures db.Valid()
    ensures r == SaveOutcome(db.associations, old(db.members), db.users, m)
    ensures r.Ok? ==> db.members == Stored(old(db.members), r.value)
    ensures r.Err? ==> db.members == old(db.members)
    ensures db.associations == old(db.associations) && db.cards == old(db.cards)
    ensures db.fonctions == old(db.fonctions) && db.bureau == old(db.bureau)
    ensures db.comite == old(db.comite) && db.mandats == old(db.mandats)
    ensures db.users == old(db.users) && db.nextMandat == old(db.nextMandat) && db.nextUser == old(db.nextUser)
  {
    var x := m;
    var a := FindAssociation(db.associations, m.association);
    if m.numeroCarte == "" {
      if a.None? {
        return Err(NotFound);
      }
      x := m.(numeroCarte := AssignedCardNumber(a.value, db.members));
    }
    if a.None? || Clashes(db.members, x) || (x.user.Some? && FindUser(db.users, x.user.value).None?) {
      return Err(Conflict);
    }
    SaveKeepsConstraints(db.members, db.users, x);
    db.members := Stored(db.members, x);
    r := Ok(x);
  }

  /** Writing a row that clashes with no other row keeps the member constraints and the
      user links. */
  lemma SaveKeepsConstraints(ms: seq<Member>, users: seq<User>, x: Member)
    requires MembersOk(ms) && UserLinksOk(ms, users)
    requires x.numeroCarte != ""
    requires !Clashes(ms, x)
    requires x.user.Some? ==> FindUser(users, x.user.value).Some?
    ensures MembersOk(Stored(ms, x)) && UserLinksOk(Stored(ms, x), users)
  {
    match FindMember(ms, x.id)
    case Some(k) =>
      forall i | 0 <= i < |ms| && i != k ensures DistinctMembers(ms[i], x) && DistinctMembers(x, ms[i]) {
        assert !Repeats(ms[i], x);
        assert ms[i].id != ms[k].id by {
          if i < k { assert DistinctMembers(ms[i], ms[k]); } else { assert DistinctMembers(ms[k], ms[i]); }
        }
      }
      ReplacePairwise(ms, k, x, DistinctMembers);
    case None =>
      forall i | 0 <= i < |ms| ensures DistinctMembers(ms[i], x) {
        assert !Repeats(ms[i], x);
      }
      AppendPairwise(ms, x, DistinctMembers);
  }

  /** Saving a row as it is stored changes nothing: the number is kept, nothing clashes,
      and the table is the same. */
  lemma ResaveIsNoop(assocs: seq<Association>, ms: seq<Member>, users: seq<User>, k: nat)
    requires MembersOk(ms) && UserLinksOk(ms, users)
    requires k < |ms|
    requires FindAssociation(assocs, ms[k].association).Some?
    ensures SaveOutcome(assocs, ms, users, ms[k]) == Ok(ms[k])
    ensures Stored(ms, ms[k]) == ms
  {
    var m := ms[k];
    forall i | 0 <= i < |ms| && ms[i].id != m.id ensures !Repeats(ms[i], m) {
      if i < k { assert DistinctMembers(ms[i], m); } else { assert DistinctMembers(m, ms[i]); }
    }
    var f := FindMember(ms, m.id);
    assert f.Some?;
    assert f.value == k;
    assert ms[k := m] == ms;
  }

  /** A card number is assigned at most once: whatever the store, saving a member that
      already has a number writes it unchanged. */
  lemma NumberAssignedOnce(assocs: seq<Association>, ms: seq<Member>, users: seq<User>, m: Member)
    requires m.numeroCarte != ""
    ensures SaveOutcome(assocs, ms, users, m).Ok? ==> SaveOutcome(assocs, ms, users, m).value.numeroCarte == m.numeroCarte
    ensures SaveOutcome(assocs, ms, users, m).Err? ==> SaveOutcome(assocs, ms, users, m) == Err(Conflict)
  {
  }

  /** Pad4(2) is "0002". */
  lemma PadTwo()
    ensures Pad4(2) == "0002"
  {
    assert DigitChar(2) == '2';
    assert Decimal(2) == "2";
    assert "0" + "2" == "02" && "0" + "02" == "002" && "0" + "002" == "0002";
    assert ZeroPad("0002", 4) == "0002";
    assert ZeroPad("002", 4) == ZeroPad("0002", 4);
    assert ZeroPad("02", 4) == ZeroPad("002", 4);
    assert ZeroPad("2", 4) == ZeroPad("02", 4);
  }

  /** The second member of association AE, alone in the table after the first was
      deleted, holds 0002AE, which is also the number save computes for one more member. */
  lemma SecondNumber()
    ensures AssignedCardNumber(Association(7, "AE"), [Member(2, 7, "Rabe", "Hery", "102", "0002AE", None, None)]) == "0002AE"
  {
    var a := Association(7, "AE");
    var second := Member(2, 7, "Rabe", "Hery", "102", "0002AE", None, None);
    assert Letters("AE") == "AE";
    assert !CodeUsedByOther([second], 7, "AE");
    assert UniqueCode(a, [second]) == "AE";
    assert CountIn([second], 7) == 1;
    PadTwo();
  }

  /** The number is not a sequence: with the first of two members of an association
      deleted, a new member is given the number of the second, and the unique index
      on numero_carte refuses the write. */
  lemma NumberRepeatsAfterDeletion()
    ensures var a := Association(7, "AE");
      var second := Member(2, 7, "Rabe", "Hery", "102", "0002AE", None, None);
      var newcomer := Member(3, 7, "Rasoa", "Lova", "103", "", None, None);
      && AssignedCardNumber(a, [second]) == "0002AE"
      && SaveOutcome([a], [second], [], newcomer) == Err(Conflict)
  {
    var second := Member(2, 7, "Rabe", "Hery", "102", "0002AE", None, None);
    SecondNumber();
    var newcomer := Member(3, 7, "Rasoa", "Lova", "103", "", None, None);
    var x := newcomer.(numeroCarte := "0002AE");
    assert Repeats([second][0], x);
    assert Clashes([second], x);
  }
}

/**
  The bureau of the federation: adding a member to it with a function
  (ajouter_membre_bureau, where a new current President replaces the former
  ones) and deleting a function that nobody currently holds
  (supprimer_fonction_bureau).
*/
module Bureau {
  import opened Wrappers
  import opened Text
  import opened Entities
  import opened Tables
  import opened Store

  // ---------------------------------------------------------------------------
  // ajouter_membre_bureau
  // ---------------------------------------------------------------------------

  /** fonction.nom.lower() == 'président' */
  predicate IsPresident(nom: string) {
    Lower(nom) == "pr\U{00E9}sident"
  }

  /** filter(membre=holder.0, fonction=holder.1, est_actuel=True) */
  predicate BureauCurrentHolder(holder: (nat, nat), r: BureauRow) {
    r.estActuel && r.membre == holder.0 && r.fonction == holder.1
  }

  /** MembreBureauForm.is_valid(): the member and the function must exist, the start
      date is required, and a current row must not repeat a current (member, function)
      pair (the conditional UniqueConstraint, validated with the form). The row is
      saved without a mandate link. */
  function BureauForm(
    members: seq<Member>, fonctions: seq<Fonction>, rows: seq<BureauRow>,
    membre: nat, fonction: nat, dateDebut: Option<Date>, dateFin: Option<Date>, estActuel: bool): (r: Result<BureauRow>)
    ensures r.Ok? <==>
      && (exists i :: 0 <= i < |members| && members[i].id == membre)
      && (exists i :: 0 <= i < |fonctions| && fonctions[i].id == fonction)
      && dateDebut.Some?
      && !(estActuel && exists i :: 0 <= i < |rows| && BureauCurrentHolder((membre, fonction), rows[i]))
    ensures r.Err? ==> r.error == Invalid
    ensures r.Ok? ==> r.value == BureauRow(membre, fonction, dateDebut.value, dateFin, estActuel, None)
  {
    CountPositive(rows, BureauCurrentHolder, (membre, fonction));
    if FindMember(members, membre).None? || FindFonction(fonctions, fonction).None? || dateDebut.None? then
      Err(Invalid)
    else if estActuel && Count(rows, BureauCurrentHolder, (membre, fonction)) > 0 then
      Err(Invalid)
    else
      Ok(BureauRow(membre, fonction, dateDebut.value, dateFin, estActuel, None))
  }

  /** anciens_presidents.update(est_actuel=False): the current rows of the function stop
      being current; nothing else changes, not even date_fin. */
  function DemoteHolders(rows: seq<BureauRow>, f: nat): (r: seq<BureauRow>)
    ensures |r| == |rows|
    ensures forall i :: 0 <= i < |r| ==> !BureauCurrentOfFonction(f, r[i])
    ensures forall i :: 0 <= i < |r| ==> r[i].(estActuel := rows[i].estActuel) == rows[i]
    ensures forall i :: 0 <= i < |r| && !BureauCurrentOfFonction(f, rows[i]) ==> r[i] == rows[i]
  {
    seq(|rows|, i requires 0 <= i < |rows| =>
      if BureauCurrentOfFonction(f, rows[i]) then rows[i].(estActuel := false) else rows[i])
  }

  /** The bureau table after a valid form: a current President row first replaces the
      current holders of that function; any other row is simply added. */
  function BureauAfterAdd(rows: seq<BureauRow>, row: BureauRow, fonctionNom: string): seq<BureauRow> {
    if row.estActuel && IsPresident(fonctionNom) then DemoteHolders(rows, row.fonction) + [row]
    else rows + [row]
  }

  /** After a current President is added, that member is the one current holder of the
      function. */
  lemma {:induction false} PresidentSingleHolder(rows: seq<BureauRow>, row: BureauRow, fonctionNom: string)
    requires row.estActuel && IsPresident(fonctionNom)
    ensures var after := BureauAfterAdd(rows, row, fonctionNom);
      && Count(after, BureauCurrentOfFonction, row.fonction) == 1
      && forall i :: 0 <= i < |after| && BureauCurrentOfFonction(row.fonction, after[i]) ==> after[i] == row
  {
    var d := DemoteHolders(rows, row.fonction);
    CountPositive(d, BureauCurrentOfFonction, row.fonction);
    CountSnoc(d, row, BureauCurrentOfFonction, row.fonction);
  }

  /** Adding a row for any other function, or a row that is not current, demotes
      nobody: the former rows stay as they were. */
  lemma OthersDemoteNobody(rows: seq<BureauRow>, row: BureauRow, fonctionNom: string)
    requires !row.estActuel || !IsPresident(fonctionNom)
    ensures BureauAfterAdd(rows, row, fonctionNom)[..|rows|] == rows
    ensures Count(BureauAfterAdd(rows, row, fonctionNom), BureauCurrentOfFonction, row.fonction)
      == Count(rows, BureauCurrentOfFonction, row.fonction) + (if row.estActuel then 1 else 0)
  {
    CountSnoc(rows, row, BureauCurrentOfFonction, row.fonction);
  }

  /** The table after an add satisfies the constraints when the form was valid. */
  lemma AddKeepsConstraints(rows: seq<BureauRow>, ms: seq<Mandat>, row: BureauRow, fonctionNom: string)
    requires UniqueCurrentHolder(rows) && BureauLinksOk(rows, ms)
    requires row.mandat.None?
    requires row.estActuel ==> forall i :: 0 <= i < |rows| ==> !BureauCurrentHolder((row.membre, row.fonction), rows[i])
    ensures UniqueCurrentHolder(BureauAfterAdd(rows, row, fonctionNom))
    ensures BureauLinksOk(BureauAfterAdd(rows, row, fonctionNom), ms)
  {
    var base := if row.estActuel && IsPresident(fonctionNom) then DemoteHolders(rows, row.fonction) else rows;
    assert Pairwise(base, NotSameCurrentHolder) by {
      forall i, j | 0 <= i < j < |base| ensures NotSameCurrentHolder(base[i], base[j]) {
        assert NotSameCurrentHolder(rows[i], rows[j]);
      }
    }
    forall i | 0 <= i < |base| ensures NotSameCurrentHolder(base[i], row) {
      if row.estActuel {
        assert !BureauCurrentHolder((row.membre, row.fonction), rows[i]);
      }
    }
    AppendPairwise(base, row, NotSameCurrentHolder);
    assert BureauAfterAdd(rows, row, fonctionNom) == base + [row];
  }

  /** ajouter_membre_bureau: an invalid form changes nothing; otherwise a current
      President row first demotes the current holders of the function, then the row is
      saved. Returns whether a former President was replaced. */
  method AjouterMembreBureau(
    db: Db, membre: nat, fonction: nat, dateDebut: Option<Date>, dateFin: Option<Date>, estActuel: bool)
    returns (r: Result<bool>)
    requires db.Valid()
    modifies db
    ensures db.Valid()
    ensures r.Err? <==> BureauForm(old(db.members), old(db.fonctions), old(db.bureau), membre, fonction, dateDebut, dateFin, estActuel).Err?
    ensures r.Err? ==> r.error == Invalid && db.bureau == old(db.bureau)
    ensures r.Ok? ==>
      var row := BureauForm(old(db.members), old(db.fonctions), old(db.bureau), membre, fonction, dateDebut, dateFin, estActuel).value;
      var nom := old(db.fonctions)[FindFonction(old(db.fonctions), fonction).value].nom;
      && db.bureau == BureauAfterAdd(old(db.bureau), row, nom)
      && r.value == (estActuel && IsPresident(nom) && Count(old(db.bureau), BureauCurrentOfFonction, fonction) > 0)
    ensures db.associations == old(db.associations) && db.members == old(db.members) && db.cards == old(db.cards)
    ensures db.fonctions == old(db.fonctions) && db.comite == old(db.comite) && db.mandats == old(db.mandats)
    ensures db.users == old(db.users) && db.nextMandat == old(db.nextMandat) && db.nextUser == old(db.nextUser)
  {
    var form := BureauForm(db.members, db.fonctions, db.bureau, membre, fonction, dateDebut, dateFin, estActuel);
    if form.Err? {
      return Err(Invalid);
    }
    var row := form.value;
    var nom := db.fonctions[FindFonction(db.fonctions, fonction).value].nom;
    var replaced := false;
    var rows := db.bureau;
    if estActuel && IsPresident(nom) {
      CountPositive(rows, BureauCurrentOfFonction, fonction);
      if Count(rows, BureauCurrentOfFonction, fonction) > 0 {
        rows := DemoteHolders(rows, fonction);
        replaced := true;
      } else {
        // Nobody holds the function: demoting would touch no row.
        forall i | 0 <= i < |rows| ensures DemoteHolders(rows, fonction)[i] == rows[i] {
          assert rows[i] in rows;
        }
        assert DemoteHolders(rows, fonction) == rows;
      }
    }
    AddKeepsConstraints(db.bureau, db.mandats, row, nom);
    db.bureau := rows + [row];
    r := Ok(replaced);
  }

  // ---------------------------------------------------------------------------
  // supprimer_fonction_bureau
  // ---------------------------------------------------------------------------

  /** Deleting rows of the bureau keeps the mandate links of the others valid. */
  lemma SelectBureauLinks<C>(rows: seq<BureauRow>, ms: seq<Mandat>, cond: (C, BureauRow) -> bool, c: C, want: bool)
    requires BureauLinksOk(rows, ms)
    ensures BureauLinksOk(Select(rows, cond, c, want), ms)
  {
    var r := Select(rows, cond, c, want);
    SelectIn(rows, cond, c, want);
    forall i | 0 <= i < |r| && r[i].mandat.Some?
      ensures !r[i].estActuel && IsArchivedMandat(ms, r[i].mandat.value)
    {
      assert r[i] in rows;
    }
  }

  /** What the deletion of a function leaves, stated on the tables alone. */
  lemma DeleteFonctionOutcome(fs: seq<Fonction>, rows: seq<BureauRow>, ms: seq<Mandat>, id: nat)
    requires Pairwise(fs, DistinctFonctions) && UniqueCurrentHolder(rows) && BureauLinksOk(rows, ms)
    ensures var fs2 := Select(fs, FonctionHasId, id, false);
      var rows2 := Select(rows, BureauOfFonction, id, false);
      && Pairwise(fs2, DistinctFonctions) && UniqueCurrentHolder(rows2) && BureauLinksOk(rows2, ms)
      && (forall f :: f in fs2 <==> f in fs && f.id != id)
      && (forall x :: x in rows2 <==> x in rows && x.fonction != id)
  {
    SelectPairwise(fs, FonctionHasId, id, false, DistinctFonctions);
    SelectPairwise(rows, BureauOfFonction, id, false, NotSameCurrentHolder);
    SelectBureauLinks(rows, ms, BureauOfFonction, id, false);
    SelectIn(fs, FonctionHasId, id, false);
    SelectIn(rows, BureauOfFonction, id, false);
  }

  /** supprimer_fonction_bureau (the confirmed POST): an unknown function is a 404, a
      function with current holders is refused; otherwise the function is deleted with
      its archived bureau rows (on_delete=CASCADE). */
  method SupprimerFonctionBureau(db: Db, id: nat) returns (r: Result<()>)
    requires db.Valid()
    modifies db
    ensures db.Valid()
    ensures r == Err(NotFound) <==> forall f :: f in old(db.fonctions) ==> f.id != id
    ensures r == Err(InUse) <==>
      (exists f :: f in old(db.fonctions) && f.id == id)
      && exists x :: x in old(db.bureau) && BureauCurrentOfFonction(id, x)
    ensures r.Err? ==> r.error == NotFound || r.error == InUse
    ensures r.Err? ==> db.fonctions == old(db.fonctions) && db.bureau == old(db.bureau)
    ensures r.Ok? ==>
      && (forall f :: f in db.fonctions <==> f in old(db.fonctions) && f.id != id)
      && (forall x :: x in db.bureau <==> x in old(db.bureau) && x.fonction != id)
      && db.fonctions == Select(old(db.fonctions), FonctionHasId, id, false)
      && db.bureau == Select(old(db.bureau), BureauOfFonction, id, false)
    ensures db.associations == old(db.associations) && db.members == old(db.members) && db.cards == old(db.cards)
    ensures db.comite == old(db.comite) && db.mandats == old(db.mandats)
    ensures db.users == old(db.users) && db.nextMandat == old(db.nextMandat) && db.nextUser == old(db.nextUser)
  {
    var k := FindFonction(db.fonctions, id);
    if k.None? {
      return Err(NotFound);
    }
    assert db.fonctions[k.value] in db.fonctions;
    CountPositive(db.bureau, BureauCurrentOfFonction, id);
    if Count(db.bureau, BureauCurrentOfFonction, id) > 0 {
      return Err(InUse);
    }
    var fonctions := Select(db.fonctions, FonctionHasId, id, false);
    var bureau := Select(db.bureau, BureauOfFonction, id, false);
    DeleteFonctionOutcome(db.fonctions, db.bureau, db.mandats, id);
    db.fonctions, db.bureau := fonctions, bureau;
    r := Ok(());
  }
}

/**
  The mandate lifecycle of membres/views.py and Mandat.terminer_mandat
  (membres/models.py): ending a mandate with or without a successor, creating a
  mandate, and purging the archived ones. Every operation keeps the database
  constraints: at most one current mandate, at most one current row per
  (member, function), and links from archived rows to archived mandates only.
*/
module Mandates {
  import opened Wrappers
  import opened Text
  import opened Entities
  import opened Tables
  import opened Store

  // ---------------------------------------------------------------------------
  // Bulk updates
  // ---------------------------------------------------------------------------

  /** MembreBureau.objects.filter(est_actuel=True).update(est_actuel=False, date_fin=today):
      no row is current afterwards, the rows that were get today as end date, and
      nothing else changes, the mandate link included. */
  function CloseBureau(rows: seq<BureauRow>, today: Date): (r: seq<BureauRow>)
    ensures |r| == |rows|
    ensures forall i :: 0 <= i < |r| ==> !r[i].estActuel
    ensures forall i :: 0 <= i < |r| ==> r[i].(estActuel := rows[i].estActuel, dateFin := rows[i].dateFin) == rows[i]
    ensures forall i :: 0 <= i < |r| && rows[i].estActuel ==> r[i].dateFin == Some(today)
    ensures forall i :: 0 <= i < |r| && !rows[i].estActuel ==> r[i] == rows[i]
  {
    seq(|rows|, i requires 0 <= i < |rows| =>
      if rows[i].estActuel then rows[i].(estActuel := false, dateFin := Some(today)) else rows[i])
  }

  /** One bureau row after the transition loop of terminer_mandat_bureau. */
  function BureauArchivedUnder(r: BureauRow, today: Date, mid: nat): BureauRow {
    if r.estActuel then r.(estActuel := false, dateFin := Some(today), mandat := Some(mid)) else r
  }

  /** One committee row after the transition loop of terminer_mandat_bureau. */
  function ComiteArchivedUnder(r: ComiteRow, today: Date, mid: nat): ComiteRow {
    if r.estActif then r.(estActif := false, dateFin := Some(today), mandat := Some(mid)) else r
  }

  /** The bureau after the transition: every current row is archived with today as end
      date and linked to the ended mandate; archived rows are untouched. */
  function ArchiveBureau(rows: seq<BureauRow>, today: Date, mid: nat): (r: seq<BureauRow>)
    ensures |r| == |rows|
    ensures forall i :: 0 <= i < |r| ==> !r[i].estActuel
    ensures forall i :: 0 <= i < |r| ==>
      r[i].(estActuel := rows[i].estActuel, dateFin := rows[i].dateFin, mandat := rows[i].mandat) == rows[i]
    ensures forall i :: 0 <= i < |r| && rows[i].estActuel ==> r[i].dateFin == Some(today) && r[i].mandat == Some(mid)
    ensures forall i :: 0 <= i < |r| && !rows[i].estActuel ==> r[i] == rows[i]
  {
    seq(|rows|, i requires 0 <= i < |rows| => BureauArchivedUnder(rows[i], today, mid))
  }

  /** The committee after the transition, in the same way. */
  function ArchiveComite(rows: seq<ComiteRow>, today: Date, mid: nat): (r: seq<ComiteRow>)
    ensures |r| == |rows|
    ensures forall i :: 0 <= i < |r| ==> !r[i].estActif
    ensures forall i :: 0 <= i < |r| ==>
      r[i].(estActif := rows[i].estActif, dateFin := rows[i].dateFin, mandat := rows[i].mandat) == rows[i]
    ensures forall i :: 0 <= i < |r| && rows[i].estActif ==> r[i].dateFin == Some(today) && r[i].mandat == Some(mid)
    ensures forall i :: 0 <= i < |r| && !rows[i].estActif ==> r[i] == rows[i]
  {
    seq(|rows|, i requires 0 <= i < |rows| => ComiteArchivedUnder(rows[i], today, mid))
  }

  /** Mandat.objects.all().update(est_actuel=False): no mandate is current afterwards and
      nothing else changes. */
  function DemoteAll(ms: seq<Mandat>): (r: seq<Mandat>)
    ensures |r| == |ms|
    ensures forall i :: 0 <= i < |r| ==> !r[i].estActuel && r[i].(estActuel := ms[i].estActuel) == ms[i]
  {
    seq(|ms|, i requires 0 <= i < |ms| => ms[i].(estActuel := false))
  }

  // ---------------------------------------------------------------------------
  // The successor mandate
  // ---------------------------------------------------------------------------

  /** f"{y + 1}-{y + 2}" */
  function SuccessorName(y: nat): string {
    Decimal(y + 1) + "-" + Decimal(y + 2)
  }

  /** A year after a Python date has at most five digits, well within what int() reads. */
  lemma YearDigits(n: nat)
    requires n <= 10001
    ensures |Decimal(n)| <= 5 <= MaxStrDigits
  {
    DecimalLength(n, 4);
    assert Pow10(5) == 100000;
  }

  /** The name of the successor reads back as the two years that follow the end date
      (a year of a Python date is at most 9999). */
  lemma SuccessorNameReadsBack(y: nat)
    requires y <= 9999
    ensures Split(SuccessorName(y), '-') == [Decimal(y + 1), Decimal(y + 2)]
    ensures ParseInt(Split(SuccessorName(y), '-')[0]) == Some(y + 1)
    ensures ParseInt(Split(SuccessorName(y), '-')[1]) == Some(y + 2)
  {
    DecimalRoundTrip(y + 1);
    DecimalRoundTrip(y + 2);
    assert '-' !in Decimal(y + 1);
    assert '-' !in Decimal(y + 2);
    SplitAtSep(Decimal(y + 1), Decimal(y + 2), '-');
    SplitNoSep(Decimal(y + 2), '-');
    YearDigits(y + 1);
    YearDigits(y + 2);
    ParseDecimal(y + 1);
    ParseDecimal(y + 2);
  }

  /** f"Mandat automatiquement créé après la fin du mandat {nom}" */
  function SuccessorDescription(nom: string): string {
    "Mandat automatiquement cr\U{00E9}\U{00E9} apr\U{00E8}s la fin du mandat " + nom
  }

  /** Mandat.objects.create(...) at the end of terminer_mandat_bureau. */
  function Successor(id: nat, ended: Mandat, today: Date): Mandat {
    Mandat(id, SuccessorName(today.year), today, None, true, SuccessorDescription(ended.nom))
  }

  // ---------------------------------------------------------------------------
  // Facts about the mandate table
  // ---------------------------------------------------------------------------

  /** With the constraint in place, a current mandate is the only one. */
  lemma OnlyCurrent(ms: seq<Mandat>, k: nat)
    requires Pairwise(ms, DistinctMandats)
    requires k < |ms| && ms[k].estActuel
    ensures forall j :: 0 <= j < |ms| && j != k ==> !ms[j].estActuel
  {
    forall j | 0 <= j < |ms| && j != k ensures !ms[j].estActuel {
      if j < k { assert DistinctMandats(ms[j], ms[k]); } else { assert DistinctMandats(ms[k], ms[j]); }
    }
  }

  /** Appending a current mandate to a table with none makes exactly one current. */
  lemma AppendCurrentMakesOne(ms: seq<Mandat>, x: Mandat)
    requires forall i :: 0 <= i < |ms| ==> !ms[i].estActuel
    requires x.estActuel
    ensures Count(ms + [x], MandatActuel, true) == 1
  {
    CountPositive(ms, MandatActuel, true);
    CountSnoc(ms, x, MandatActuel, true);
  }

  /** Archived mandates keep their place and their contents. */
  predicate KeepsArchived(ms: seq<Mandat>, ms2: seq<Mandat>) {
    |ms| <= |ms2| && forall k :: 0 <= k < |ms| && !ms[k].estActuel ==> ms2[k] == ms[k]
  }

  /** Links to archived mandates stay valid when archived mandates are kept. */
  lemma LinksSurvive(brows: seq<BureauRow>, crows: seq<ComiteRow>, ms: seq<Mandat>, ms2: seq<Mandat>)
    requires KeepsArchived(ms, ms2)
    requires BureauLinksOk(brows, ms) && ComiteLinksOk(crows, ms)
    ensures BureauLinksOk(brows, ms2) && ComiteLinksOk(crows, ms2)
  {
    forall i | 0 <= i < |brows| && brows[i].mandat.Some? ensures IsArchivedMandat(ms2, brows[i].mandat.value) {
      ArchivedStays(ms, ms2, brows[i].mandat.value);
    }
    forall i | 0 <= i < |crows| && crows[i].mandat.Some? ensures IsArchivedMandat(ms2, crows[i].mandat.value) {
      ArchivedStays(ms, ms2, crows[i].mandat.value);
    }
  }

  /** Ending the current mandate k keeps the mandate constraints and the archived mandates. */
  lemma EndKeepsMandates(ms: seq<Mandat>, next: nat, k: nat, ended: Mandat)
    requires MandatesOk(ms, next)
    requires k < |ms| && ms[k].estActuel
    requires ended.id == ms[k].id && !ended.estActuel
    ensures MandatesOk(ms[k := ended], next)
    ensures KeepsArchived(ms, ms[k := ended])
    ensures forall j :: 0 <= j < |ms| && j != k ==> !ms[j].estActuel
  {
    OnlyCurrent(ms, k);
    forall i | 0 <= i < k ensures DistinctMandats(ms[i], ended) {
      assert DistinctMandats(ms[i], ms[k]);
    }
    forall j | k < j < |ms| ensures DistinctMandats(ended, ms[j]) {
      assert DistinctMandats(ms[k], ms[j]);
    }
    ReplacePairwise(ms, k, ended, DistinctMandats);
  }

  /** Appending a current mandate with a fresh key to a table with none current keeps
      the constraints, and the archived mandates. */
  lemma AppendKeepsMandates(ms: seq<Mandat>, next: nat, x: Mandat)
    requires MandatesOk(ms, next)
    requires forall i :: 0 <= i < |ms| ==> !ms[i].estActuel
    requires x.id == next
    ensures MandatesOk(ms + [x], next + 1)
    ensures KeepsArchived(ms, ms + [x])
  {
    AppendPairwise(ms, x, DistinctMandats);
  }

  // ---------------------------------------------------------------------------
  // Mandat.terminer_mandat and the view terminer_mandat
  // ---------------------------------------------------------------------------

  /** Mandat.terminer_mandat on the stored mandate at position k: nothing happens unless
      it is current; then every current bureau row is archived with today as end date,
      without a mandate link, and the mandate stops being current. Its date_fin is not set. */
  method TerminerMandat(db: Db, k: nat, today: Date)
    requires db.Valid()
    requires k < |db.mandats|
    modifies db
    ensures db.Valid()
    ensures old(db.mandats[k].estActuel) ==>
      && db.bureau == CloseBureau(old(db.bureau), today)
      && db.mandats == old(db.mandats)[k := old(db.mandats[k]).(estActuel := false)]
    ensures !old(db.mandats[k].estActuel) ==> db.bureau == old(db.bureau) && db.mandats == old(db.mandats)
    ensures db.associations == old(db.associations) && db.members == old(db.members) && db.cards == old(db.cards)
    ensures db.fonctions == old(db.fonctions) && db.comite == old(db.comite) && db.users == old(db.users)
    ensures db.nextMandat == old(db.nextMandat) && db.nextUser == old(db.nextUser)
  {
    if db.mandats[k].estActuel {
      var ended := db.mandats[k].(estActuel := false);
      EndKeepsMandates(db.mandats, db.nextMandat, k, ended);
      LinksSurvive(db.bureau, db.comite, db.mandats, db.mandats[k := ended]);
      CloseKeepsBureau(db.bureau, db.mandats[k := ended], today);
      db.bureau := CloseBureau(db.bureau, today);
      db.mandats := db.mandats[k := ended];
    }
  }

  /** Closing the bureau keeps its constraints: no row is current, and the links were
      already on archived rows only. */
  lemma CloseKeepsBureau(rows: seq<BureauRow>, ms: seq<Mandat>, today: Date)
    requires BureauLinksOk(rows, ms)
    ensures UniqueCurrentHolder(CloseBureau(rows, today)) && BureauLinksOk(CloseBureau(rows, today), ms)
    ensures Count(CloseBureau(rows, today), BureauActuel, true) == 0
  {
    CountPositive(CloseBureau(rows, today), BureauActuel, true);
  }

  /** The view terminer_mandat: the current mandate, if there is one, is ended as
      Mandat.terminer_mandat does; without one nothing changes. Returns its key. */
  method TerminerMandatView(db: Db, today: Date) returns (r: Result<nat>)
    requires db.Valid()
    modifies db
    ensures db.Valid()
    ensures CurrentMandat(old(db.mandats)).None? <==> r == Err(NotFound)
    ensures r.Err? ==> r.error == NotFound
    ensures r.Err? ==> db.bureau == old(db.bureau) && db.mandats == old(db.mandats)
    ensures r.Ok? ==>
      var k := CurrentMandat(old(db.mandats)).value;
      && r.value == old(db.mandats[k].id)
      && db.bureau == CloseBureau(old(db.bureau), today)
      && db.mandats == old(db.mandats)[k := old(db.mandats[k]).(estActuel := false)]
    ensures db.associations == old(db.associations) && db.members == old(db.members) && db.cards == old(db.cards)
    ensures db.fonctions == old(db.fonctions) && db.comite == old(db.comite) && db.users == old(db.users)
    ensures db.nextMandat == old(db.nextMandat) && db.nextUser == old(db.nextUser)
  {
    var c := CurrentMandat(db.mandats);
    if c.None? {
      return Err(NotFound);
    }
    r := Ok(db.mandats[c.value].id);
    TerminerMandat(db, c.value, today);
  }

  // ---------------------------------------------------------------------------
  // terminer_mandat_bureau
  // ---------------------------------------------------------------------------

  /** The bureau loop of terminer_mandat_bureau: each current row in turn is archived
      under the ended mandate, and counted. */
  method ArchiveBureauRows(db: Db, today: Date, mid: nat) returns (nb: nat)
    modifies db
    ensures db.bureau == ArchiveBureau(old(db.bureau), today, mid)
    ensures nb == Count(old(db.bureau), BureauActuel, true)
    ensures db.associations == old(db.associations) && db.members == old(db.members) && db.cards == old(db.cards)
    ensures db.fonctions == old(db.fonctions) && db.comite == old(db.comite) && db.mandats == old(db.mandats)
    ensures db.users == old(db.users) && db.nextMandat == old(db.nextMandat) && db.nextUser == old(db.nextUser)
  {
    var rows0 := db.bureau;
    nb := 0;
    var i := 0;
    while i < |db.bureau|
      invariant 0 <= i <= |rows0| && |db.bureau| == |rows0|
      invariant forall j :: 0 <= j < i ==> db.bureau[j] == BureauArchivedUnder(rows0[j], today, mid)
      invariant forall j :: i <= j < |rows0| ==> db.bureau[j] == rows0[j]
      invariant nb == Count(rows0[..i], BureauActuel, true)
      invariant db.associations == old(db.associations) && db.members == old(db.members) && db.cards == old(db.cards)
      invariant db.fonctions == old(db.fonctions) && db.comite == old(db.comite) && db.mandats == old(db.mandats)
      invariant db.users == old(db.users) && db.nextMandat == old(db.nextMandat) && db.nextUser == old(db.nextUser)
    {
      assert rows0[..i + 1] == rows0[..i] + [rows0[i]];
      CountSnoc(rows0[..i], rows0[i], BureauActuel, true);
      if db.bureau[i].estActuel {
        db.bureau := db.bureau[i := db.bureau[i].(estActuel := false, dateFin := Some(today), mandat := Some(mid))];
        nb := nb + 1;
      }
      i := i + 1;
    }
    assert rows0[..i] == rows0;
  }

  /** The committee loop of terminer_mandat_bureau, in the same way. */
  method ArchiveComiteRows(db: Db, today: Date, mid: nat) returns (nb: nat)
    modifies db
    ensures db.comite == ArchiveComite(old(db.comite), today, mid)
    ensures nb == Count(old(db.comite), ComiteActif, true)
    ensures db.associations == old(db.associations) && db.members == old(db.members) && db.cards == old(db.cards)
    ensures db.fonctions == old(db.fonctions) && db.bureau == old(db.bureau) && db.mandats == old(db.mandats)
    ensures db.users == old(db.users) && db.nextMandat == old(db.nextMandat) && db.nextUser == old(db.nextUser)
  {
    var rows0 := db.comite;
    nb := 0;
    var i := 0;
    while i < |db.comite|
      invariant 0 <= i <= |rows0| && |db.comite| == |rows0|
      invariant forall j :: 0 <= j < i ==> db.comite[j] == ComiteArchivedUnder(rows0[j], today, mid)
      invariant forall j :: i <= j < |rows0| ==> db.comite[j] == rows0[j]
      invariant nb == Count(rows0[..i], ComiteActif, true)
      invariant db.associations == old(db.associations) && db.members == old(db.members) && db.cards == old(db.cards)
      invariant db.fonctions == old(db.fonctions) && db.bureau == old(db.bureau) && db.mandats == old(db.mandats)
      invariant db.users == old(db.users) && db.nextMandat == old(db.nextMandat) && db.nextUser == old(db.nextUser)
    {
      assert rows0[..i + 1] == rows0[..i] + [rows0[i]];
      CountSnoc(rows0[..i], rows0[i], ComiteActif, true);
      if db.comite[i].estActif {
        db.comite := db.comite[i := db.comite[i].(estActif := false, dateFin := Some(today), mandat := Some(mid))];
        nb := nb + 1;
      }
      i := i + 1;
    }
    assert rows0[..i] == rows0;
  }

  /** The mandate table after the transition. */
  function AfterTransition(ms: seq<Mandat>, k: nat, today: Date, next: nat): seq<Mandat>
    requires k < |ms|
  {
    var ended := ms[k].(estActuel := false, dateFin := Some(today));
    ms[k := ended] + [Successor(next, ended, today)]
  }

  /** The transition keeps every constraint, and leaves exactly one mandate current. */
  lemma TransitionKeepsConstraints(
    ms: seq<Mandat>, next: nat, k: nat, brows: seq<BureauRow>, crows: seq<ComiteRow>, today: Date)
    requires MandatesOk(ms, next) && BureauLinksOk(brows, ms) && ComiteLinksOk(crows, ms)
    requires k < |ms| && ms[k].estActuel
    ensures var ms2 := AfterTransition(ms, k, today, next);
      && MandatesOk(ms2, next + 1)
      && Count(ms2, MandatActuel, true) == 1
      && UniqueCurrentHolder(ArchiveBureau(brows, today, ms[k].id))
      && BureauLinksOk(ArchiveBureau(brows, today, ms[k].id), ms2)
      && ComiteLinksOk(ArchiveComite(crows, today, ms[k].id), ms2)
  {
    var ended := ms[k].(estActuel := false, dateFin := Some(today));
    var succ := Successor(next, ended, today);
    EndKeepsMandates(ms, next, k, ended);
    AppendKeepsMandates(ms[k := ended], next, succ);
    AppendCurrentMakesOne(ms[k := ended], succ);
    ArchiveKeepsLinks(brows, crows, ms, k, ended, ms[k := ended] + [succ], today);
  }

  /** terminer_mandat_bureau: the current mandate is ended today, every current bureau
      row and every active committee row is archived under it (one row at a time,
      counting), and a successor named after the next two years becomes the current
      mandate. Returns the two counts; without a current mandate nothing changes. */
  method TerminerMandatBureau(db: Db, today: Date) returns (r: Result<(nat, nat)>)
    requires db.Valid()
    modifies db
    ensures db.Valid()
    ensures CurrentMandat(old(db.mandats)).None? <==> r == Err(NotFound)
    ensures r.Err? ==> r.error == NotFound
    ensures r.Err? ==>
      && db.bureau == old(db.bureau) && db.comite == old(db.comite)
      && db.mandats == old(db.mandats) && db.nextMandat == old(db.nextMandat)
    ensures r.Ok? ==>
      var k := CurrentMandat(old(db.mandats)).value;
      && r.value == (Count(old(db.bureau), BureauActuel, true), Count(old(db.comite), ComiteActif, true))
      && db.bureau == ArchiveBureau(old(db.bureau), today, old(db.mandats[k].id))
      && db.comite == ArchiveComite(old(db.comite), today, old(db.mandats[k].id))
      && db.mandats == AfterTransition(old(db.mandats), k, today, old(db.nextMandat))
      && db.nextMandat == old(db.nextMandat) + 1
      && Count(db.mandats, MandatActuel, true) == 1
    ensures db.associations == old(db.associations) && db.members == old(db.members) && db.cards == old(db.cards)
    ensures db.fonctions == old(db.fonctions) && db.users == old(db.users) && db.nextUser == old(db.nextUser)
  {
    var c := CurrentMandat(db.mandats);
    if c.None? {
      return Err(NotFound);
    }
    var k := c.value;
    TransitionKeepsConstraints(db.mandats, db.nextMandat, k, db.bureau, db.comite, today);
    var after := AfterTransition(db.mandats, k, today, db.nextMandat);

    // 1. End the current mandate (motif_fin is assigned to the instance but is not a field).
    var ended := db.mandats[k].(estActuel := false, dateFin := Some(today));
    db.mandats := db.mandats[k := ended];
    // 2. and 3. Archive the bureau and the committee of elders.
    var nbBureau := ArchiveBureauRows(db, today, ended.id);
    var nbDoyen := ArchiveComiteRows(db, today, ended.id);
    // 4. Create the successor.
    db.mandats := db.mandats + [Successor(db.nextMandat, ended, today)];
    db.nextMandat := db.nextMandat + 1;
    assert db.mandats == after;
    r := Ok((nbBureau, nbDoyen));
  }

  /** After the transition the rows still satisfy the constraints: none is current, and
      each link names an archived mandate, the newly ended one for the rows archived now. */
  lemma ArchiveKeepsLinks(brows: seq<BureauRow>, crows: seq<ComiteRow>, ms: seq<Mandat>, k: nat, ended: Mandat, ms2: seq<Mandat>, today: Date)
    requires BureauLinksOk(brows, ms) && ComiteLinksOk(crows, ms)
    requires k < |ms| && ms[k].estActuel
    requires ended.id == ms[k].id && !ended.estActuel
    requires |ms2| > k && ms2[k] == ended
    requires KeepsArchived(ms, ms2)
    ensures UniqueCurrentHolder(ArchiveBureau(brows, today, ended.id))
    ensures BureauLinksOk(ArchiveBureau(brows, today, ended.id), ms2)
    ensures ComiteLinksOk(ArchiveComite(crows, today, ended.id), ms2)
  {
    LinksSurvive(brows, crows, ms, ms2);
    assert IsArchivedMandat(ms2, ended.id);
  }

  // ---------------------------------------------------------------------------
  // creer_mandat
  // ---------------------------------------------------------------------------

  /** The cleaned data of CreerMandatForm: the text fields are stripped, the name is
      required and at most 100 characters long, the start date is required (None when
      it is missing or unreadable), the description may be blank, and neither text
      field may hold a NUL character (the validator every form CharField carries). */
  function CleanMandatForm(nom: string, dateDebut: Option<Date>, description: string): (r: Option<(string, Date, string)>)
    ensures r.Some? <==>
      && Strip(nom) != "" && |Strip(nom)| <= 100 && dateDebut.Some?
      && '\0' !in Strip(nom) && '\0' !in Strip(description)
    ensures r.Some? ==> r.value == (Strip(nom), dateDebut.value, Strip(description))
  {
    var n := Strip(nom);
    var d := Strip(description);
    if n == "" || |n| > 100 || dateDebut.None? || '\0' in n || '\0' in d then None
    else Some((n, dateDebut.value, d))
  }

  /** creer_mandat: when the form is valid, every mandate stops being current and the new
      one is inserted as the current mandate, without an end date; returns its key. */
  method CreerMandat(db: Db, nom: string, dateDebut: Option<Date>, description: string) returns (r: Result<nat>)
    requires db.Valid()
    modifies db
    ensures db.Valid()
    ensures CleanMandatForm(nom, dateDebut, description).None? <==> r == Err(Invalid)
    ensures r.Err? ==> r.error == Invalid
    ensures r.Err? ==> db.mandats == old(db.mandats) && db.nextMandat == old(db.nextMandat)
    ensures r.Ok? ==>
      var f := CleanMandatForm(nom, dateDebut, description).value;
      && r.value == old(db.nextMandat)
      && db.mandats == DemoteAll(old(db.mandats)) + [Mandat(old(db.nextMandat), f.0, f.1, None, true, f.2)]
      && db.nextMandat == old(db.nextMandat) + 1
      && Count(db.mandats, MandatActuel, true) == 1
    ensures db.associations == old(db.associations) && db.members == old(db.members) && db.cards == old(db.cards)
    ensures db.fonctions == old(db.fonctions) && db.bureau == old(db.bureau) && db.comite == old(db.comite)
    ensures db.users == old(db.users) && db.nextUser == old(db.nextUser)
  {
    var form := CleanMandatForm(nom, dateDebut, description);
    if form.None? {
      return Err(Invalid);
    }
    var f := form.value;
    var demoted := DemoteAll(db.mandats);
    var x := Mandat(db.nextMandat, f.0, f.1, None, true, f.2);
    DemoteKeepsMandates(db.mandats, db.nextMandat);
    AppendKeepsMandates(demoted, db.nextMandat, x);
    AppendCurrentMakesOne(demoted, x);
    LinksSurvive(db.bureau, db.comite, db.mandats, demoted + [x]);
    db.mandats := demoted + [x];
    r := Ok(db.nextMandat);
    db.nextMandat := db.nextMandat + 1;
  }

  /** Demoting every mandate keeps the keys distinct and the archived mandates in place. */
  lemma DemoteKeepsMandates(ms: seq<Mandat>, next: nat)
    requires MandatesOk(ms, next)
    ensures MandatesOk(DemoteAll(ms), next)
    ensures forall k :: 0 <= k < |ms| && !ms[k].estActuel ==> DemoteAll(ms)[k] == ms[k]
  {
    var d := DemoteAll(ms);
    forall i, j | 0 <= i < j < |d| ensures DistinctMandats(d[i], d[j]) {
      assert DistinctMandats(ms[i], ms[j]);
    }
  }

  /** Creating a mandate never fails on the constraint: whatever was current before,
      exactly one mandate is current afterwards. */
  lemma CreateLeavesOneCurrent(ms: seq<Mandat>, x: Mandat)
    requires x.estActuel
    ensures Count(DemoteAll(ms) + [x], MandatActuel, true) == 1
  {
    AppendCurrentMakesOne(DemoteAll(ms), x);
  }

  // ---------------------------------------------------------------------------
  // vider_historique
  // ---------------------------------------------------------------------------

  /** The bureau after the two deletions of vider_historique. */
  function PurgeBureau(rows: seq<BureauRow>, ids: set<nat>): seq<BureauRow> {
    Select(Select(rows, BureauLinkedIn, ids, false), BureauArchivedWithLink, None, false)
  }

  /** The committee after the two deletions of vider_historique. */
  function PurgeComite(rows: seq<ComiteRow>, ids: set<nat>): seq<ComiteRow> {
    Select(Select(rows, ComiteLinkedIn, ids, false), ComiteArchivedWithLink, None, false)
  }

  /** Purging the history leaves exactly the current bureau rows, in order, and the
      reported count is the number of rows deleted. */
  lemma PurgeBureauKeepsCurrent(rows: seq<BureauRow>, ms: seq<Mandat>)
    requires BureauLinksOk(rows, ms)
    ensures PurgeBureau(rows, ArchivedIds(ms)) == Select(rows, BureauActuel, true, true)
    ensures Count(rows, BureauLinkedIn, ArchivedIds(ms)) + Count(rows, BureauArchivedWithLink, None)
      == |rows| - |PurgeBureau(rows, ArchivedIds(ms))|
  {
    var ids := ArchivedIds(ms);
    forall x | x in rows
      ensures BureauActuel(true, x) == true <==> !BureauLinkedIn(ids, x) && !BureauArchivedWithLink(None, x)
    {
      var i :| 0 <= i < |rows| && rows[i] == x;
    }
    SelectTwice(rows, BureauLinkedIn, ids, false, BureauArchivedWithLink, None, false, BureauActuel, true, true);
    SelectLength(rows, BureauLinkedIn, ids);
    SelectLength(Select(rows, BureauLinkedIn, ids, false), BureauArchivedWithLink, None);
    CountAfterSelect(rows, BureauLinkedIn, ids, false, BureauArchivedWithLink, None);
  }

  /** The same for the committee of elders. */
  lemma PurgeComiteKeepsActive(rows: seq<ComiteRow>, ms: seq<Mandat>)
    requires ComiteLinksOk(rows, ms)
    ensures PurgeComite(rows, ArchivedIds(ms)) == Select(rows, ComiteActif, true, true)
    ensures Count(rows, ComiteLinkedIn, ArchivedIds(ms)) + Count(rows, ComiteArchivedWithLink, None)
      == |rows| - |PurgeComite(rows, ArchivedIds(ms))|
  {
    var ids := ArchivedIds(ms);
    forall x | x in rows
      ensures ComiteActif(true, x) == true <==> !ComiteLinkedIn(ids, x) && !ComiteArchivedWithLink(None, x)
    {
      var i :| 0 <= i < |rows| && rows[i] == x;
    }
    SelectTwice(rows, ComiteLinkedIn, ids, false, ComiteArchivedWithLink, None, false, ComiteActif, true, true);
    SelectLength(rows, ComiteLinkedIn, ids);
    SelectLength(Select(rows, ComiteLinkedIn, ids, false), ComiteArchivedWithLink, None);
    CountAfterSelect(rows, ComiteLinkedIn, ids, false, ComiteArchivedWithLink, None);
  }

  /** Purging the mandates keeps the current one, if any, and nothing else. */
  lemma PurgeKeepsCurrentMandate(ms: seq<Mandat>, next: nat)
    requires MandatesOk(ms, next)
    ensures var kept := Select(ms, MandatActuel, false, false);
      && |kept| <= 1
      && (forall m :: m in kept <==> m in ms && m.estActuel)
      && Count(ms, MandatActuel, false) == |ms| - |kept|
      && MandatesOk(kept, next)
  {
    var kept := Select(ms, MandatActuel, false, false);
    SelectPairwise(ms, MandatActuel, false, false, DistinctMandats);
    SelectLength(ms, MandatActuel, false);
    SelectIn(ms, MandatActuel, false, false);
    assert |kept| > 1 ==> DistinctMandats(kept[0], kept[1]);
    forall i | 0 <= i < |kept| ensures kept[i].id < next {
      assert kept[i] in ms;
    }
  }

  /** The whole purge keeps the constraints: what remains is current, so nothing is linked. */
  lemma PurgeKeepsConstraints(ms: seq<Mandat>, next: nat, brows: seq<BureauRow>, crows: seq<ComiteRow>)
    requires MandatesOk(ms, next) && UniqueCurrentHolder(brows)
    requires BureauLinksOk(brows, ms) && ComiteLinksOk(crows, ms)
    ensures var ms2 := Select(ms, MandatActuel, false, false);
      && UniqueCurrentHolder(PurgeBureau(brows, ArchivedIds(ms)))
      && BureauLinksOk(PurgeBureau(brows, ArchivedIds(ms)), ms2)
      && ComiteLinksOk(PurgeComite(crows, ArchivedIds(ms)), ms2)
  {
    PurgeBureauKeepsCurrent(brows, ms);
    PurgeComiteKeepsActive(crows, ms);
    SelectPairwise(brows, BureauActuel, true, true, NotSameCurrentHolder);
    SelectIn(brows, BureauActuel, true, true);
    SelectIn(crows, ComiteActif, true, true);
    var b2 := Select(brows, BureauActuel, true, true);
    forall i | 0 <= i < |b2| ensures b2[i].mandat.None? {
      assert b2[i] in brows;
      var j :| 0 <= j < |brows| && brows[j] == b2[i];
    }
    var c2 := Select(crows, ComiteActif, true, true);
    forall i | 0 <= i < |c2| ensures c2[i].mandat.None? {
      assert c2[i] in crows;
      var j :| 0 <= j < |crows| && crows[j] == c2[i];
    }
  }

  /** What vider_historique leaves, stated on the tables alone: the constraints hold,
      only the current rows remain, and each count is the number of rows deleted. */
  lemma PurgeOutcome(ms: seq<Mandat>, next: nat, brows: seq<BureauRow>, crows: seq<ComiteRow>)
    requires MandatesOk(ms, next) && UniqueCurrentHolder(brows)
    requires BureauLinksOk(brows, ms) && ComiteLinksOk(crows, ms)
    ensures var ids := ArchivedIds(ms);
      var ms2 := Select(ms, MandatActuel, false, false);
      var b2 := PurgeBureau(brows, ids);
      var c2 := PurgeComite(crows, ids);
      && MandatesOk(ms2, next) && UniqueCurrentHolder(b2)
      && BureauLinksOk(b2, ms2) && ComiteLinksOk(c2, ms2)
      && b2 == Select(brows, BureauActuel, true, true)
      && c2 == Select(crows, ComiteActif, true, true)
      && (forall m :: m in ms2 <==> m in ms && m.estActuel)
      && |ms2| <= 1
      && Count(ms, MandatActuel, false) == |ms| - |ms2|
      && Count(brows, BureauLinkedIn, ids) + Count(brows, BureauArchivedWithLink, None) == |brows| - |b2|
      && Count(crows, ComiteLinkedIn, ids) + Count(crows, ComiteArchivedWithLink, None) == |crows| - |c2|
  {
    PurgeBureauKeepsCurrent(brows, ms);
    PurgeComiteKeepsActive(crows, ms);
    PurgeKeepsCurrentMandate(ms, next);
    PurgeKeepsConstraints(ms, next, brows, crows);
  }

  /** vider_historique: counts the archived mandates and the bureau and committee rows that
      go with them (linked to one, or archived without a link), then deletes them all.
      Afterwards only the current mandate and the current rows remain. */
  method ViderHistorique(db: Db) returns (countMandats: nat, countBureau: nat, countComite: nat)
    requires db.Valid()
    modifies db
    ensures db.Valid()
    ensures db.bureau == PurgeBureau(old(db.bureau), ArchivedIds(old(db.mandats)))
    ensures db.comite == PurgeComite(old(db.comite), ArchivedIds(old(db.mandats)))
    ensures db.bureau == Select(old(db.bureau), BureauActuel, true, true)
    ensures db.comite == Select(old(db.comite), ComiteActif, true, true)
    ensures forall m :: m in db.mandats <==> m in old(db.mandats) && m.estActuel
    ensures |db.mandats| <= 1
    ensures countMandats == |old(db.mandats)| - |db.mandats|
    ensures countBureau == |old(db.bureau)| - |db.bureau|
    ensures countComite == |old(db.comite)| - |db.comite|
    ensures db.associations == old(db.associations) && db.members == old(db.members) && db.cards == old(db.cards)
    ensures db.fonctions == old(db.fonctions) && db.users == old(db.users)
    ensures db.nextMandat == old(db.nextMandat) && db.nextUser == old(db.nextUser)
  {
    var ids := ArchivedIds(db.mandats);
    countMandats := Count(db.mandats, MandatActuel, false);
    countBureau := Count(db.bureau, BureauLinkedIn, ids) + Count(db.bureau, BureauArchivedWithLink, None);
    countComite := Count(db.comite, ComiteLinkedIn, ids) + Count(db.comite, ComiteArchivedWithLink, None);
    // The linked rows, the archived rows without a link, then the archived mandates.
    var bureau := PurgeBureau(db.bureau, ids);
    var comite := PurgeComite(db.comite, ids);
    var mandats := Select(db.mandats, MandatActuel, false, false);
    PurgeOutcome(db.mandats, db.nextMandat, db.bureau, db.comite);
    db.bureau, db.comite, db.mandats := bureau, comite, mandats;
  }

  // ---------------------------------------------------------------------------
  // supprimer_mandat_archive
  // ---------------------------------------------------------------------------

  /** get_object_or_404(Mandat, id=id, est_actuel=False) finds the mandate exactly when
      the key names an archived one (keys are distinct). */
  lemma FindArchived(ms: seq<Mandat>, id: nat)
    requires Pairwise(ms, DistinctMandats)
    ensures (FindMandat(ms, id).Some? && !ms[FindMandat(ms, id).value].estActuel) <==> IsArchivedMandat(ms, id)
  {
    var f := FindMandat(ms, id);
    if IsArchivedMandat(ms, id) {
      var k :| 0 <= k < |ms| && ms[k].id == id && !ms[k].estActuel;
      forall j | 0 <= j < |ms| && j != k ensures ms[j].id != id {
        if j < k { assert DistinctMandats(ms[j], ms[k]); } else { assert DistinctMandats(ms[k], ms[j]); }
      }
    }
  }

  /** Deleting an archived mandate with its linked rows, stated on the tables alone: the
      constraints hold, and each count is the number of rows deleted. */
  lemma DeleteArchiveOutcome(ms: seq<Mandat>, next: nat, brows: seq<BureauRow>, crows: seq<ComiteRow>, k: nat)
    requires MandatesOk(ms, next) && UniqueCurrentHolder(brows)
    requires BureauLinksOk(brows, ms) && ComiteLinksOk(crows, ms)
    requires k < |ms|
    ensures var id := ms[k].id;
      var ms2 := Select(ms, MandatHasId, id, false);
      var b2 := Select(brows, BureauOfMandat, Some(id), false);
      var c2 := Select(crows, ComiteOfMandat, Some(id), false);
      && MandatesOk(ms2, next) && UniqueCurrentHolder(b2)
      && BureauLinksOk(b2, ms2) && ComiteLinksOk(c2, ms2)
      && |b2| + Count(brows, BureauOfMandat, Some(id)) == |brows|
      && |c2| + Count(crows, ComiteOfMandat, Some(id)) == |crows|
      && |ms2| + 1 == |ms|
  {
    var id := ms[k].id;
    var ms2 := Select(ms, MandatHasId, id, false);
    DeleteMandateKeepsLinks(brows, crows, ms, id);
    SelectPairwise(ms, MandatHasId, id, false, DistinctMandats);
    SelectPairwise(brows, BureauOfMandat, Some(id), false, NotSameCurrentHolder);
    SelectLength(brows, BureauOfMandat, Some(id));
    SelectLength(crows, ComiteOfMandat, Some(id));
    OneMandateWithId(ms, k);
    SelectIn(ms, MandatHasId, id, false);
    forall i | 0 <= i < |ms2| ensures ms2[i].id < next {
      assert ms2[i] in ms;
    }
  }

  /** supprimer_mandat_archive: only an archived mandate is accepted (anything else is a
      404, reported as an error); its linked bureau and committee rows are counted and
      deleted, then the mandate itself. Returns the two counts. */
  method SupprimerMandatArchive(db: Db, id: nat) returns (r: Result<(nat, nat)>)
    requires db.Valid()
    modifies db
    ensures db.Valid()
    ensures !IsArchivedMandat(old(db.mandats), id) <==> r == Err(NotFound)
    ensures r.Err? ==> r.error == NotFound
    ensures r.Err? ==> db.bureau == old(db.bureau) && db.comite == old(db.comite) && db.mandats == old(db.mandats)
    ensures r.Ok? ==>
      && r.value == (Count(old(db.bureau), BureauOfMandat, Some(id)), Count(old(db.comite), ComiteOfMandat, Some(id)))
      && db.bureau == Select(old(db.bureau), BureauOfMandat, Some(id), false)
      && db.comite == Select(old(db.comite), ComiteOfMandat, Some(id), false)
      && db.mandats == Select(old(db.mandats), MandatHasId, id, false)
      && |db.bureau| + r.value.0 == |old(db.bureau)| && |db.comite| + r.value.1 == |old(db.comite)|
      && |db.mandats| + 1 == |old(db.mandats)|
    ensures db.associations == old(db.associations) && db.members == old(db.members) && db.cards == old(db.cards)
    ensures db.fonctions == old(db.fonctions) && db.users == old(db.users)
    ensures db.nextMandat == old(db.nextMandat) && db.nextUser == old(db.nextUser)
  {
    FindArchived(db.mandats, id);
    var f := FindMandat(db.mandats, id);
    if f.None? || db.mandats[f.value].estActuel {
      return Err(NotFound);
    }
    var countBureau := Count(db.bureau, BureauOfMandat, Some(id));
    var countComite := Count(db.comite, ComiteOfMandat, Some(id));
    var bureau := Select(db.bureau, BureauOfMandat, Some(id), false);
    var comite := Select(db.comite, ComiteOfMandat, Some(id), false);
    var mandats := Select(db.mandats, MandatHasId, id, false);
    DeleteArchiveOutcome(db.mandats, db.nextMandat, db.bureau, db.comite, f.value);
    db.bureau, db.comite, db.mandats := bureau, comite, mandats;
    r := Ok((countBureau, countComite));
  }

  /** A key names one mandate: deleting by it removes exactly one row. */
  lemma OneMandateWithId(ms: seq<Mandat>, k: nat)
    requires Pairwise(ms, DistinctMandats)
    requires k < |ms|
    ensures Count(ms, MandatHasId, ms[k].id) == 1
    ensures |Select(ms, MandatHasId, ms[k].id, false)| + 1 == |ms|
  {
    var id := ms[k].id;
    assert ms == ms[..k] + [ms[k]] + ms[k + 1..];
    forall j | 0 <= j < |ms| && j != k ensures ms[j].id != id {
      if j < k { assert DistinctMandats(ms[j], ms[k]); } else { assert DistinctMandats(ms[k], ms[j]); }
    }
    CountPositive(ms[..k], MandatHasId, id);
    CountPositive(ms[k + 1..], MandatHasId, id);
    CountAppend(ms[..k] + [ms[k]], ms[k + 1..], MandatHasId, id);
    CountSnoc(ms[..k], ms[k], MandatHasId, id);
    SelectLength(ms, MandatHasId, id);
  }

  /** The count of two tables one after the other. */
  lemma {:induction false} CountAppend<C, T(!new)>(s: seq<T>, t: seq<T>, cond: (C, T) -> bool, c: C)
    ensures Count(s + t, cond, c) == Count(s, cond, c) + Count(t, cond, c)
  {
    if s == [] {
      assert s + t == t;
    } else {
      assert (s + t)[1..] == s[1..] + t;
      CountAppend(s[1..], t, cond, c);
    }
  }

  /** Deleting one archived mandate with its linked rows keeps the other links valid. */
  lemma DeleteMandateKeepsLinks(brows: seq<BureauRow>, crows: seq<ComiteRow>, ms: seq<Mandat>, id: nat)
    requires BureauLinksOk(brows, ms) && ComiteLinksOk(crows, ms)
    ensures BureauLinksOk(Select(brows, BureauOfMandat, Some(id), false), Select(ms, MandatHasId, id, false))
    ensures ComiteLinksOk(Select(crows, ComiteOfMandat, Some(id), false), Select(ms, MandatHasId, id, false))
  {
    var ms2 := Select(ms, MandatHasId, id, false);
    var b2 := Select(brows, BureauOfMandat, Some(id), false);
    SelectIn(brows, BureauOfMandat, Some(id), false);
    SelectIn(crows, ComiteOfMandat, Some(id), false);
    SelectIn(ms, MandatHasId, id, false);
    forall i | 0 <= i < |b2| && b2[i].mandat.Some?
      ensures !b2[i].estActuel && IsArchivedMandat(ms2, b2[i].mandat.value)
    {
      assert b2[i] in brows;
      var j :| 0 <= j < |brows| && brows[j] == b2[i];
      ArchivedKept(ms, ms2, b2[i].mandat.value);
    }
    var c2 := Select(crows, ComiteOfMandat, Some(id), false);
    forall i | 0 <= i < |c2| && c2[i].mandat.Some?
      ensures !c2[i].estActif && IsArchivedMandat(ms2, c2[i].mandat.value)
    {
      assert c2[i] in crows;
      var j :| 0 <= j < |crows| && crows[j] == c2[i];
      ArchivedKept(ms, ms2, c2[i].mandat.value);
    }
  }
}

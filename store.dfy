/**
  The database behind the views: one sequence per table, plus the next primary key
  of the tables whose rows the core inserts with an automatic key. The predicates
  below are the table constraints declared in membres/models.py (unique fields,
  one-to-one links, the two conditional UniqueConstraints) and the facts about the
  mandate links that every operation of the core keeps.
*/
module Store {
  import opened Wrappers
  import opened Entities
  import opened Tables

  // ---------------------------------------------------------------------------
  // Table constraints
  // ---------------------------------------------------------------------------

  /** Two mandates have different primary keys, and they are not both current
      (UniqueConstraint 'unique_mandat_actuel'). */
  predicate DistinctMandats(a: Mandat, b: Mandat) {
    a.id != b.id && !(a.estActuel && b.estActuel)
  }

  predicate MandatesOk(ms: seq<Mandat>, next: nat) {
    && Pairwise(ms, DistinctMandats)
    && (forall i :: 0 <= i < |ms| ==> ms[i].id < next)
  }

  predicate IsArchivedMandat(ms: seq<Mandat>, id: nat) {
    exists k :: 0 <= k < |ms| && ms[k].id == id && !ms[k].estActuel
  }

  /** UniqueConstraint 'unique_membre_fonction_actuel': two current rows never hold
      the same function for the same member. */
  predicate NotSameCurrentHolder(a: BureauRow, b: BureauRow) {
    a.estActuel && b.estActuel ==> a.membre != b.membre || a.fonction != b.fonction
  }

  predicate UniqueCurrentHolder(rows: seq<BureauRow>) {
    Pairwise(rows, NotSameCurrentHolder)
  }

  /** Rows are linked to a mandate only when archived, and only to an archived mandate. */
  predicate BureauLinksOk(rows: seq<BureauRow>, ms: seq<Mandat>) {
    forall i :: 0 <= i < |rows| && rows[i].mandat.Some? ==>
      !rows[i].estActuel && IsArchivedMandat(ms, rows[i].mandat.value)
  }

  predicate ComiteLinksOk(rows: seq<ComiteRow>, ms: seq<Mandat>) {
    forall i :: 0 <= i < |rows| && rows[i].mandat.Some? ==>
      !rows[i].estActif && IsArchivedMandat(ms, rows[i].mandat.value)
  }

  /** Primary keys, numero_carte (unique), numero_cin (unique) and the one-to-one user link. */
  predicate DistinctMembers(a: Member, b: Member) {
    && a.id != b.id
    && a.numeroCarte != b.numeroCarte
    && a.numeroCin != b.numeroCin
    && (a.user.Some? ==> a.user != b.user)
  }

  /** The member constraints; a stored numero_carte is never empty, since save fills it in. */
  predicate MembersOk(ms: seq<Member>) {
    && Pairwise(ms, DistinctMembers)
    && (forall i :: 0 <= i < |ms| ==> ms[i].numeroCarte != "")
  }

  /** One card per member (a one-to-one link) and a unique numero_unique. */
  predicate DistinctCards(a: Card, b: Card) {
    a.membre != b.membre && a.numeroUnique != b.numeroUnique
  }

  predicate DistinctFonctions(a: Fonction, b: Fonction) {
    a.id != b.id
  }

  /** Primary keys and unique usernames. */
  predicate DistinctUsers(a: User, b: User) {
    a.id != b.id && a.username != b.username
  }

  predicate UsersOk(us: seq<User>, next: nat) {
    && Pairwise(us, DistinctUsers)
    && (forall i :: 0 <= i < |us| ==> us[i].id < next)
  }

  /** Every member's user link names a stored user. */
  predicate UserLinksOk(ms: seq<Member>, us: seq<User>) {
    forall i :: 0 <= i < |ms| && ms[i].user.Some? ==> FindUser(us, ms[i].user.value).Some?
  }

  // ---------------------------------------------------------------------------
  // Query conditions (the keyword arguments of filter(...))
  // ---------------------------------------------------------------------------

  /** filter(est_actuel=flag) */
  predicate BureauActuel(flag: bool, r: BureauRow) { r.estActuel == flag }
  /** filter(mandat__in=ids) */
  predicate BureauLinkedIn(ids: set<nat>, r: BureauRow) { r.mandat.Some? && r.mandat.value in ids }
  /** filter(mandat=link), or filter(mandat__isnull=True) when link is None */
  predicate BureauOfMandat(link: Option<nat>, r: BureauRow) { r.mandat == link }
  /** filter(est_actuel=False, mandat=link) */
  predicate BureauArchivedWithLink(link: Option<nat>, r: BureauRow) { !r.estActuel && r.mandat == link }
  /** filter(fonction=f) */
  predicate BureauOfFonction(f: nat, r: BureauRow) { r.fonction == f }
  /** filter(fonction=f, est_actuel=True) */
  predicate BureauCurrentOfFonction(f: nat, r: BureauRow) { r.fonction == f && r.estActuel }

  predicate ComiteActif(flag: bool, r: ComiteRow) { r.estActif == flag }
  predicate ComiteLinkedIn(ids: set<nat>, r: ComiteRow) { r.mandat.Some? && r.mandat.value in ids }
  predicate ComiteOfMandat(link: Option<nat>, r: ComiteRow) { r.mandat == link }
  predicate ComiteArchivedWithLink(link: Option<nat>, r: ComiteRow) { !r.estActif && r.mandat == link }

  predicate MandatActuel(flag: bool, m: Mandat) { m.estActuel == flag }
  predicate MandatHasId(id: nat, m: Mandat) { m.id == id }
  predicate FonctionHasId(id: nat, f: Fonction) { f.id == id }

  /** The keys of Mandat.objects.filter(est_actuel=False), as used by mandat__in. */
  function ArchivedIds(ms: seq<Mandat>): (ids: set<nat>)
    ensures forall id :: id in ids <==> IsArchivedMandat(ms, id)
  {
    var ids := set m | m in ms && !m.estActuel :: m.id;
    forall id | IsArchivedMandat(ms, id) ensures id in ids {
      var k :| 0 <= k < |ms| && ms[k].id == id && !ms[k].estActuel;
      assert ms[k] in ms;
    }
    ids
  }

  /** An archived mandate stays archived when the rows of the archived mandates are
      kept in place and rows are only added after them. */
  lemma ArchivedStays(ms: seq<Mandat>, ms2: seq<Mandat>, id: nat)
    requires IsArchivedMandat(ms, id)
    requires |ms| <= |ms2|
    requires forall k :: 0 <= k < |ms| && !ms[k].estActuel ==> ms2[k] == ms[k]
    ensures IsArchivedMandat(ms2, id)
  {
    var k :| 0 <= k < |ms| && ms[k].id == id && !ms[k].estActuel;
    assert ms2[k] == ms[k];
  }

  /** An archived mandate stays archived when the rows kept include it. */
  lemma ArchivedKept(ms: seq<Mandat>, ms2: seq<Mandat>, id: nat)
    requires IsArchivedMandat(ms, id)
    requires forall m :: m in ms && m.id == id ==> m in ms2
    ensures IsArchivedMandat(ms2, id)
  {
    var k :| 0 <= k < |ms| && ms[k].id == id && !ms[k].estActuel;
    assert ms[k] in ms2;
    var j :| 0 <= j < |ms2| && ms2[j] == ms[k];
  }

  // ---------------------------------------------------------------------------
  // Lookups
  // ---------------------------------------------------------------------------

  function FindMember(ms: seq<Member>, id: nat): (r: Option<nat>)
    ensures r.Some? ==> r.value < |ms| && ms[r.value].id == id
    ensures r.None? ==> forall k :: 0 <= k < |ms| ==> ms[k].id != id
  {
    if ms == [] then None
    else if ms[|ms| - 1].id == id then Some(|ms| - 1)
    else FindMember(ms[..|ms| - 1], id)
  }

  function FindAssociation(assocs: seq<Association>, id: nat): (r: Option<Association>)
    ensures r.Some? ==> r.value in assocs && r.value.id == id
    ensures r.None? ==> forall a :: a in assocs ==> a.id != id
  {
    if assocs == [] then None
    else if assocs[0].id == id then Some(assocs[0])
    else FindAssociation(assocs[1..], id)
  }

  function FindMandat(ms: seq<Mandat>, id: nat): (r: Option<nat>)
    ensures r.Some? ==> r.value < |ms| && ms[r.value].id == id
    ensures r.None? ==> forall k :: 0 <= k < |ms| ==> ms[k].id != id
  {
    if ms == [] then None
    else if ms[|ms| - 1].id == id then Some(|ms| - 1)
    else FindMandat(ms[..|ms| - 1], id)
  }

  /** Mandat.objects.filter(est_actuel=True).first() */
  function CurrentMandat(ms: seq<Mandat>): (r: Option<nat>)
    ensures r.Some? ==> r.value < |ms| && ms[r.value].estActuel
    ensures r.None? ==> forall k :: 0 <= k < |ms| ==> !ms[k].estActuel
  {
    if ms == [] then None
    else if ms[|ms| - 1].estActuel then Some(|ms| - 1)
    else CurrentMandat(ms[..|ms| - 1])
  }

  function FindFonction(fs: seq<Fonction>, id: nat): (r: Option<nat>)
    ensures r.Some? ==> r.value < |fs| && fs[r.value].id == id
    ensures r.None? ==> forall k :: 0 <= k < |fs| ==> fs[k].id != id
  {
    if fs == [] then None
    else if fs[|fs| - 1].id == id then Some(|fs| - 1)
    else FindFonction(fs[..|fs| - 1], id)
  }

  function FindCard(cs: seq<Card>, membre: nat): (r: Option<nat>)
    ensures r.Some? ==> r.value < |cs| && cs[r.value].membre == membre
    ensures r.None? ==> forall k :: 0 <= k < |cs| ==> cs[k].membre != membre
  {
    if cs == [] then None
    else if cs[|cs| - 1].membre == membre then Some(|cs| - 1)
    else FindCard(cs[..|cs| - 1], membre)
  }

  function FindUser(us: seq<User>, id: nat): (r: Option<nat>)
    ensures r.Some? ==> r.value < |us| && us[r.value].id == id
    ensures r.None? ==> forall k :: 0 <= k < |us| ==> us[k].id != id
  {
    if us == [] then None
    else if us[|us| - 1].id == id then Some(|us| - 1)
    else FindUser(us[..|us| - 1], id)
  }

  // ---------------------------------------------------------------------------
  // The database
  // ---------------------------------------------------------------------------

  class Db {
    var associations: seq<Association>
    var members: seq<Member>
    var cards: seq<Card>
    var fonctions: seq<Fonction>
    var bureau: seq<BureauRow>
    var comite: seq<ComiteRow>
    var mandats: seq<Mandat>
    var users: seq<User>
    var nextMandat: nat
    var nextUser: nat

    ghost predicate Valid()
      reads this
    {
      && MandatesOk(mandats, nextMandat)
      && UniqueCurrentHolder(bureau)
      && BureauLinksOk(bureau, mandats)
      && ComiteLinksOk(comite, mandats)
      && MembersOk(members)
      && Pairwise(cards, DistinctCards)
      && Pairwise(fonctions, DistinctFonctions)
      && UsersOk(users, nextUser)
      && UserLinksOk(members, users)
    }

    constructor ()
      ensures Valid()
      ensures associations == [] && members == [] && cards == [] && fonctions == []
      ensures bureau == [] && comite == [] && mandats == [] && users == []
    {
      associations, members, cards, fonctions := [], [], [], [];
      bureau, comite, mandats, users := [], [], [], [];
      nextMandat, nextUser := 0, 0;
    }
  }
}

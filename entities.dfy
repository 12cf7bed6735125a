/**
  The rows of the membership database (membres/models.py), as values.
  Photos, logos, free-text profile fields and auto-set timestamps are not modelled.
*/
module Entities {
  import opened Wrappers

  /** datetime.date */
  datatype Date = Date(year: nat, month: nat, day: nat)

  /** Calendar order on dates. */
  predicate DateBefore(a: Date, b: Date) {
    || a.year < b.year
    || (a.year == b.year && a.month < b.month)
    || (a.year == b.year && a.month == b.month && a.day < b.day)
  }

  /** A moment returned by timezone.now(); only equality and order are used. */
  type Instant = nat

  /** The value of a UUIDField. */
  type Uuid = nat

  /** Association: its primary key and its name. */
  datatype Association = Association(id: nat, nom: string)

  /** Membre. email is None when the optional field is empty; user is the linked account. */
  datatype Member = Member(
    id: nat,
    association: nat,
    nom: string,
    prenom: string,
    numeroCin: string,
    numeroCarte: string,
    email: Option<string>,
    user: Option<nat>)

  /** CarteMembre: one per member (a one-to-one link). */
  datatype Card = Card(membre: nat, numeroUnique: Uuid, estImprimee: bool, dateImpression: Option<Instant>)

  /** FonctionBureau */
  datatype Fonction = Fonction(id: nat, nom: string, niveauHierarchique: nat)

  /** MembreBureau: a member holding a bureau function, current or archived under a mandate. */
  datatype BureauRow = BureauRow(
    membre: nat,
    fonction: nat,
    dateDebut: Date,
    dateFin: Option<Date>,
    estActuel: bool,
    mandat: Option<nat>)

  /** ComiteDoyen: a seat on the committee of elders, active or archived under a mandate. */
  datatype ComiteRow = ComiteRow(
    membre: nat,
    titre: string,
    dateNomination: Date,
    dateFin: Option<Date>,
    estActif: bool,
    ordreAffichage: int,
    mandat: Option<nat>)

  /** Mandat: one term of office of the whole bureau. */
  datatype Mandat = Mandat(
    id: nat,
    nom: string,
    dateDebut: Date,
    dateFin: Option<Date>,
    estActuel: bool,
    description: string)

  /** django.contrib.auth User, reduced to what account creation sets. */
  datatype User = User(id: nat, username: string, password: string, firstName: string, lastName: string, email: string)
}

# FI.ZA.TO membership cards — a verified model

This project models the core of the FI.ZA.TO member-card application, a Django site for a federation of student associations.
It is written in Dafny.

- **Card-number allocator.**
  - Each association gets a code of 2 or 3 characters from the letters of its name.
  - The letter candidates are checked against the card numbers of other associations: a candidate that already ends one is skipped.
  - The fallback (first letter and `id % 100`) is not checked.
  - A new member's card number is `{count+1:04d}{code}`.
  - `Membre.save` assigns it only when the number is empty.
- **Mandate lifecycle.** This covers:
  - ending the current mandate, with or without creating its successor `"{y+1}-{y+2}"`;
  - creating a mandate;
  - listing the history in order;
  - purging the archived mandates, all at once or one at a time;
  - adding a bureau member, where a new current President replaces the old one;
  - refusing to delete a bureau function that still has current holders.
- **Card printing.** A member's card is created at most once and marked printed at most once. A page holds at most 20 cards, and the ids travel between the selection view and the printing view as a comma-separated list.
- **Account provisioning** (the member admin):
  - user accounts for the selected members, with usernames `prenom.nom`, `prenom.nom1`, … that are never already in use;
  - fresh credentials for members that have an account;
  - the read-only fields of the card admin.

The database is `Store.Db`, a class with one sequence field per table. `Db.Valid()` holds the storage constraints:
- distinct keys for members, functions, mandates and users, and keys below the next key for mandates and users;
- the unique indexes on `numero_carte`, `numero_cin`, `numero_unique` and usernames;
- one card per member and one member per user;
- at most one current mandate;
- at most one current bureau row per (member, function);
- two kinds of link:
  - a member's user link names a stored user;
  - a bureau or committee row linked to a mandate is archived and names an archived mandate.

Other references are not checked by `Valid()`: a member's association, a card's member, and a bureau or committee row's member and function. Association keys are not required to be distinct either.

Every operation that writes is a method that keeps `Valid()`. Its new state is stated through a function of the old state, and lemmas prove the properties the application relies on.

Text handling follows Python on Latin-1 characters: `str.upper`, `str.lower`, `str.isalpha`, `str.strip`, `int()`, `str.split` and `str.join` (module `Text`).
Filters, counts and deletions over a table are `Tables.Select` and `Tables.Count`.

Nothing here is executed. The clock ("today", "now"), UUIDs and random passwords are parameters or values the model leaves open:
- a fresh UUID is one no stored card has;
- a password is any 8 ASCII letters and digits.

## Model

| member | source | states |
|---|---|---|
| Text.StripCharacterized | membres/views.py:249 | `str.strip()` removes exactly the leading and trailing whitespace: the result is a slice of the input with only spaces outside it and no space at its ends |
| Text.DecimalRoundTrip | membres/models.py:53 | an integer formatted with `f"{n}"` is a non-empty string of digits, without a leading zero, that reads back as `n` |
| Text.DecimalInjective | membres/admin.py:72 | two different integers never format to the same digits |
| Text.Pad4Facts | membres/models.py:108 | `{n:04d}` is all digits, reads back as `n`, and is exactly 4 characters long iff `n < 10000` |
| Text.ParseDecimal | membres/views.py:249 | `int()` reads back every formatted non-negative integer of at most 4300 digits; `ParseInt` refuses a longer digit string, as CPython's default `int_max_str_digits` does |
| Text.SplitJoin | membres/views.py:197 | splitting `','.join(parts)` on the separator gives back `parts` when no part contains it |
| Text.KeepAlphaAppend | membres/models.py:25 | keeping the letters of a concatenation keeps the letters of each part |
| Allocator.LettersKeepNameOrder | membres/models.py:25 | the code letters are the alphabetic characters of the name, upper-cased one by one and in the name's order |
| Allocator.LettersAreCapitals | membres/models.py:25 | every code letter is alphabetic and left unchanged by `upper()` |
| Allocator.FirstFree | membres/models.py:28-50 | the index found is the first candidate that no other association uses; when none is found, every candidate is used |
| Allocator.CodeFromLettersIsFirstFree | membres/models.py:28-53 | the cascade of ifs returns the first free candidate among `letters[:2]`, `letters[0]+letters[2]`, `letters[0]+letters[3]`, `letters[1]+letters[3]` (each only when there are enough letters), otherwise the fallback |
| Allocator.UniqueCode | membres/models.py:22-53 | the code has 2 or 3 characters and never starts with a digit |
| Allocator.UniqueCodeIsFirstFree | membres/models.py:22-53 | `get_unique_code` is the first free candidate of the letters of the name, or else the fallback |
| Allocator.UniqueCodeFreeUnlessFallback | membres/models.py:28-50 | a code other than the fallback is one of the candidates and is not used by another association |
| Allocator.FallbackLength | membres/models.py:53 | the fallback `letter + str(id % 100)` is 2 characters long when `id % 100 < 10`, else 3 |
| Allocator.UniqueCodeIgnoresOwnMembers | membres/models.py:55-65 | the code depends only on the members of other associations: the association's own members never block a candidate |
| Allocator.FallbackMayCollide | membres/models.py:53 | the fallback is not checked: associations 5 and 105, both named "A", both get "A5" |
| Allocator.CardNumberRoundTrip | membres/models.py:105-108 | `{count+1:04d}{code}` reads back as `(count+1, code)`, ends with the code, and is `4 + len(code)` long below 10000 members |
| Allocator.CountRepeatsAfterDeletion | membres/models.py:105 | after the first of two members is deleted, `count+1` equals the number the second one already holds |
| Members.AssignedCardNumber | membres/models.py:100-108 | the assigned number reads back as the count of the association's stored members plus one, followed by the association code |
| Members.SaveOutcome | membres/models.py:98-110 | save writes the row unchanged when it has a number, or else with the assigned number. It is refused with NotFound iff the number is empty and the association is missing; it never writes a row that repeats another row's `numero_carte`, `numero_cin` or user |
| Members.Save | membres/models.py:98-110 | the outcome is `SaveOutcome`; the members table is replaced or extended by that row; nothing else changes; the constraints hold |
| Members.SaveKeepsConstraints | membres/models.py:73-86 | writing a row that clashes with no other row keeps every unique index and every user link |
| Members.ResaveIsNoop | membres/models.py:100-110 | saving a stored member again succeeds with the same row and leaves the table unchanged |
| Members.NumberAssignedOnce | membres/models.py:100 | a non-empty `numero_carte` is never changed by save; the only possible refusal is Conflict (a unique index or a foreign key) |
| Members.NumberRepeatsAfterDeletion | membres/models.py:81-110 | a concrete store where the generated number repeats a stored one, so that save is refused by the unique index |
| Mandates.CloseBureau | membres/views.py:489-492 | after the bulk update no bureau row is current; rows that were current get today as `date_fin`; nothing else in any row changes |
| Mandates.ArchiveBureau | membres/views.py:533-539 | every row that was current is archived with today's date and linked to the ended mandate; archived rows are untouched |
| Mandates.ArchiveComite | membres/views.py:542-548 | the same for the committee rows that were active |
| Mandates.DemoteAll | membres/views.py:587 | every mandate is non-current and otherwise unchanged |
| Mandates.SuccessorNameReadsBack | membres/views.py:552-553 | the successor's name splits on `-` into the two years after the end year, and each part reads back as that year (for any year of a Python date, at most 9999) |
| Mandates.OnlyCurrent | membres/models.py:210-216 | under the unique constraint, a current mandate is the only one |
| Mandates.AppendCurrentMakesOne | membres/views.py:555-560 | inserting a current mandate after all were demoted leaves exactly one current mandate |
| Mandates.EndKeepsMandates | membres/views.py:527-530 | ending the current mandate keeps the mandate constraints and every archived mandate, and leaves none current |
| Mandates.AppendKeepsMandates | membres/views.py:555-560 | inserting with the next key keeps the mandate constraints when no mandate was current |
| Mandates.TerminerMandat | membres/models.py:221-232 | on a current mandate: the bureau is closed with today's date and only `est_actuel` of the mandate changes (no `date_fin`, no links); on a non-current mandate: nothing changes |
| Mandates.CloseKeepsBureau | membres/models.py:190-196 | closing the bureau keeps the (member, function) constraint and every link, and leaves no current row |
| Mandates.TerminerMandatView | membres/views.py:482-502 | NotFound iff no mandate is current, and no other refusal is possible. Otherwise the call succeeds: the current one is ended as in `terminer_mandat` and its key is returned |
| Mandates.ArchiveBureauRows | membres/views.py:533-539 | the loop leaves the bureau as `ArchiveBureau` says and counts the rows that were current |
| Mandates.ArchiveComiteRows | membres/views.py:542-548 | the loop leaves the committee as `ArchiveComite` says and counts the rows that were active |
| Mandates.TransitionKeepsConstraints | membres/views.py:527-560 | after the transition the mandates satisfy their constraints, exactly one is current, and every archived row links to an archived mandate |
| Mandates.TerminerMandatBureau | membres/views.py:511-560 | NotFound iff no mandate is current, and then nothing changes; no other refusal is possible. Otherwise the call succeeds: the counts are the previously current bureau rows and active committee rows; those rows are archived and linked to the old mandate; the old mandate ends today; the successor is current; exactly one mandate is current |
| Mandates.ArchiveKeepsLinks | membres/views.py:533-548 | rows archived under the ended mandate link to an archived mandate, and the (member, function) constraint holds |
| Mandates.CleanMandatForm | membres/views.py:584-585 | the form is valid iff the stripped name is non-empty and at most 100 characters, a start date is given, and neither stripped text field holds a NUL character; the cleaned values are the stripped ones |
| Mandates.CreerMandat | membres/views.py:581-595 | Invalid iff the form does not validate, and then nothing changes; no other refusal is possible. Otherwise the call succeeds: every mandate is demoted, the new one is appended as current with the next key and no end date, and exactly one mandate is current |
| Mandates.DemoteKeepsMandates | membres/views.py:587 | demoting all mandates keeps the mandate constraints and leaves archived mandates unchanged |
| Mandates.CreateLeavesOneCurrent | membres/views.py:586-592 | after demoting all mandates and inserting a current one, exactly one mandate is current |
| Mandates.PurgeBureauKeepsCurrent | membres/views.py:679-689 | the two bureau deletions leave exactly the current rows, in order, and delete as many rows as the two counts add up to |
| Mandates.PurgeComiteKeepsActive | membres/views.py:680-690 | the same for the committee and its active rows |
| Mandates.PurgeKeepsCurrentMandate | membres/views.py:675-691 | the mandates kept are exactly the current ones (at most one), and the count taken before deletion is the number deleted |
| Mandates.PurgeKeepsConstraints | membres/views.py:675-691 | the purged database keeps the (member, function) constraint and every link |
| Mandates.PurgeOutcome | membres/views.py:675-691 | gathers the facts above for one purge |
| Mandates.ViderHistorique | membres/views.py:671-699 | the bureau and committee tables are those left by the source's two filtered deletes (rows linked to an archived mandate, then archived rows without a link), which are exactly the current rows; only the current mandate survives; each reported count is the number of rows deleted from its table |
| Mandates.FindArchived | membres/views.py:707 | looking up the key finds a non-current mandate iff an archived mandate has that key |
| Mandates.DeleteArchiveOutcome | membres/views.py:710-719 | deleting one archived mandate and its rows keeps the constraints; the counts are the rows removed; one mandate goes |
| Mandates.SupprimerMandatArchive | membres/views.py:703-729 | NotFound iff no archived mandate has the key, and then nothing changes; no other refusal is possible. Otherwise the call succeeds: exactly its linked bureau and committee rows and the mandate itself are deleted, and the counts are the rows removed |
| Mandates.OneMandateWithId | membres/views.py:719 | keys are unique, so deleting by key removes exactly one mandate |
| Mandates.DeleteMandateKeepsLinks | membres/views.py:714-719 | after the linked rows are deleted, the remaining links still resolve once the mandate is gone |
| History.PrecedesAsymmetric | membres/views.py:618 | the sort key never orders two mandates both ways |
| History.NoLaterTransitive | membres/views.py:618 | "not after" is transitive, so the key ranks the mandates |
| History.Insert | membres/views.py:618 | inserting into an ordered list gives an ordered permutation |
| History.HistoryOrder | membres/views.py:612-618 | the listing is a permutation of the mandates ordered by `('tri_ordre', '-date_fin', '-date_debut')` |
| History.CurrentFirst | membres/views.py:612-618 | when a mandate is current it is listed first, and every current mandate precedes every archived one |
| History.ArchivedByEndDate | membres/views.py:618 | among archived mandates with end dates, a later end date is listed earlier, and on equal end dates a later start date is listed earlier |
| Bureau.BureauForm | membres/views.py:814-815 | the form is valid iff the member and the function exist, a start date is given, and a current row does not repeat a current (member, function) pair; the row it builds has no mandate link |
| Bureau.DemoteHolders | membres/views.py:823-829 | no current holder of the function remains; only `est_actuel` changes (no `date_fin`); other rows are untouched |
| Bureau.PresidentSingleHolder | membres/views.py:819-829 | after a current President is added, that row is the one and only current holder of the function |
| Bureau.OthersDemoteNobody | membres/views.py:831-836 | for any other function, or a non-current row, the existing rows are kept and the current holders grow by the new row only |
| Bureau.AddKeepsConstraints | membres/models.py:190-196 | adding a validated row, after the demotion when there is one, keeps the (member, function) constraint and the links |
| Bureau.AjouterMembreBureau | membres/views.py:811-838 | an invalid form changes nothing. Otherwise the bureau becomes `BureauAfterAdd`, and the flag reports that a former President was replaced |
| Bureau.DeleteFonctionOutcome | membres/models.py:175 | deleting a function and its rows (cascade) keeps the constraints and removes exactly that function and its rows |
| Bureau.SupprimerFonctionBureau | membres/views.py:461-474 | NotFound iff no function has the key, and InUse iff it has a current holder; in both cases nothing changes; no other refusal is possible. Otherwise the call succeeds: the function and its (archived) bureau rows are deleted and nothing else |
| Cards.FreshUuid | membres/models.py:122 | the new `numero_unique` differs from every stored one |
| Cards.PrintCardFacts | membres/views.py:227-236 | afterwards the member has a printed card. A new card is appended, printed now, with a fresh `numero_unique`. An existing card keeps its `numero_unique`, and its printing date changes only if it was not printed; other cards are untouched |
| Cards.PrintTwice | membres/views.py:233-236 | printing again changes nothing: the first printing date stays |
| Cards.PrintKeepsCards | membres/models.py:121-122 | printing keeps one card per member and unique `numero_unique` |
| Cards.PrintLeavesOthers | membres/views.py:227-236 | printing one member's card neither creates nor unprints another member's card |
| Cards.PrintCarte | membres/views.py:222-243 | NotFound iff the member does not exist, and then nothing changes; no other refusal is possible. Otherwise the call succeeds: the cards become `PrintCard` and the card returned is the member's, printed and stored |
| Cards.ParseIds | membres/views.py:249-252 | parsing succeeds iff every non-blank token is an integer after stripping (at most 4300 digits, otherwise `int()` raises ValueError); blank tokens are skipped |
| Cards.DecimalToken | membres/views.py:249 | a formatted id of at most 4300 digits survives `strip()` and `int()` |
| Cards.ParseDecimals | membres/views.py:249 | the formatted ids parse back to the same ids, when each has at most 4300 digits |
| Cards.GenererCartes | membres/views.py:185-198 | an empty selection is refused, and so is one of more than 20; otherwise the joined ids split back into the selection |
| Cards.SplitJoinWhenClean | membres/views.py:197 | joining with `,` and splitting again is the identity on comma-free parts |
| Cards.SelectionReadsBack | membres/views.py:197-198 | a selection of 1 to 20 ids, each of at most 4300 digits, passes and reaches the printing view as the same ids |
| Cards.MemberIds | membres/views.py:260 | the keys of the members found, in order |
| Cards.PrintAllLeavesOthers | membres/views.py:267-278 | a member outside the page has a card afterwards iff it had one before |
| Cards.PrintAllPrints | membres/views.py:267-278 | every member of the page ends with a printed card |
| Cards.PrintAllKeepsCards | membres/models.py:121-122 | printing a page keeps one card per member and unique `numero_unique` |
| Cards.GetOrCreatePrinted | membres/views.py:269-278 | one turn of the loop prints the card as `PrintCard` does and reports whether it was created |
| Cards.PrintPage | membres/views.py:267-278 | the loop prints each member in turn, and `cartes_crees` counts the members that had no card |
| Cards.FoundMembers | membres/views.py:260-264 | no member is found iff no member has one of the ids; each is found once; every member whose id was asked for is found |
| Cards.PrintCartesMultiples | membres/views.py:245-286 | BadIds iff parsing fails; TooMany iff more than 20 ids; NothingFound iff no member matches; in those cases nothing changes; no other refusal is possible. Otherwise the call succeeds: the page is printed and the result is the number found and the number of new cards |
| Cards.PageIsPrinted | membres/views.py:267-278 | every member whose id was asked for ends with a printed card |
| Admin.RandomPassword | membres/admin.py:76 | the password is 8 ASCII letters and digits |
| Admin.Names | membres/admin.py:71 | a username is in the set iff some user has it |
| Admin.CandidateInjective | membres/admin.py:69-73 | different counters give different usernames |
| Admin.TriedSize | membres/admin.py:69-73 | the first `n` candidates are `n` different usernames |
| Admin.PickUsername | membres/admin.py:68-73 | the username chosen is free, and every earlier candidate (base, base1, …) was taken; the loop ends because the taken candidates are distinct users |
| Admin.FreeCandidateUnique | membres/admin.py:69-73 | the first free candidate is unique |
| Admin.AccountKeepsConstraints | membres/admin.py:79-89 | appending a user with a free username and the next key, and linking a member without a user to it, keeps the unique usernames, the one-member-per-user rule and every link |
| Admin.CreateAccount | membres/admin.py:67-89 | the new user has the next key and the first free candidate for `prenom.lower().nom.lower()`, an 8-character password, the member's names, and its email (or "") normalised by `normalize_email`; it is appended, and only that member's link changes |
| Admin.NormalizeEmailFacts | membres/admin.py:79-85 | `create_user` stores `normalize_email(email)`: an address without `@` is kept as given; otherwise the stripped address keeps every character up to its last `@` and has every character after it lower-cased |
| Admin.NormalizeEmailIdempotent | membres/admin.py:79-85 | normalising a stored address again changes nothing |
| Admin.LastAt | membres/admin.py:79-85 | the split point of `rsplit("@", 1)` is an `@` with no `@` after it, and there is none iff the address has no `@` |
| Admin.SkipStep | membres/admin.py:66 | a selected member that is missing or already has a user is left as it is |
| Admin.LinkStep | membres/admin.py:79-89 | a selected member without a user is linked to the user appended for it, at the next position, issued for it |
| Admin.AccountStep | membres/admin.py:65-90 | one turn creates an account iff the member has none; the bookkeeping for all turns so far is kept |
| Admin.CreateUserAccounts | membres/admin.py:62-92 | `created_count` is the number of selected members without a user, and as many users are appended after the old ones. Each of those members is linked to the user made for it, in the order of the selection: the member at position p has the user appended after the accounts made for the members before p. That user has the first username `prenom.nom`, `prenom.nom1`, … free at that turn, an 8-character password, its names, and its normalised email. Every other member is unchanged; usernames stay distinct within the batch |
| Admin.AccountIndex | membres/admin.py:104 | the user found is the one the member links to |
| Admin.AccountFound | membres/admin.py:104 | a member with a user always reaches a stored user |
| Admin.DistinctAccounts | membres/models.py:73 | two members never share a user, so their passwords are set on different rows |
| Admin.PasswordKeepsConstraints | membres/admin.py:104-105 | setting one password keeps the user constraints and every link |
| Admin.LinesStep | membres/admin.py:100-111 | adding a line keeps the earlier lines' passwords in place |
| Admin.OnlyPrintedStep | membres/admin.py:104-105 | the only user whose password changes is the one of the new line |
| Admin.PrintedStep | membres/admin.py:100-111 | one more selected member's user gets the new password, and the sheet gets that line |
| Admin.PrintOne | membres/admin.py:100-111 | one turn of the loop sets the new password and returns the line |
| Admin.PrintCredentials | membres/admin.py:95-119 | one line per selected member with a user, in order, with its username and an 8-character password that its user now has. Only passwords change, and only those of the printed users |
| Admin.GetReadonlyFields | membres/admin.py:152-155 | the base list is kept as a prefix; `membre` is added iff an existing card is edited |
| Tables.SelectIn | membres/views.py:687-691 | a row survives a filtered delete iff it does not match |
| Tables.SelectLength | membres/views.py:676-691 | the rows deleted by `filter(...).delete()` are as many as `filter(...).count()` reports |
| Tables.CountPositive | membres/views.py:466 | `exists()` is the same as `count() > 0` |
| Tables.SelectPairwise | membres/views.py:687-691 | deleting rows keeps every pairwise constraint |
| Store.ArchivedIds | membres/views.py:675 | `mandat__in=Mandat.objects.filter(est_actuel=False)` selects exactly the keys of archived mandates |
| Store.CurrentMandat | membres/views.py:484 | `filter(est_actuel=True).first()` finds a current mandate, or reports that none is current |
| Store.Db.constructor | membres/models.py:71-243 | the empty database satisfies every constraint |

## Left out

- HTTP, templates, `messages`, redirects and the GET confirmation pages are not modelled. Each view is modelled as its POST action, with `get_object_or_404` as a NotFound result.
- The login, logout, profile and password views delegate to Django's authentication. They are not part of this model.
- Mandates.ViderHistorique: `Valid()` assumes that a bureau or committee row linked to a mandate stays archived. The admin of bureau rows (membres/admin.py:225-232) lets staff set `est_actuel` back on such a row. `vider_historique` would then delete that current row, because its filter looks only at the link. That admin edit is not modelled, so the method's ensures do not cover such a database.
- membres/forms.py is modelled only through the checks that decide validity (`CleanMandatForm`, `BureauForm`). Widgets and labels are left out.
- `BureauForm` assumes Django 4.1 or later, whose `is_valid()` checks the conditional `UniqueConstraint`. So a current (member, function) duplicate is refused before any demotion.
- `Admin.CreateUserAccounts` and `Admin.PrintCredentials` require distinct member keys in the selection. Rows of a queryset are distinct.
- create_admin, the seed scripts, views_backup.py, decorators.py and urls.py are not part of this model.
- Text is modelled on Latin-1:
  - `upper()`, `lower()`, `isalpha()` and `isspace()` beyond Latin-1 (and the two upper-case images Ÿ and Μ) treat characters as non-letters and leave them unchanged;
  - `int()` accepts only ASCII digits here, not other Unicode digits.
- An id of 2^63 or more passes `int()`. Django before 5.0 then fails inside the `id__in` filter on SQLite instead of finding nothing. Database integer widths are not modelled.
- `Allocator.CodeUsedByOther` uses a case-sensitive `endswith`. SQLite's LIKE is case-insensitive for ASCII, so a lower-case card number could block a candidate there that this model does not block.
- The clock is a parameter (`today`, `now`). `print_cartes_multiples` reads `timezone.now()` once per card, but `Cards.PrintPage` uses one `now` for the whole page, so the cards of one page share a printing date here. No contract depends on this. UUIDs are modelled as a fresh value. Random passwords are any value of the right form. Password hashing is not modelled.
- Username normalisation (NFKC) by `create_user` is not modelled. Usernames are compared as written. `normalize_email` is modelled with the Latin-1 lower-casing above.
- Concurrency and transactions are not modelled. Each operation is one sequential step, so the race between `count()` and the insert in `Membre.save` is left out.
- Where the database puts NULL `date_fin` in a descending order depends on the backend. It is the `nullsFirst` parameter of `History.Precedes`, and no lemma depends on it.
- Mandates.TerminerMandatBureau: `motif_fin` is assigned in the view, but `Mandat` has no such field, so nothing is stored.
- The per-mandate lists of bureau and committee rows and the statistics of `historique_fizato` are not modelled. Only the order of the mandates is.
- The order in which a queryset of members is iterated (`-created_at`) is modelled as the table order.
- Cascading deletes of members, associations and users are not modelled, except the cascade from a deleted bureau function to its rows.

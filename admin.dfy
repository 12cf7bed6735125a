/**
  The admin actions on members (membres/admin.py): creating a user account for
  each selected member that has none, with a username prenom.nom made unique by
  a counter, and printing fresh credentials for the selected members that have
  an account; and the read-only fields of the card admin.
*/
module Admin {
  import opened Wrappers
  import opened Text
  import opened Entities
  import opened Tables
  import opened Store

  // ---------------------------------------------------------------------------
  // Usernames
  // ---------------------------------------------------------------------------

  /** ''.join(secrets.choice(string.ascii_letters + string.digits) for _ in range(8)) */
  predicate IsPassword(p: string) {
    |p| == 8 && forall i :: 0 <= i < |p| ==> IsAsciiAlnum(p[i])
  }

  /** A password drawn as above; which one is left open. */
  method RandomPassword() returns (p: string)
    ensures IsPassword(p)
  {
    assert IsPassword("AAAAAAAA");
    p :| IsPassword(p);
  }

  /** User.objects.filter(username=name).exists() */
  predicate Taken(users: seq<User>, name: string) {
    exists i :: 0 <= i < |users| && users[i].username == name
  }

  /** The usernames in use. */
  function Names(users: seq<User>): (r: set<string>)
    ensures forall name :: name in r <==> Taken(users, name)
  {
    set i | 0 <= i < |users| :: users[i].username
  }

  /** f"{membre.prenom.lower()}.{membre.nom.lower()}" */
  function BaseUsername(m: Member): string {
    Lower(m.prenom) + "." + Lower(m.nom)
  }

  /** The n-th username tried: the base, then the base followed by 1, 2, ... */
  function Candidate(base: string, n: nat): string {
    if n == 0 then base else base + Decimal(n)
  }

  /** Different counters give different usernames. */
  lemma CandidateInjective(base: string, i: nat, j: nat)
    requires Candidate(base, i) == Candidate(base, j)
    ensures i == j
  {
    DecimalRoundTrip(i);
    DecimalRoundTrip(j);
    if i > 0 && j > 0 {
      assert Decimal(i) == Candidate(base, i)[|base|..];
      assert Decimal(j) == Candidate(base, j)[|base|..];
      DecimalInjective(i, j);
    }
  }

  /** The usernames tried before the n-th one. */
  function Tried(base: string, n: nat): set<string> {
    set j | 0 <= j < n :: Candidate(base, j)
  }

  /** n tries are n different usernames. */
  lemma {:induction false} TriedSize(base: string, n: nat)
    ensures |Tried(base, n)| == n
  {
    if n > 0 {
      TriedSize(base, n - 1);
      assert Tried(base, n) == Tried(base, n - 1) + {Candidate(base, n - 1)};
      if Candidate(base, n - 1) in Tried(base, n - 1) {
        var j :| 0 <= j < n - 1 && Candidate(base, j) == Candidate(base, n - 1);
        CandidateInjective(base, j, n - 1);
      }
    }
  }

  /** A set inside another is no larger. */
  lemma SubsetSize(a: set<string>, b: set<string>)
    requires a <= b
    ensures |a| <= |b|
  {
    assert b == a + (b - a);
  }

  /** The loop of create_user_accounts that looks for a free username: the base, then
      the base with counter 1, 2, ... The result is free, and every earlier candidate
      was taken. The loop ends because the taken candidates are distinct usernames. */
  method PickUsername(users: seq<User>, base: string) returns (username: string)
    ensures !Taken(users, username)
    ensures exists n: nat :: username == Candidate(base, n) && forall j :: 0 <= j < n ==> Taken(users, Candidate(base, j))
  {
    username := base;
    var counter := 1;
    while Taken(users, username)
      invariant counter >= 1 && username == Candidate(base, counter - 1)
      invariant forall j :: 0 <= j < counter - 1 ==> Taken(users, Candidate(base, j))
      invariant Tried(base, counter - 1) <= Names(users)
      decreases |Names(users)| - (counter - 1)
    {
      assert Tried(base, counter) == Tried(base, counter - 1) + {username};
      TriedSize(base, counter);
      SubsetSize(Tried(base, counter), Names(users));
      username := base + Decimal(counter);
      counter := counter + 1;
    }
  }

  /** The first free candidate is unique: two usernames found this way are the same. */
  lemma FreeCandidateUnique(users: seq<User>, base: string, n1: nat, n2: nat)
    requires !Taken(users, Candidate(base, n1)) && forall j :: 0 <= j < n1 ==> Taken(users, Candidate(base, j))
    requires !Taken(users, Candidate(base, n2)) && forall j :: 0 <= j < n2 ==> Taken(users, Candidate(base, j))
    ensures n1 == n2
  {
  }

  // ---------------------------------------------------------------------------
  // create_user_accounts
  // ---------------------------------------------------------------------------

  /** The member with this key has no user yet. */
  predicate WithoutUser(ms: seq<Member>, id: nat) {
    FindMember(ms, id).Some? && ms[FindMember(ms, id).value].user.None?
  }

  /** Lookups by key agree on two tables that hold the same keys at the same places. */
  lemma {:induction false} FindMemberSameIds(a: seq<Member>, b: seq<Member>, id: nat)
    requires |a| == |b| && forall i :: 0 <= i < |a| ==> a[i].id == b[i].id
    ensures FindMember(a, id) == FindMember(b, id)
  {
    if a != [] {
      FindMemberSameIds(a[..|a| - 1], b[..|b| - 1], id);
    }
  }

  /** A user added at the end is found by its key, and every other key is found where
      it was. */
  lemma FindUserAppend(us: seq<User>, u: User, id: nat)
    ensures FindUser(us + [u], id) == if id == u.id then Some(|us|) else FindUser(us, id)
  {
    assert (us + [u])[..|us|] == us;
  }

  /** Creating a user with the next key and a free username, and linking a member without
      a user to it, keeps the constraints on members and users. */
  lemma AccountKeepsConstraints(ms: seq<Member>, us: seq<User>, next: nat, k: nat, u: User)
    requires MembersOk(ms) && UsersOk(us, next) && UserLinksOk(ms, us)
    requires k < |ms| && ms[k].user.None?
    requires u.id == next && !Taken(us, u.username)
    ensures var ms2 := ms[k := ms[k].(user := Some(next))];
      MembersOk(ms2) && UsersOk(us + [u], next + 1) && UserLinksOk(ms2, us + [u])
  {
    var x := ms[k].(user := Some(next));
    var ms2 := ms[k := x];
    forall i | 0 <= i < |ms| && ms[i].user.Some? ensures ms[i].user != Some(next) {
      var f := FindUser(us, ms[i].user.value).value;
      assert us[f].id < next;
    }
    forall i | 0 <= i < k ensures DistinctMembers(ms[i], x) {
      assert DistinctMembers(ms[i], ms[k]);
    }
    forall j | k < j < |ms| ensures DistinctMembers(x, ms[j]) {
      assert DistinctMembers(ms[k], ms[j]);
    }
    ReplacePairwise(ms, k, x, DistinctMembers);
    forall i | 0 <= i < |us| ensures DistinctUsers(us[i], u) {
      assert us[i].username != u.username;
    }
    AppendPairwise(us, u, DistinctUsers);
    forall i | 0 <= i < |ms2| && ms2[i].user.Some? ensures FindUser(us + [u], ms2[i].user.value).Some? {
      FindUserAppend(us, u, ms2[i].user.value);
    }
  }

  // ---------------------------------------------------------------------------
  // E-mail addresses
  // ---------------------------------------------------------------------------

  /** The place of the last '@' of s, where str.rsplit("@", 1) splits. */
  function LastAt(s: string): (r: Option<nat>)
    ensures r.Some? ==> r.value < |s| && s[r.value] == '@' && forall j :: r.value < j < |s| ==> s[j] != '@'
    ensures r.None? <==> '@' !in s
  {
    if s == [] then None
    else if s[|s| - 1] == '@' then Some(|s| - 1)
    else LastAt(s[..|s| - 1])
  }

  /** BaseUserManager.normalize_email, which create_user applies: the stripped address is
      split at its last '@' and the domain is lower-cased; an address without '@' is
      stored as given. */
  function NormalizeEmail(e: string): string {
    var t := Strip(e);
    match LastAt(t)
      case None => e
      case Some(at) => t[..at] + "@" + Lower(t[at + 1..])
  }

  /** What normalize_email keeps and what it changes: an address without '@' is kept;
      otherwise the result is the stripped address, as long, with the same characters up
      to its last '@' and each character after it lower-cased. */
  lemma NormalizeEmailFacts(e: string)
    ensures '@' !in Strip(e) ==> NormalizeEmail(e) == e
    ensures '@' in Strip(e) ==>
      var t := Strip(e);
      var r := NormalizeEmail(e);
      var at := LastAt(t).value;
      && |r| == |t| && r[..at + 1] == t[..at + 1]
      && forall j :: at < j < |t| ==> r[j] == LowerChar(t[j])
  {
  }

  /** Lower-casing neither makes nor removes whitespace or an '@', and is idempotent. */
  lemma LowerCharFacts(c: char)
    ensures IsSpace(LowerChar(c)) == IsSpace(c)
    ensures LowerChar(c) == '@' <==> c == '@'
    ensures LowerChar(LowerChar(c)) == LowerChar(c)
  {
  }

  /** Lower-casing twice is lower-casing once. */
  lemma LowerIdempotent(d: string)
    ensures Lower(Lower(d)) == Lower(d)
  {
    forall j | 0 <= j < |d| ensures LowerChar(LowerChar(d[j])) == LowerChar(d[j]) {
      LowerCharFacts(d[j]);
    }
  }

  /** Lower-casing after the last '@' of a trimmed address leaves it trimmed. */
  lemma LoweredStaysTrimmed(t: string, at: nat)
    requires at < |t| && !IsSpace(t[0]) && !IsSpace(t[|t| - 1])
    ensures var r := t[..at] + "@" + Lower(t[at + 1..]); Strip(r) == r
  {
    var r := t[..at] + "@" + Lower(t[at + 1..]);
    assert r[0] == t[0] || r[0] == '@';
    if at + 1 < |t| {
      LowerCharFacts(t[|t| - 1]);
      assert r[|r| - 1] == LowerChar(t[|t| - 1]);
    }
    StripTrimmed(r);
  }

  /** Lower-casing after the last '@' keeps it the last '@'. */
  lemma LoweredKeepsLastAt(t: string, at: nat)
    requires LastAt(t) == Some(at)
    ensures LastAt(t[..at] + "@" + Lower(t[at + 1..])) == Some(at)
  {
    var r := t[..at] + "@" + Lower(t[at + 1..]);
    forall j | at < j < |r| ensures r[j] != '@' {
      LowerCharFacts(t[j]);
    }
    assert r[at] == '@';
  }

  /** A normalised address is normal: normalising it again changes nothing. */
  lemma NormalizeEmailIdempotent(e: string)
    ensures NormalizeEmail(NormalizeEmail(e)) == NormalizeEmail(e)
  {
    var t := Strip(e);
    if '@' in t {
      var at := LastAt(t).value;
      var d := Lower(t[at + 1..]);
      var r := t[..at] + "@" + d;
      assert NormalizeEmail(e) == r;
      StripCharacterized(e);
      LoweredStaysTrimmed(t, at);
      LoweredKeepsLastAt(t, at);
      assert r[..at] == t[..at] && r[at + 1..] == d;
      LowerIdempotent(t[at + 1..]);
      assert NormalizeEmail(r) == r[..at] + "@" + Lower(r[at + 1..]);
    }
  }

  /** name is the first free candidate for base among users: it is free, and every
      earlier candidate is taken. */
  ghost predicate FirstFreeName(users: seq<User>, base: string, name: string) {
    && !Taken(users, name)
    && exists n: nat :: name == Candidate(base, n) && forall j :: 0 <= j < n ==> Taken(users, Candidate(base, j))
  }

  /** The account create_user_accounts makes for m when the users were prior: the first
      free username for prenom.nom, a password of 8 letters and digits, the member's
      names, and its email (or "") as normalize_email stores it. */
  ghost predicate IssuedFor(prior: seq<User>, u: User, m: Member) {
    && FirstFreeName(prior, BaseUsername(m), u.username) && IsPassword(u.password)
    && u.firstName == m.prenom && u.lastName == m.nom
    && u.email == NormalizeEmail(if m.email.Some? then m.email.value else "")
  }

  /** One account, as IssuedFor says, with the next key; the member is linked to the
      new user (save only writes the row, since the number is already set). */
  method CreateAccount(db: Db, k: nat) returns (user: User)
    requires db.Valid() && k < |db.members| && db.members[k].user.None?
    modifies db`members, db`users, db`nextUser
    ensures db.Valid()
    ensures user.id == old(db.nextUser) && IssuedFor(old(db.users), user, old(db.members[k]))
    ensures db.users == old(db.users) + [user] && db.nextUser == old(db.nextUser) + 1
    ensures db.members == old(db.members)[k := old(db.members[k]).(user := Some(user.id))]
  {
    var membre := db.members[k];
    var username := PickUsername(db.users, BaseUsername(membre));
    var password := RandomPassword();
    var email := NormalizeEmail(if membre.email.Some? then membre.email.value else "");
    user := User(db.nextUser, username, password, membre.prenom, membre.nom, email);
    AccountKeepsConstraints(db.members, db.users, db.nextUser, k, user);
    db.users := db.users + [user];
    db.members := db.members[k := membre.(user := Some(user.id))];
    db.nextUser := db.nextUser + 1;
  }

  /** After the members with the keys in done were processed: only user links changed,
      a member that was not processed or already had a user is as it was, and every
      processed member has a user. */
  predicate Progress(ms: seq<Member>, m0: seq<Member>, done: seq<nat>) {
    && |ms| == |m0|
    && (forall k :: 0 <= k < |ms| ==> ms[k] == m0[k].(user := ms[k].user))
    && (forall k :: 0 <= k < |ms| && (m0[k].id !in done || m0[k].user.Some?) ==> ms[k] == m0[k])
    && (forall k :: 0 <= k < |ms| && m0[k].id in done ==> ms[k].user.Some?)
  }

  /** The user at position j has key uid and is the account issued for m, given the
      users before it. */
  ghost predicate IssuedAt(us: seq<User>, j: nat, uid: nat, m: Member) {
    j < |us| && us[j].id == uid && IssuedFor(us[..j], us[j], m)
  }

  /** Every processed member that had no user is linked to the account made for it.
      Accounts are appended in the order of done: the member at position p of done has
      the user at from plus the number of accounts made for done[..p]. */
  ghost predicate AccountsFor(ms: seq<Member>, m0: seq<Member>, us: seq<User>, from: nat, done: seq<nat>)
    requires |ms| == |m0|
  {
    forall k, p :: 0 <= k < |ms| && 0 <= p < |done| && done[p] == m0[k].id && m0[k].user.None? ==>
      ms[k].user.Some? && IssuedAt(us, from + Count(done[..p], WithoutUser, m0), ms[k].user.value, m0[k])
  }

  /** A selected key whose member is missing or already has a user is skipped. */
  lemma SkipStep(ms: seq<Member>, m0: seq<Member>, us: seq<User>, from: nat, done: seq<nat>, id: nat)
    requires MembersOk(m0) && Progress(ms, m0, done) && AccountsFor(ms, m0, us, from, done)
    requires !WithoutUser(m0, id)
    ensures Progress(ms, m0, done + [id]) && AccountsFor(ms, m0, us, from, done + [id])
  {
    assert forall a, b :: 0 <= a < b < |m0| ==> m0[a].id != m0[b].id;
    forall k | 0 <= k < |m0| && m0[k].id == id
      ensures m0[k].user.Some?
    {
      assert FindMember(m0, id).value == k;
    }
    var done2 := done + [id];
    forall k, p | 0 <= k < |ms| && 0 <= p < |done2| && done2[p] == m0[k].id && m0[k].user.None?
      ensures ms[k].user.Some? && IssuedAt(us, from + Count(done2[..p], WithoutUser, m0), ms[k].user.value, m0[k])
    {
      assert done2[..p] == done[..p] && done2[p] == done[p];
    }
  }

  /** A selected member without a user is linked to a user appended for it. */
  lemma LinkStep(ms: seq<Member>, m0: seq<Member>, us: seq<User>, from: nat, done: seq<nat>, k: nat, u: User)
    requires MembersOk(m0) && Progress(ms, m0, done) && AccountsFor(ms, m0, us, from, done)
    requires |us| == from + Count(done, WithoutUser, m0)
    requires k < |m0| && m0[k].id !in done && m0[k].user.None?
    requires IssuedFor(us, u, m0[k])
    ensures var ms2 := ms[k := ms[k].(user := Some(u.id))];
      Progress(ms2, m0, done + [m0[k].id]) && AccountsFor(ms2, m0, us + [u], from, done + [m0[k].id])
  {
    LinkAccounts(ms, m0, us, from, done, k, u);
  }

  /** Appending the account issued for m puts it at the next position. */
  lemma IssuedNext(us: seq<User>, u: User, m: Member)
    requires IssuedFor(us, u, m)
    ensures IssuedAt(us + [u], |us|, u.id, m)
  {
    assert (us + [u])[..|us|] == us;
  }

  /** Appending a user leaves the accounts already issued where they were. */
  lemma IssuedKept(us: seq<User>, u: User, j: nat, uid: nat, m: Member)
    requires IssuedAt(us, j, uid, m)
    ensures IssuedAt(us + [u], j, uid, m)
  {
    assert (us + [u])[..j] == us[..j];
  }

  /** The account appended for the member at k sits at the next position, and the
      accounts of the members processed before stay where they were. */
  lemma LinkAccounts(ms: seq<Member>, m0: seq<Member>, us: seq<User>, from: nat, done: seq<nat>, k: nat, u: User)
    requires MembersOk(m0) && |ms| == |m0| && AccountsFor(ms, m0, us, from, done)
    requires |us| == from + Count(done, WithoutUser, m0)
    requires k < |m0| && m0[k].id !in done && m0[k].user.None?
    requires IssuedFor(us, u, m0[k])
    ensures AccountsFor(ms[k := ms[k].(user := Some(u.id))], m0, us + [u], from, done + [m0[k].id])
  {
    var ms2 := ms[k := ms[k].(user := Some(u.id))];
    var us2 := us + [u];
    var done2 := done + [m0[k].id];
    forall i, p | 0 <= i < |ms2| && 0 <= p < |done2| && done2[p] == m0[i].id && m0[i].user.None?
      ensures ms2[i].user.Some? && IssuedAt(us2, from + Count(done2[..p], WithoutUser, m0), ms2[i].user.value, m0[i])
    {
      if i == k {
        assert p == |done| && done2[..p] == done;
        IssuedNext(us, u, m0[k]);
      } else {
        assert i < k ==> DistinctMembers(m0[i], m0[k]);
        assert k < i ==> DistinctMembers(m0[k], m0[i]);
        assert p < |done| && done2[..p] == done[..p] && done2[p] == done[p];
        IssuedKept(us, u, from + Count(done[..p], WithoutUser, m0), ms[i].user.value, m0[i]);
      }
    }
  }

  /** The state of create_user_accounts after the keys in done: created accounts were
      appended to the users u0 with the keys from n0 on, one for each processed member
      that had no user, and the members are linked as Progress and AccountsFor say. */
  ghost predicate Made(ms: seq<Member>, m0: seq<Member>, us: seq<User>, u0: seq<User>, next: nat, n0: nat, done: seq<nat>, created: nat) {
    && created == Count(done, WithoutUser, m0)
    && |us| == |u0| + created && us[..|u0|] == u0 && next == n0 + created
    && Progress(ms, m0, done) && AccountsFor(ms, m0, us, |u0|, done)
  }

  /** One turn of the loop of create_user_accounts: the member with key id gets an account
      exactly when it exists and has none. */
  method AccountStep(db: Db, ghost m0: seq<Member>, ghost u0: seq<User>, ghost n0: nat, ghost done: seq<nat>, created: nat, id: nat)
    returns (added: bool)
    requires MembersOk(m0) && db.Valid() && id !in done
    requires Made(db.members, m0, db.users, u0, db.nextUser, n0, done, created)
    modifies db`members, db`users, db`nextUser
    ensures added == WithoutUser(m0, id) && db.Valid()
    ensures Made(db.members, m0, db.users, u0, db.nextUser, n0, done + [id], created + if added then 1 else 0)
  {
    CountSnoc(done, id, WithoutUser, m0);
    FindMemberSameIds(db.members, m0, id);
    var f := FindMember(db.members, id);
    if f.Some? && db.members[f.value].user.None? {
      var k := f.value;
      ghost var ms, us := db.members, db.users;
      var user := CreateAccount(db, k);
      LinkStep(ms, m0, us, |u0|, done, k, user);
      assert db.users[..|u0|] == us[..|u0|];
      added := true;
    } else {
      SkipStep(db.members, m0, db.users, |u0|, done, id);
      added := false;
    }
  }

  /** create_user_accounts: each selected member without a user gets an account made by
      CreateAccount and is linked to it; the others are left as they were. created counts
      the accounts made, which are appended to the users. */
  method CreateUserAccounts(db: Db, selected: seq<nat>) returns (created: nat)
    requires db.Valid() && Pairwise(selected, Differ)
    modifies db`members, db`users, db`nextUser
    ensures db.Valid()
    ensures created == Count(selected, WithoutUser, old(db.members))
    ensures |db.users| == |old(db.users)| + created && db.users[..|old(db.users)|] == old(db.users)
    ensures db.nextUser == old(db.nextUser) + created
    ensures Progress(db.members, old(db.members), selected)
    ensures AccountsFor(db.members, old(db.members), db.users, |old(db.users)|, selected)
  {
    ghost var m0 := db.members;
    ghost var u0 := db.users;
    ghost var n0 := db.nextUser;
    assert MembersOk(m0);
    created := 0;
    var i := 0;
    while i < |selected|
      invariant 0 <= i <= |selected| && db.Valid()
      invariant Made(db.members, m0, db.users, u0, db.nextUser, n0, selected[..i], created)
    {
      var id := selected[i];
      assert selected[..i + 1] == selected[..i] + [id];
      assert id !in selected[..i] by {
        forall t | 0 <= t < i ensures selected[t] != id {
          assert Differ(selected[t], selected[i]);
        }
      }
      var added := AccountStep(db, m0, u0, n0, selected[..i], created, id);
      if added {
        created := created + 1;
      }
      i := i + 1;
    }
    assert selected[..i] == selected;
  }

  // ---------------------------------------------------------------------------
  // print_credentials
  // ---------------------------------------------------------------------------

  /** One line of the printed sheet: the member, its username and its new password. */
  datatype Credential = Credential(membre: nat, username: string, password: string)

  /** filter(user__isnull=False): the member with this key has a user. */
  predicate WithUser(ms: seq<Member>, id: nat) {
    FindMember(ms, id).Some? && ms[FindMember(ms, id).value].user.Some?
  }

  /** Two keys of a queryset are different rows. */
  predicate Differ(a: nat, b: nat) {
    a != b
  }

  /** membre.user: the place of the user linked to the member with this key. */
  function AccountIndex(ms: seq<Member>, us: seq<User>, id: nat): (r: Option<nat>)
    ensures r.Some? ==> (r.value < |us| && WithUser(ms, id)
      && us[r.value].id == ms[FindMember(ms, id).value].user.value)
  {
    var f := FindMember(ms, id);
    if f.None? || ms[f.value].user.None? then None else FindUser(us, ms[f.value].user.value)
  }

  /** A member with a user always reaches it: the link names a stored user. */
  lemma AccountFound(ms: seq<Member>, us: seq<User>, id: nat)
    requires UserLinksOk(ms, us) && WithUser(ms, id)
    ensures AccountIndex(ms, us, id).Some?
  {
    var f := FindMember(ms, id).value;
    assert FindUser(us, ms[f].user.value).Some?;
  }

  /** Two different members never share a user, so their passwords are set on two
      different rows. */
  lemma DistinctAccounts(ms: seq<Member>, us: seq<User>, a: nat, b: nat)
    requires MembersOk(ms) && a != b
    requires AccountIndex(ms, us, a).Some? && AccountIndex(ms, us, b).Some?
    ensures AccountIndex(ms, us, a) != AccountIndex(ms, us, b)
  {
    var fa, fb := FindMember(ms, a).value, FindMember(ms, b).value;
    assert fa != fb;
    assert fa < fb ==> DistinctMembers(ms[fa], ms[fb]);
    assert fb < fa ==> DistinctMembers(ms[fb], ms[fa]);
  }

  /** Lookups by key agree on two user tables that hold the same keys at the same places. */
  lemma {:induction false} FindUserSameIds(a: seq<User>, b: seq<User>, id: nat)
    requires |a| == |b| && forall i :: 0 <= i < |a| ==> a[i].id == b[i].id
    ensures FindUser(a, id) == FindUser(b, id)
  {
    if a != [] {
      FindUserSameIds(a[..|a| - 1], b[..|b| - 1], id);
    }
  }

  /** A member reaches the same place in two user tables that hold the same keys at the
      same places. */
  lemma AccountIndexSameIds(ms: seq<Member>, a: seq<User>, b: seq<User>, id: nat)
    requires |a| == |b| && forall i :: 0 <= i < |a| ==> a[i].id == b[i].id
    ensures AccountIndex(ms, a, id) == AccountIndex(ms, b, id)
  {
    var m := FindMember(ms, id);
    if m.Some? && ms[m.value].user.Some? {
      FindUserSameIds(a, b, ms[m.value].user.value);
    }
  }

  /** set_password changes one user's password and keeps every constraint and every link. */
  lemma PasswordKeepsConstraints(ms: seq<Member>, us: seq<User>, next: nat, f: nat, p: string)
    requires UsersOk(us, next) && UserLinksOk(ms, us) && f < |us|
    ensures var us2 := us[f := us[f].(password := p)];
      UsersOk(us2, next) && UserLinksOk(ms, us2)
  {
    var us2 := us[f := us[f].(password := p)];
    forall i | 0 <= i < f ensures DistinctUsers(us[i], us2[f]) {
      assert DistinctUsers(us[i], us[f]);
    }
    forall j | f < j < |us| ensures DistinctUsers(us2[f], us[j]) {
      assert DistinctUsers(us[f], us[j]);
    }
    ReplacePairwise(us, f, us2[f], DistinctUsers);
    forall i | 0 <= i < |ms| && ms[i].user.Some? ensures FindUser(us2, ms[i].user.value).Some? {
      FindUserSameIds(us2, us, ms[i].user.value);
    }
  }

  /** us differs from u0 only in passwords. */
  predicate OnlyPasswords(u0: seq<User>, us: seq<User>) {
    |us| == |u0| && forall j :: 0 <= j < |u0| ==> us[j] == u0[j].(password := us[j].password)
  }

  /** Each printed line names the selected member at its place, the username of its user
      and a password of 8 letters and digits that the user now has. */
  predicate Lines(ms: seq<Member>, u0: seq<User>, us: seq<User>, sel: seq<nat>, creds: seq<Credential>)
    requires |creds| <= |sel| && |us| == |u0|
  {
    forall t :: 0 <= t < |creds| ==>
      && creds[t].membre == sel[t] && IsPassword(creds[t].password)
      && AccountIndex(ms, u0, sel[t]).Some?
      && var j := AccountIndex(ms, u0, sel[t]).value;
        creds[t].username == u0[j].username && us[j].password == creds[t].password
  }

  /** Only the users of printed members differ from u0. */
  predicate OnlyPrinted(ms: seq<Member>, u0: seq<User>, us: seq<User>, creds: seq<Credential>)
    requires |us| == |u0|
  {
    forall j :: 0 <= j < |u0| && us[j] != u0[j] ==>
      exists t :: 0 <= t < |creds| && AccountIndex(ms, u0, creds[t].membre) == Some(j)
  }

  /** The credentials printed so far for the first |creds| selected members: users differ
      from u0 only in their passwords, and only those of the printed members. */
  predicate Printed(ms: seq<Member>, u0: seq<User>, us: seq<User>, sel: seq<nat>, creds: seq<Credential>) {
    && |creds| <= |sel| && OnlyPasswords(u0, us)
    && Lines(ms, u0, us, sel, creds) && OnlyPrinted(ms, u0, us, creds)
  }

  /** One more line: the earlier lines keep their passwords, since their users are others. */
  lemma LinesStep(ms: seq<Member>, u0: seq<User>, us: seq<User>, sel: seq<nat>, creds: seq<Credential>, p: string, f: nat)
    requires MembersOk(ms) && Pairwise(sel, Differ)
    requires |creds| < |sel| && |us| == |u0| && Lines(ms, u0, us, sel, creds) && IsPassword(p)
    requires OnlyPasswords(u0, us) && AccountIndex(ms, u0, sel[|creds|]) == Some(f)
    ensures Lines(ms, u0, us[f := us[f].(password := p)], sel, creds + [Credential(sel[|creds|], us[f].username, p)])
  {
    var i := |creds|;
    var id := sel[i];
    var us2 := us[f := us[f].(password := p)];
    var creds2 := creds + [Credential(id, us[f].username, p)];
    forall t | 0 <= t < |creds2| ensures
      && creds2[t].membre == sel[t] && IsPassword(creds2[t].password)
      && AccountIndex(ms, u0, sel[t]).Some?
      && var j := AccountIndex(ms, u0, sel[t]).value;
        creds2[t].username == u0[j].username && us2[j].password == creds2[t].password
    {
      if t < i {
        assert creds2[t] == creds[t];
        assert Differ(sel[t], sel[i]);
        DistinctAccounts(ms, u0, sel[t], id);
      }
    }
  }

  /** One more line: the one user whose password changed is that of the new line. */
  lemma OnlyPrintedStep(ms: seq<Member>, u0: seq<User>, us: seq<User>, creds: seq<Credential>, c: Credential, p: string, f: nat)
    requires |us| == |u0| && OnlyPrinted(ms, u0, us, creds) && AccountIndex(ms, u0, c.membre) == Some(f)
    ensures OnlyPrinted(ms, u0, us[f := us[f].(password := p)], creds + [c])
  {
    var creds2 := creds + [c];
    forall j | 0 <= j < |u0| && us[f := us[f].(password := p)][j] != u0[j]
      ensures exists t :: 0 <= t < |creds2| && AccountIndex(ms, u0, creds2[t].membre) == Some(j)
    {
      if j == f {
        assert creds2[|creds|] == c;
      } else {
        var t :| 0 <= t < |creds| && AccountIndex(ms, u0, creds[t].membre) == Some(j);
        assert creds2[t] == creds[t];
      }
    }
  }

  /** One more selected member: its user gets the password p and the sheet one more line. */
  lemma PrintedStep(ms: seq<Member>, u0: seq<User>, us: seq<User>, sel: seq<nat>, creds: seq<Credential>, p: string, f: nat)
    requires MembersOk(ms) && UserLinksOk(ms, u0) && Pairwise(sel, Differ)
    requires Printed(ms, u0, us, sel, creds) && |creds| < |sel| && IsPassword(p)
    requires AccountIndex(ms, us, sel[|creds|]) == Some(f)
    ensures Printed(ms, u0, us[f := us[f].(password := p)], sel, creds + [Credential(sel[|creds|], us[f].username, p)])
  {
    AccountIndexSameIds(ms, us, u0, sel[|creds|]);
    LinesStep(ms, u0, us, sel, creds, p, f);
    OnlyPrintedStep(ms, u0, us, creds, Credential(sel[|creds|], us[f].username, p), p, f);
  }

  /** print_credentials: for every selected member that has a user, in the queryset's
      order, a new password of 8 letters and digits is set on its user and printed with
      its username. Only passwords change, only on the users of those members. */
  method PrintCredentials(db: Db, selected: seq<nat>) returns (creds: seq<Credential>)
    requires db.Valid() && Pairwise(selected, Differ)
    modifies db`users
    ensures db.Valid()
    ensures |db.users| == |old(db.users)|
    ensures var sel := Select(selected, WithUser, db.members, true);
      && |creds| == |sel|
      && forall t :: 0 <= t < |creds| ==>
        && creds[t].membre == sel[t] && IsPassword(creds[t].password)
        && AccountIndex(db.members, old(db.users), sel[t]).Some?
        && var j := AccountIndex(db.members, old(db.users), sel[t]).value;
          creds[t].username == old(db.users)[j].username && db.users[j].password == creds[t].password
    ensures forall j :: 0 <= j < |db.users| ==> db.users[j] == old(db.users)[j].(password := db.users[j].password)
    ensures forall j :: 0 <= j < |db.users| && db.users[j] != old(db.users)[j] ==>
      exists t :: 0 <= t < |creds| && AccountIndex(db.members, old(db.users), creds[t].membre) == Some(j)
  {
    ghost var u0 := db.users;
    var sel := Select(selected, WithUser, db.members, true);
    SelectPairwise(selected, WithUser, db.members, true, Differ);
    creds := [];
    while |creds| < |sel|
      invariant db.Valid() && UserLinksOk(db.members, u0)
      invariant Printed(db.members, u0, db.users, sel, creds)
      decreases |sel| - |creds|
    {
      var entry := PrintOne(db, u0, sel, creds);
      creds := creds + [entry];
    }
  }

  /** One turn of the loop of print_credentials: the next selected member's user gets a
      new password, and the line for it is returned. */
  method PrintOne(db: Db, ghost u0: seq<User>, sel: seq<nat>, creds: seq<Credential>) returns (entry: Credential)
    requires db.Valid() && UserLinksOk(db.members, u0) && Pairwise(sel, Differ)
    requires Printed(db.members, u0, db.users, sel, creds) && |creds| < |sel|
    requires forall t :: 0 <= t < |sel| ==> WithUser(db.members, sel[t])
    modifies db`users
    ensures db.Valid() && Printed(db.members, u0, db.users, sel, creds + [entry])
  {
    var id := sel[|creds|];
    var password := RandomPassword();
    AccountFound(db.members, db.users, id);
    var f := AccountIndex(db.members, db.users, id).value;
    PrintedStep(db.members, u0, db.users, sel, creds, password, f);
    PasswordKeepsConstraints(db.members, db.users, db.nextUser, f, password);
    entry := Credential(id, db.users[f].username, password);
    db.users := db.users[f := db.users[f].(password := password)];
  }

  // ---------------------------------------------------------------------------
  // CarteMembreAdmin.get_readonly_fields
  // ---------------------------------------------------------------------------

  /** CarteMembreAdmin.readonly_fields */
  const CardReadonlyFields: seq<string> := ["numero_unique", "date_generation", "date_impression"]

  /** get_readonly_fields: the read-only fields, plus membre when an existing card is edited. */
  function GetReadonlyFields(readonlyFields: seq<string>, editing: bool): (r: seq<string>)
    ensures |r| == |readonlyFields| + (if editing then 1 else 0)
    ensures r[..|readonlyFields|] == readonlyFields
    ensures "membre" in r <==> editing || "membre" in readonlyFields
  {
    if editing then readonlyFields + ["membre"] else readonlyFields
  }
}

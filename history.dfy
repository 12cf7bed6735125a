/**
  The order in which historique_fizato lists the mandates: annotated with
  tri_ordre (0 for the current mandate, 1 for the others) and ordered by
  ('tri_ordre', '-date_fin', '-date_debut'). Where the database puts a NULL
  date_fin in a descending order depends on the backend, so it is a parameter.
*/
module History {
  import opened Wrappers
  import opened Entities

  /** The annotation tri_ordre. */
  function TriOrdre(m: Mandat): nat {
    if m.estActuel then 0 else 1
  }

  /** a comes strictly before b on '-date_fin'; nullsFirst says where the backend puts NULL. */
  predicate EndsFirst(a: Option<Date>, b: Option<Date>, nullsFirst: bool) {
    match (a, b)
    case (Some(x), Some(y)) => DateBefore(y, x)
    case (None, Some(_)) => nullsFirst
    case (Some(_), None) => !nullsFirst
    case (None, None) => false
  }

  /** a comes strictly before b under order_by('tri_ordre', '-date_fin', '-date_debut'). */
  predicate Precedes(a: Mandat, b: Mandat, nullsFirst: bool) {
    || TriOrdre(a) < TriOrdre(b)
    || (TriOrdre(a) == TriOrdre(b) && EndsFirst(a.dateFin, b.dateFin, nullsFirst))
    || (TriOrdre(a) == TriOrdre(b) && a.dateFin == b.dateFin && DateBefore(b.dateDebut, a.dateDebut))
  }

  /** No mandate is listed after one that should come after it. */
  predicate Ordered(s: seq<Mandat>, nullsFirst: bool) {
    forall i, j :: 0 <= i < j < |s| ==> !Precedes(s[j], s[i], nullsFirst)
  }

  /** The order is a strict one: never both ways. */
  lemma PrecedesAsymmetric(a: Mandat, b: Mandat, nullsFirst: bool)
    ensures !(Precedes(a, b, nullsFirst) && Precedes(b, a, nullsFirst))
  {
  }

  /** Being listed no later is transitive, so ties form classes and the order is a
      ranking of them. */
  lemma NoLaterTransitive(a: Mandat, b: Mandat, c: Mandat, nullsFirst: bool)
    requires !Precedes(b, a, nullsFirst) && !Precedes(c, b, nullsFirst)
    ensures !Precedes(c, a, nullsFirst)
  {
  }

  /** Insert x into an ordered list, before the first mandate that does not precede it. */
  function Insert(x: Mandat, s: seq<Mandat>, nullsFirst: bool): (r: seq<Mandat>)
    requires Ordered(s, nullsFirst)
    ensures multiset(r) == multiset(s) + multiset{x}
    ensures Ordered(r, nullsFirst)
  {
    if s == [] then [x]
    else if Precedes(s[0], x, nullsFirst) then
      var rest := Insert(x, s[1..], nullsFirst);
      assert s == [s[0]] + s[1..];
      PrecedesAsymmetric(s[0], x, nullsFirst);
      InsertOrdered(s[0], rest, s[1..], x, nullsFirst);
      [s[0]] + rest
    else
      PrependOrdered(x, s, nullsFirst);
      [x] + s
  }

  /** The head s0 stays first when what follows it is ordered and made of the rows that
      followed it plus one that s0 precedes. */
  lemma InsertOrdered(s0: Mandat, rest: seq<Mandat>, tail: seq<Mandat>, x: Mandat, nullsFirst: bool)
    requires Ordered(rest, nullsFirst) && Ordered([s0] + tail, nullsFirst)
    requires multiset(rest) == multiset(tail) + multiset{x}
    requires !Precedes(x, s0, nullsFirst)
    ensures Ordered([s0] + rest, nullsFirst)
  {
    var r := [s0] + rest;
    forall i, j | 0 <= i < j < |r| ensures !Precedes(r[j], r[i], nullsFirst) {
      if i == 0 {
        assert r[j] == rest[j - 1];
        assert rest[j - 1] in multiset(rest);
        if rest[j - 1] != x {
          assert rest[j - 1] in multiset(tail);
          var k :| 0 <= k < |tail| && tail[k] == rest[j - 1];
          var t := [s0] + tail;
          assert t[0] == s0 && t[k + 1] == tail[k];
          assert !Precedes(t[k + 1], t[0], nullsFirst);
        }
      } else {
        assert r[i] == rest[i - 1] && r[j] == rest[j - 1];
      }
    }
  }

  /** A mandate that the head of an ordered list does not precede can go in front of it. */
  lemma PrependOrdered(x: Mandat, s: seq<Mandat>, nullsFirst: bool)
    requires s != [] && Ordered(s, nullsFirst) && !Precedes(s[0], x, nullsFirst)
    ensures Ordered([x] + s, nullsFirst)
  {
    var r := [x] + s;
    forall i, j | 0 <= i < j < |r| ensures !Precedes(r[j], r[i], nullsFirst) {
      if i == 0 {
        assert r[j] == s[j - 1];
        if j > 1 {
          NoLaterTransitive(x, s[0], s[j - 1], nullsFirst);
        }
      } else {
        assert r[i] == s[i - 1] && r[j] == s[j - 1];
      }
    }
  }

  /** The mandates as historique_fizato lists them: the same mandates, ordered. */
  function HistoryOrder(ms: seq<Mandat>, nullsFirst: bool): (r: seq<Mandat>)
    ensures multiset(r) == multiset(ms)
    ensures Ordered(r, nullsFirst)
  {
    if ms == [] then []
    else
      assert ms == [ms[0]] + ms[1..];
      Insert(ms[0], HistoryOrder(ms[1..], nullsFirst), nullsFirst)
  }

  /** The current mandate, when there is one, is listed first; every current mandate
      comes before every archived one. */
  lemma {:induction false} CurrentFirst(ms: seq<Mandat>, nullsFirst: bool)
    ensures var r := HistoryOrder(ms, nullsFirst);
      && ((exists m :: m in ms && m.estActuel) ==> r[0].estActuel)
      && (forall i, j :: 0 <= i < j < |r| && r[j].estActuel ==> r[i].estActuel)
  {
    var r := HistoryOrder(ms, nullsFirst);
    if m :| m in ms && m.estActuel {
      assert m in multiset(r);
      var j :| 0 <= j < |r| && r[j] == m;
      if j > 0 {
        assert !Precedes(r[j], r[0], nullsFirst);
      }
    }
    forall i, j | 0 <= i < j < |r| && r[j].estActuel ensures r[i].estActuel {
      assert !Precedes(r[j], r[i], nullsFirst);
    }
  }

  /** Among the archived mandates, one that ended later is listed earlier; mandates that
      ended the same day are listed by start date, the later first. */
  lemma {:induction false} ArchivedByEndDate(ms: seq<Mandat>, nullsFirst: bool, i: nat, j: nat)
    requires var r := HistoryOrder(ms, nullsFirst);
      && i < j < |r| && !r[i].estActuel && !r[j].estActuel
      && r[i].dateFin.Some? && r[j].dateFin.Some?
    ensures var r := HistoryOrder(ms, nullsFirst);
      && !DateBefore(r[i].dateFin.value, r[j].dateFin.value)
      && (r[i].dateFin == r[j].dateFin ==> !DateBefore(r[i].dateDebut, r[j].dateDebut))
  {
    var r := HistoryOrder(ms, nullsFirst);
    assert !Precedes(r[j], r[i], nullsFirst);
  }
}

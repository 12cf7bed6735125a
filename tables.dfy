/**
  Queries over a table held as a sequence of rows: the ORM's filter(...), its
  count() and exists(), what delete() leaves behind, and the fact that deleting
  or adding rows keeps a pairwise constraint. A condition is a function of a
  parameter (the value the query compares with) and of the row, so that one
  named predicate serves every parameter.
*/
module Tables {

  /** Every two rows, taken in table order, are related by rel. */
  predicate Pairwise<T>(s: seq<T>, rel: (T, T) -> bool) {
    forall i, j :: 0 <= i < j < |s| ==> rel(s[i], s[j])
  }

  /** The rows whose condition has the wanted value, in table order:
      filter(cond) when want is true, and what filter(cond).delete() leaves
      when want is false. */
  function Select<C, T(!new)>(s: seq<T>, cond: (C, T) -> bool, c: C, want: bool): (r: seq<T>)
    ensures |r| <= |s|
    ensures forall i :: 0 <= i < |r| ==> cond(c, r[i]) == want
  {
    if s == [] then []
    else (if cond(c, s[0]) == want then [s[0]] else []) + Select(s[1..], cond, c, want)
  }

  /** A row is selected exactly when it is in the table and its condition has the wanted value. */
  lemma {:induction false} SelectIn<C, T(!new)>(s: seq<T>, cond: (C, T) -> bool, c: C, want: bool)
    ensures forall x :: x in Select(s, cond, c, want) <==> x in s && cond(c, x) == want
  {
    if s != [] {
      SelectIn(s[1..], cond, c, want);
      assert s == [s[0]] + s[1..];
    }
  }

  /** filter(cond).count() */
  function Count<C, T(!new)>(s: seq<T>, cond: (C, T) -> bool, c: C): nat {
    if s == [] then 0
    else (if cond(c, s[0]) then 1 else 0) + Count(s[1..], cond, c)
  }

  /** The selected rows are as many as the count reports, and deleting them
      removes exactly that many. */
  lemma {:induction false} SelectLength<C, T(!new)>(s: seq<T>, cond: (C, T) -> bool, c: C)
    ensures |Select(s, cond, c, true)| == Count(s, cond, c)
    ensures |Select(s, cond, c, false)| == |s| - Count(s, cond, c)
  {
    if s != [] {
      SelectLength(s[1..], cond, c);
    }
  }

  /** exists() is the same as count() > 0. */
  lemma {:induction false} CountPositive<C, T(!new)>(s: seq<T>, cond: (C, T) -> bool, c: C)
    ensures Count(s, cond, c) > 0 <==> exists x :: x in s && cond(c, x)
  {
    if s != [] {
      CountPositive(s[1..], cond, c);
      assert s == [s[0]] + s[1..];
    }
  }

  /** The count of a table with one more row at the end. */
  lemma {:induction false} CountSnoc<C, T(!new)>(s: seq<T>, x: T, cond: (C, T) -> bool, c: C)
    ensures Count(s + [x], cond, c) == Count(s, cond, c) + if cond(c, x) then 1 else 0
  {
    if s == [] {
      assert [x][1..] == [];
    } else {
      assert (s + [x])[1..] == s[1..] + [x];
      CountSnoc(s[1..], x, cond, c);
    }
  }

  /** A selection that every row passes keeps the table as it is. */
  lemma {:induction false} SelectAll<C, T(!new)>(s: seq<T>, cond: (C, T) -> bool, c: C, want: bool)
    requires forall x :: x in s ==> cond(c, x) == want
    ensures Select(s, cond, c, want) == s
  {
    if s != [] {
      SelectAll(s[1..], cond, c, want);
    }
  }

  /** Selecting twice is selecting once by a condition that means both. */
  lemma {:induction false} SelectTwice<C, D, E, T(!new)>(
    s: seq<T>, p: (C, T) -> bool, c: C, pw: bool, q: (D, T) -> bool, d: D, qw: bool, both: (E, T) -> bool, e: E, bw: bool)
    requires forall x :: x in s ==> (both(e, x) == bw <==> p(c, x) == pw && q(d, x) == qw)
    ensures Select(Select(s, p, c, pw), q, d, qw) == Select(s, both, e, bw)
  {
    if s != [] {
      SelectTwice(s[1..], p, c, pw, q, d, qw, both, e, bw);
      var once := Select(s[1..], p, c, pw);
      if p(c, s[0]) == pw {
        assert Select(s, p, c, pw) == [s[0]] + once;
        assert ([s[0]] + once)[1..] == once;
      } else {
        assert Select(s, p, c, pw) == once;
      }
    }
  }

  /** Rows that q counts and that a selection by p keeps are counted the same after it. */
  lemma {:induction false} CountAfterSelect<C, D, T(!new)>(s: seq<T>, p: (C, T) -> bool, c: C, pw: bool, q: (D, T) -> bool, d: D)
    requires forall x :: x in s && q(d, x) ==> p(c, x) == pw
    ensures Count(Select(s, p, c, pw), q, d) == Count(s, q, d)
  {
    if s != [] {
      CountAfterSelect(s[1..], p, c, pw, q, d);
      var once := Select(s[1..], p, c, pw);
      if p(c, s[0]) == pw {
        assert Select(s, p, c, pw) == [s[0]] + once;
        assert ([s[0]] + once)[1..] == once;
      } else {
        assert Select(s, p, c, pw) == once;
      }
    }
  }

  /** Deleting rows keeps every pairwise constraint of the remaining ones. */
  lemma {:induction false} SelectPairwise<C, T(!new)>(s: seq<T>, cond: (C, T) -> bool, c: C, want: bool, rel: (T, T) -> bool)
    requires Pairwise(s, rel)
    ensures Pairwise(Select(s, cond, c, want), rel)
  {
    if s != [] {
      var rest := Select(s[1..], cond, c, want);
      assert Pairwise(s[1..], rel) by {
        forall i, j | 0 <= i < j < |s[1..]| ensures rel(s[1..][i], s[1..][j]) {
          assert s[1..][i] == s[i + 1] && s[1..][j] == s[j + 1];
        }
      }
      SelectPairwise(s[1..], cond, c, want, rel);
      SelectIn(s[1..], cond, c, want);
      if cond(c, s[0]) == want {
        var r := Select(s, cond, c, want);
        assert r == [s[0]] + rest;
        forall i, j | 0 <= i < j < |r| ensures rel(r[i], r[j]) {
          if i == 0 {
            assert r[j] == rest[j - 1];
            assert rest[j - 1] in s[1..];
            var k :| 0 <= k < |s[1..]| && s[1..][k] == rest[j - 1];
            assert s[1..][k] == s[k + 1];
          } else {
            assert r[i] == rest[i - 1] && r[j] == rest[j - 1];
          }
        }
      }
    }
  }

  /** Appending a row keeps a pairwise constraint when the new row is related to
      every row already there. */
  lemma AppendPairwise<T>(s: seq<T>, x: T, rel: (T, T) -> bool)
    requires Pairwise(s, rel)
    requires forall i :: 0 <= i < |s| ==> rel(s[i], x)
    ensures Pairwise(s + [x], rel)
  {
    var t := s + [x];
    forall i, j | 0 <= i < j < |t| ensures rel(t[i], t[j]) {
      if j < |s| {
        assert t[i] == s[i] && t[j] == s[j];
      } else {
        assert t[i] == s[i] && t[j] == x;
      }
    }
  }

  /** Replacing one row keeps a pairwise constraint when the new row is related to
      every other row, on both sides. */
  lemma ReplacePairwise<T>(s: seq<T>, k: nat, x: T, rel: (T, T) -> bool)
    requires k < |s|
    requires Pairwise(s, rel)
    requires forall i :: 0 <= i < k ==> rel(s[i], x)
    requires forall j :: k < j < |s| ==> rel(x, s[j])
    ensures Pairwise(s[k := x], rel)
  {
    var t := s[k := x];
    forall i, j | 0 <= i < j < |t| ensures rel(t[i], t[j]) {
      if i == k {
        assert t[i] == x && t[j] == s[j];
      } else if j == k {
        assert t[i] == s[i] && t[j] == x;
      } else {
        assert t[i] == s[i] && t[j] == s[j];
      }
    }
  }
}

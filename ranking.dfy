/**
 * The per-document ranking in `main`: `sorted(tfidf, key=score,
 * reverse=True)[:10]`. Python's sort is stable, also with `reverse=True`,
 * so pairs with equal scores keep their input order. The weights come from
 * gensim and are taken as given; a score here is a `real`.
 */
module Ranking {

  /** One `(id, score)` pair of `tfidf_model[corpus_bow[i]]`. */
  datatype Scored = Scored(id: nat, score: real)

  /** How many pairs of each document are reported. */
  const TopN: nat := 10

  /** Scores never increase along `s`. */
  predicate Descending(s: seq<Scored>)
  {
    forall i, j :: 0 <= i < j < |s| ==> s[i].score >= s[j].score
  }

  /** The pairs of `s` whose score is `v`, in their order in `s`. */
  function WithScore(s: seq<Scored>, v: real): seq<Scored>
  {
    if s == [] then []
    else (if s[0].score == v then [s[0]] else []) + WithScore(s[1..], v)
  }

  /** Puts `x` into the descending list `t` ahead of every pair whose score is not above its own. */
  function Insert(x: Scored, t: seq<Scored>): seq<Scored>
  {
    if t == [] || x.score >= t[0].score then [x] + t
    else [t[0]] + Insert(x, t[1..])
  }

  /** `sorted(s, key=lambda item: item[1], reverse=True)`. */
  function SortByScore(s: seq<Scored>): seq<Scored>
  {
    if s == [] then [] else Insert(s[0], SortByScore(s[1..]))
  }

  function Min(a: nat, b: nat): nat
  {
    if a <= b then a else b
  }

  /** `sorted(...)[:10]`. */
  function TopTen(s: seq<Scored>): seq<Scored>
  {
    var sorted := SortByScore(s);
    sorted[..Min(TopN, |sorted|)]
  }

  // Facts about WithScore.

  lemma WithScoreCons(x: Scored, t: seq<Scored>, v: real)
    ensures WithScore([x] + t, v) == (if x.score == v then [x] else []) + WithScore(t, v)
  {
    assert ([x] + t)[0] == x && ([x] + t)[1..] == t;
  }

  lemma {:induction false} WithScoreAppend(a: seq<Scored>, b: seq<Scored>, v: real)
    ensures WithScore(a + b, v) == WithScore(a, v) + WithScore(b, v)
  {
    if a == [] {
      assert a + b == b;
    } else {
      assert (a + b)[0] == a[0] && (a + b)[1..] == a[1..] + b;
      WithScoreAppend(a[1..], b, v);
    }
  }

  lemma {:induction false} WithScoreMembers(s: seq<Scored>, v: real)
    ensures forall x :: x in WithScore(s, v) <==> x in s && x.score == v
  {
    if s != [] {
      WithScoreMembers(s[1..], v);
      assert s == [s[0]] + s[1..];
    }
  }

  lemma WithScoreHead(s: seq<Scored>)
    requires s != []
    ensures WithScore(s, s[0].score) != [] && WithScore(s, s[0].score)[0] == s[0]
  {
  }

  // Insertion keeps the list descending, adds exactly `x`, and keeps ties in order.

  lemma {:induction false} InsertDescending(x: Scored, t: seq<Scored>)
    requires Descending(t)
    ensures |Insert(x, t)| == |t| + 1
    ensures Descending(Insert(x, t))
    ensures multiset(Insert(x, t)) == multiset(t) + multiset{x}
    ensures forall y :: y in Insert(x, t) ==> y == x || y in t
  {
    if t != [] && x.score < t[0].score {
      InsertDescending(x, t[1..]);
      var r := Insert(x, t[1..]);
      assert t == [t[0]] + t[1..];
      forall i, j | 0 <= i < j < |[t[0]] + r| ensures ([t[0]] + r)[i].score >= ([t[0]] + r)[j].score {
        if i == 0 {
          var y := r[j - 1];
          assert y in r;
        }
      }
    }
  }

  lemma DescendingTail(t: seq<Scored>)
    requires Descending(t) && t != []
    ensures Descending(t[1..])
  {
    forall i, j | 0 <= i < j < |t[1..]| ensures t[1..][i].score >= t[1..][j].score {
      assert t[1..][i] == t[i + 1] && t[1..][j] == t[j + 1];
    }
  }

  lemma {:induction false} InsertWithScore(x: Scored, t: seq<Scored>, v: real)
    requires Descending(t)
    ensures WithScore(Insert(x, t), v) == WithScore([x] + t, v)
  {
    if t != [] && x.score < t[0].score {
      var t0, t' := t[0], t[1..];
      var hx := if x.score == v then [x] else [];
      var h0 := if t0.score == v then [t0] else [];
      DescendingTail(t);
      InsertWithScore(x, t', v);
      assert Insert(x, t) == [t0] + Insert(x, t');
      WithScoreCons(t0, Insert(x, t'), v);
      WithScoreCons(x, t', v);
      assert hx == [] || h0 == [];
      assert h0 + (hx + WithScore(t', v)) == hx + (h0 + WithScore(t', v));
      assert t == [t0] + t';
      WithScoreCons(t0, t', v);
      WithScoreCons(x, t, v);
    }
  }

  /** The sorted list is descending and a permutation of the input. */
  lemma {:induction false} SortDescendingPermutation(s: seq<Scored>)
    ensures |SortByScore(s)| == |s|
    ensures Descending(SortByScore(s))
    ensures multiset(SortByScore(s)) == multiset(s)
  {
    if s != [] {
      SortDescendingPermutation(s[1..]);
      InsertDescending(s[0], SortByScore(s[1..]));
      assert s == [s[0]] + s[1..];
    }
  }

  /** The sort is stable: for every score, the pairs with that score keep their input order. */
  lemma {:induction false} SortStable(s: seq<Scored>, v: real)
    ensures WithScore(SortByScore(s), v) == WithScore(s, v)
  {
    if s != [] {
      SortStable(s[1..], v);
      SortDescendingPermutation(s[1..]);
      InsertWithScore(s[0], SortByScore(s[1..]), v);
      WithScoreCons(s[0], SortByScore(s[1..]), v);
    }
  }

  /**
   * A descending, stable arrangement is unique: two descending lists that
   * agree on the pairs of every score are equal.
   */
  lemma {:induction false} DescendingStableUnique(t: seq<Scored>, u: seq<Scored>)
    requires Descending(t) && Descending(u)
    requires forall v :: WithScore(t, v) == WithScore(u, v)
    ensures t == u
    decreases |t| + |u|
  {
    if t == [] || u == [] {
      if t != [] {
        WithScoreHead(t);
        assert false;
      } else if u != [] {
        WithScoreHead(u);
        assert false;
      }
    } else {
      var a, b := t[0], u[0];
      WithScoreMembers(t, b.score);
      WithScoreMembers(u, a.score);
      assert a in WithScore(u, a.score) by {
        assert a in WithScore(t, a.score);
      }
      assert b in WithScore(t, b.score) by {
        assert b in WithScore(u, b.score);
      }
      assert b.score >= a.score by {
        var k :| 0 <= k < |u| && u[k] == a;
      }
      assert a.score >= b.score by {
        var k :| 0 <= k < |t| && t[k] == b;
      }
      assert a == WithScore(t, a.score)[0] == WithScore(u, a.score)[0] == b;
      forall v ensures WithScore(t[1..], v) == WithScore(u[1..], v) {
        var h := if a.score == v then [a] else [];
        assert t == [a] + t[1..] && u == [a] + u[1..];
        WithScoreCons(a, t[1..], v);
        WithScoreCons(a, u[1..], v);
        assert h + WithScore(t[1..], v) == h + WithScore(u[1..], v);
        assert WithScore(t[1..], v) == (h + WithScore(t[1..], v))[|h|..];
      }
      DescendingTail(t);
      DescendingTail(u);
      DescendingStableUnique(t[1..], u[1..]);
      assert t == [a] + t[1..] && u == [b] + u[1..];
    }
  }

  /**
   * `SortByScore` is THE stable descending sort: any descending list that
   * keeps the pairs of every score in input order is exactly its result.
   */
  lemma SortByScoreCharacterized(s: seq<Scored>, t: seq<Scored>)
    requires Descending(t)
    requires forall v :: WithScore(t, v) == WithScore(s, v)
    ensures t == SortByScore(s)
  {
    SortDescendingPermutation(s);
    forall v ensures WithScore(t, v) == WithScore(SortByScore(s), v) {
      SortStable(s, v);
    }
    DescendingStableUnique(t, SortByScore(s));
  }

  /** `min(10, len(tfidf))` pairs, descending, all taken from the input. */
  lemma TopTenSpec(s: seq<Scored>)
    ensures |TopTen(s)| == Min(TopN, |s|)
    ensures Descending(TopTen(s))
    ensures multiset(TopTen(s)) <= multiset(s)
  {
    var sorted := SortByScore(s);
    SortDescendingPermutation(s);
    var k := Min(TopN, |sorted|);
    assert sorted == sorted[..k] + sorted[k..];
    assert multiset(sorted) == multiset(sorted[..k]) + multiset(sorted[k..]);
  }

  /** Reported pairs of equal score come in input order: for every score, a prefix of the input's. */
  lemma TopTenStable(s: seq<Scored>, v: real)
    ensures IsPrefix(WithScore(TopTen(s), v), WithScore(s, v))
  {
    var sorted := SortByScore(s);
    var k := Min(TopN, |sorted|);
    assert sorted == sorted[..k] + sorted[k..];
    SortStable(s, v);
    WithScoreAppend(sorted[..k], sorted[k..], v);
  }

  /** No pair left out of the report scores above a reported one. */
  lemma TopTenMaximal(s: seq<Scored>, x: Scored, y: Scored)
    requires x in multiset(s) - multiset(TopTen(s))
    requires y in TopTen(s)
    ensures x.score <= y.score
  {
    var sorted := SortByScore(s);
    SortDescendingPermutation(s);
    var k := Min(TopN, |sorted|);
    var top, rest := sorted[..k], sorted[k..];
    assert sorted == top + rest;
    assert multiset(sorted) == multiset(top) + multiset(rest);
    assert x in multiset(rest);
    var i :| 0 <= i < |rest| && rest[i] == x;
    var j :| 0 <= j < |top| && top[j] == y;
    assert sorted[j] == y && sorted[k + i] == x;
  }

  predicate IsPrefix(a: seq<Scored>, b: seq<Scored>)
  {
    |a| <= |b| && a == b[..|a|]
  }
}

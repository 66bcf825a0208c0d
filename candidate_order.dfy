/**
 * The candidate moves of one step of the knight's-tour search and the order
 * in which they are tried: every offset that lands on a free cell, with that
 * cell's Warnsdorff degree, sorted by ascending degree. The sort is stable,
 * so candidates of equal degree keep the order of the offset list.
 */
module CandidateOrder {
  import opened KnightBoard

  /** An entry of nextMoves: a target cell and its degree. */
  datatype Candidate = Candidate(x: int, y: int, degree: int)

  /** The candidate for offset i from (x, y), with its degree on board b. */
  ghost function CandidateAt(b: Board, x: int, y: int, i: int): Candidate
    requires WellFormed(b) && 0 <= i < |Moves|
  {
    var t := Target(x, y, i);
    Candidate(t.x, t.y, Degree(b, t.x, t.y))
  }

  /** nextMoves after the first n offsets, before sorting. */
  ghost function CandidatesUpTo(b: Board, x: int, y: int, n: int): seq<Candidate>
    requires WellFormed(b) && 0 <= n <= |Moves|
  {
    if n == 0 then []
    else
      var t := Target(x, y, n - 1);
      CandidatesUpTo(b, x, y, n - 1) + (if Free(b, t.x, t.y) then [CandidateAt(b, x, y, n - 1)] else [])
  }

  /** nextMoves before sorting: the valid targets of (x, y) in offset order. */
  ghost function Candidates(b: Board, x: int, y: int): seq<Candidate>
    requires WellFormed(b)
  {
    CandidatesUpTo(b, x, y, |Moves|)
  }

  lemma {:induction false} CandidatesUpToExact(b: Board, x: int, y: int, n: int, c: Candidate)
    requires WellFormed(b) && 0 <= n <= |Moves|
    ensures c in CandidatesUpTo(b, x, y, n) <==>
      exists i :: 0 <= i < n && Free(b, Target(x, y, i).x, Target(x, y, i).y) && c == CandidateAt(b, x, y, i)
  {
    if n > 0 {
      CandidatesUpToExact(b, x, y, n - 1, c);
    }
  }

  /**
   * The candidates are exactly the free knight targets of (x, y), each
   * carrying its degree on the same board b.
   */
  lemma CandidatesExact(b: Board, x: int, y: int, c: Candidate)
    requires WellFormed(b)
    ensures c in Candidates(b, x, y) <==>
      exists i :: 0 <= i < |Moves| && Free(b, Target(x, y, i).x, Target(x, y, i).y) && c == CandidateAt(b, x, y, i)
  {
    CandidatesUpToExact(b, x, y, |Moves|, c);
  }

  /** Every candidate is a free cell one knight move from (x, y), with its degree on b. */
  lemma CandidateIsKnightMove(b: Board, x: int, y: int, c: Candidate)
    requires WellFormed(b) && c in Candidates(b, x, y)
    ensures Free(b, c.x, c.y)
    ensures KnightMove(Cell(x, y), Cell(c.x, c.y))
    ensures c.degree == Degree(b, c.x, c.y)
  {
    CandidatesExact(b, x, y, c);
    var i :| 0 <= i < |Moves| && Free(b, Target(x, y, i).x, Target(x, y, i).y) && c == CandidateAt(b, x, y, i);
    assert Target(x, y, i) == Cell(c.x, c.y);
  }

  // ------------------------------------------------------------------
  // The stable sort by degree.

  ghost predicate SortedByDegree(s: seq<Candidate>) {
    forall i, j :: 0 <= i < j < |s| ==> s[i].degree <= s[j].degree
  }

  /** The candidates of degree d, in their order in s. */
  ghost function OfDegree(s: seq<Candidate>, d: int): seq<Candidate> {
    if s == [] then []
    else OfDegree(s[..|s| - 1], d) + (if s[|s| - 1].degree == d then [s[|s| - 1]] else [])
  }

  lemma {:induction false} OfDegreeAppend(s: seq<Candidate>, t: seq<Candidate>, d: int)
    ensures OfDegree(s + t, d) == OfDegree(s, d) + OfDegree(t, d)
  {
    if t != [] {
      assert (s + t)[..|s + t| - 1] == s + t[..|t| - 1];
      OfDegreeAppend(s, t[..|t| - 1], d);
    } else {
      assert s + t == s;
    }
  }

  /** Places c after the last element of s whose degree is at most c's. */
  function Insert(c: Candidate, s: seq<Candidate>): (r: seq<Candidate>)
    ensures |r| == |s| + 1
  {
    if s == [] || s[|s| - 1].degree <= c.degree then s + [c]
    else Insert(c, s[..|s| - 1]) + [s[|s| - 1]]
  }

  /** Insertion sort by ascending degree: each element goes in after its equals. */
  function SortByDegree(s: seq<Candidate>): (r: seq<Candidate>)
    ensures |r| == |s|
  {
    if s == [] then []
    else Insert(s[|s| - 1], SortByDegree(s[..|s| - 1]))
  }

  lemma {:induction false} InsertPermutes(c: Candidate, s: seq<Candidate>)
    ensures multiset(Insert(c, s)) == multiset(s) + multiset{c}
  {
    if s != [] && s[|s| - 1].degree > c.degree {
      InsertPermutes(c, s[..|s| - 1]);
      assert s == s[..|s| - 1] + [s[|s| - 1]];
    }
  }

  /** The sort is a permutation of its input. */
  lemma {:induction false} SortPermutes(s: seq<Candidate>)
    ensures multiset(SortByDegree(s)) == multiset(s)
  {
    if s != [] {
      SortPermutes(s[..|s| - 1]);
      InsertPermutes(s[|s| - 1], SortByDegree(s[..|s| - 1]));
      assert s == s[..|s| - 1] + [s[|s| - 1]];
    }
  }

  /** Every element of Insert(c, s) is c or an element of s. */
  lemma InsertElements(c: Candidate, s: seq<Candidate>, e: Candidate)
    requires e in Insert(c, s)
    ensures e == c || e in s
  {
    InsertPermutes(c, s);
    assert e in multiset(Insert(c, s));
  }

  lemma {:induction false} InsertSorted(c: Candidate, s: seq<Candidate>)
    requires SortedByDegree(s)
    ensures SortedByDegree(Insert(c, s))
  {
    if s != [] && s[|s| - 1].degree > c.degree {
      var p, last := s[..|s| - 1], s[|s| - 1];
      InsertSorted(c, p);
      var q := Insert(c, p);
      forall i | 0 <= i < |q|
        ensures q[i].degree <= last.degree
      {
        InsertElements(c, p, q[i]);
      }
      assert Insert(c, s) == q + [last];
    }
  }

  lemma {:induction false} InsertOfDegree(c: Candidate, s: seq<Candidate>, d: int)
    ensures OfDegree(Insert(c, s), d) == OfDegree(s, d) + (if c.degree == d then [c] else [])
  {
    if s == [] || s[|s| - 1].degree <= c.degree {
      OfDegreeAppend(s, [c], d);
      assert OfDegree([c], d) == (if c.degree == d then [c] else []) by {
        assert [c][..0] == [];
      }
    } else {
      var p, last := s[..|s| - 1], s[|s| - 1];
      InsertOfDegree(c, p, d);
      OfDegreeAppend(Insert(c, p), [last], d);
      assert [last][..0] == [];
      assert s == p + [last];
      OfDegreeAppend(p, [last], d);
    }
  }

  /** The sort puts the candidates in ascending order of degree. */
  lemma {:induction false} SortSorted(s: seq<Candidate>)
    ensures SortedByDegree(SortByDegree(s))
  {
    if s != [] {
      SortSorted(s[..|s| - 1]);
      InsertSorted(s[|s| - 1], SortByDegree(s[..|s| - 1]));
    }
  }

  /** The sort is stable: the candidates of each degree keep their relative order. */
  lemma {:induction false} SortStable(s: seq<Candidate>, d: int)
    ensures OfDegree(SortByDegree(s), d) == OfDegree(s, d)
  {
    if s != [] {
      SortStable(s[..|s| - 1], d);
      InsertOfDegree(s[|s| - 1], SortByDegree(s[..|s| - 1]), d);
    }
  }

  /** Every candidate of degree d in s is an element of s of degree d. */
  lemma {:induction false} OfDegreeMember(s: seq<Candidate>, d: int, c: Candidate)
    requires c in OfDegree(s, d)
    ensures c in s && c.degree == d
  {
    if s != [] {
      var p := s[..|s| - 1];
      if c in OfDegree(p, d) {
        OfDegreeMember(p, d, c);
        assert c in s by {
          var i :| 0 <= i < |p| && p[i] == c;
          assert s[i] == c;
        }
      }
    }
  }

  /** The last element of a sequence is in the other sorted sequence of the same degree classes, so its degree is at most the other's last. */
  lemma LastDegreeBound(r: seq<Candidate>, t: seq<Candidate>)
    requires r != [] && t != [] && SortedByDegree(t)
    requires forall d :: OfDegree(r, d) == OfDegree(t, d)
    ensures r[|r| - 1].degree <= t[|t| - 1].degree
  {
    var a := r[|r| - 1];
    assert a in OfDegree(r, a.degree);
    OfDegreeMember(t, a.degree, a);
    var i :| 0 <= i < |t| && t[i] == a;
    if i < |t| - 1 {
      assert t[i].degree <= t[|t| - 1].degree;
    }
  }

  /** Equal degree classes and equal last degrees mean equal last elements. */
  lemma SameLast(r: seq<Candidate>, t: seq<Candidate>)
    requires r != [] && t != [] && r[|r| - 1].degree == t[|t| - 1].degree
    requires forall d :: OfDegree(r, d) == OfDegree(t, d)
    ensures r[|r| - 1] == t[|t| - 1]
  {
    var d := r[|r| - 1].degree;
    var o := OfDegree(r, d);
    assert o == OfDegree(r[..|r| - 1], d) + [r[|r| - 1]];
    assert o == OfDegree(t[..|t| - 1], d) + [t[|t| - 1]];
    assert r[|r| - 1] == o[|o| - 1] == t[|t| - 1];
  }

  /** Dropping the same last element keeps the degree classes equal. */
  lemma SamePrefixClasses(r: seq<Candidate>, t: seq<Candidate>, d: int)
    requires r != [] && t != [] && r[|r| - 1] == t[|t| - 1]
    requires OfDegree(r, d) == OfDegree(t, d)
    ensures OfDegree(r[..|r| - 1], d) == OfDegree(t[..|t| - 1], d)
  {
    var e := r[|r| - 1];
    var tail := if e.degree == d then [e] else [];
    var o, p, q := OfDegree(r, d), OfDegree(r[..|r| - 1], d), OfDegree(t[..|t| - 1], d);
    assert o == p + tail;
    assert o == q + tail;
    assert p == o[..|o| - |tail|] == q;
  }

  /** Two sorted sequences of the same length with the same candidates of each degree, in the same order, are equal. */
  lemma {:induction false} SortedUnique(r: seq<Candidate>, t: seq<Candidate>)
    requires |r| == |t| && SortedByDegree(r) && SortedByDegree(t)
    requires forall d :: OfDegree(r, d) == OfDegree(t, d)
    ensures r == t
  {
    if r != [] {
      LastDegreeBound(r, t);
      LastDegreeBound(t, r);
      SameLast(r, t);
      var r', t' := r[..|r| - 1], t[..|t| - 1];
      forall d
        ensures OfDegree(r', d) == OfDegree(t', d)
      {
        SamePrefixClasses(r, t, d);
      }
      SortedUnique(r', t');
      assert r == r' + [r[|r| - 1]] && t == t' + [t[|t| - 1]];
    }
  }

  /**
   * A stable sort by degree has one possible result: any permutation of s
   * in ascending degree that keeps the order of each degree's candidates is
   * SortByDegree(s).
   */
  lemma SortUnique(s: seq<Candidate>, r: seq<Candidate>)
    requires multiset(r) == multiset(s) && SortedByDegree(r)
    requires forall d :: OfDegree(r, d) == OfDegree(s, d)
    ensures r == SortByDegree(s)
  {
    var t := SortByDegree(s);
    SortPermutes(s);
    SortSorted(s);
    forall d
      ensures OfDegree(r, d) == OfDegree(t, d)
    {
      SortStable(s, d);
    }
    assert |r| == |multiset(r)| == |multiset(t)| == |t|;
    SortedUnique(r, t);
  }
}

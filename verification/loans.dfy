/**
 * Loan records as the fundraising-loans query returns them, and the
 * youth-loan filter of `get_youth_loans` stated as a pure specification:
 * flatten the scanned pages, keep the direct loans whose borrower was
 * 18 to 26 years old, and project each kept record to `{id, name, age}`.
 */
module Loans {

  datatype Option<+T> = None | Some(value: T)

  /** One record of a page: its `__typename`, `id`, `name` and the optional
      `ageAtTimeOfLoan` (only direct loans expose it). */
  datatype Loan = Loan(typename: string, id: int, name: string, age: Option<int>)

  /** The `{id, name, age}` record appended to the result for a kept loan. */
  datatype YouthLoan = YouthLoan(id: int, name: string, age: int)

  const DirectTypename: string := "LoanDirect"
  const MinAge: int := 18
  const MaxAge: int := 26

  /** Python truthiness of an optional integer: a missing value and 0 are false. */
  predicate Truthy(age: Option<int>) {
    age.Some? && age.value != 0
  }

  /** The per-record test: a direct loan with a truthy age in [MinAge, MaxAge]. */
  predicate IsYouth(loan: Loan) {
    loan.typename == DirectTypename && Truthy(loan.age) && MinAge <= loan.age.value <= MaxAge
  }

  function Project(loan: Loan): YouthLoan
    requires loan.age.Some?
  {
    YouthLoan(loan.id, loan.name, loan.age.value)
  }

  /** The records of all pages, page after page. */
  function Flatten(pages: seq<seq<Loan>>): seq<Loan>
  {
    if pages == [] then [] else Flatten(pages[..|pages| - 1]) + pages[|pages| - 1]
  }

  /** The records that pass IsYouth, in their input order. */
  function Qualifying(loans: seq<Loan>): seq<Loan>
  {
    if loans == [] then []
    else
      var rest := Qualifying(loans[..|loans| - 1]);
      var last := loans[|loans| - 1];
      if IsYouth(last) then rest + [last] else rest
  }

  function ProjectAll(loans: seq<Loan>): seq<YouthLoan>
    requires forall l :: l in loans ==> l.age.Some?
  {
    seq(|loans|, k requires 0 <= k < |loans| => Project(loans[k]))
  }

  /** Flatten, then filter, then map: what `get_youth_loans` returns for the
      given scanned pages. */
  function YouthLoans(pages: seq<seq<Loan>>): seq<YouthLoan>
  {
    QualifyingAreYouth(Flatten(pages));
    ProjectAll(Qualifying(Flatten(pages)))
  }

  // ---------------------------------------------------------------------
  // Properties of the filter

  /** Every kept record passed the test and came from the input. */
  lemma {:induction false} QualifyingAreYouth(loans: seq<Loan>)
    ensures forall l :: l in Qualifying(loans) ==> IsYouth(l) && l in loans
  {
    if loans != [] {
      var init := loans[..|loans| - 1];
      QualifyingAreYouth(init);
      assert forall l :: l in init ==> l in loans;
    }
  }

  /** Filtering distributes over concatenation: order is preserved. */
  lemma {:induction false} QualifyingAppend(a: seq<Loan>, b: seq<Loan>)
    ensures Qualifying(a + b) == Qualifying(a) + Qualifying(b)
  {
    if b == [] {
      assert a + b == a;
    } else {
      var init := b[..|b| - 1];
      QualifyingAppend(a, init);
      assert (a + b)[..|a + b| - 1] == a + init;
      assert (a + b)[|a + b| - 1] == b[|b| - 1];
    }
  }

  /** Each record is kept exactly as many times as it occurs, if it passes,
      and never otherwise: there is no deduplication and no loss. */
  lemma {:induction false} QualifyingCounts(loans: seq<Loan>, l: Loan)
    ensures multiset(Qualifying(loans))[l] == if IsYouth(l) then multiset(loans)[l] else 0
  {
    if loans != [] {
      var init := loans[..|loans| - 1];
      QualifyingCounts(init, l);
      assert loans == init + [loans[|loans| - 1]];
    }
  }

  /** Qualifying picks out, in increasing order, exactly the positions of the
      records that pass the test. */
  lemma {:induction false} QualifyingPositions(loans: seq<Loan>) returns (idx: seq<nat>)
    ensures |idx| == |Qualifying(loans)|
    ensures forall k :: 0 <= k < |idx| ==> idx[k] < |loans| && Qualifying(loans)[k] == loans[idx[k]]
    ensures forall k, m :: 0 <= k < m < |idx| ==> idx[k] < idx[m]
    ensures forall j :: 0 <= j < |loans| ==> (IsYouth(loans[j]) <==> j in idx)
  {
    if loans == [] {
      idx := [];
    } else {
      var n := |loans| - 1;
      var init := loans[..n];
      var pre := QualifyingPositions(init);
      assert forall k :: 0 <= k < |pre| ==> pre[k] < n;
      if IsYouth(loans[n]) {
        idx := pre + [n];
        assert Qualifying(loans) == Qualifying(init) + [loans[n]];
      } else {
        idx := pre;
        assert Qualifying(loans) == Qualifying(init);
      }
      forall j | 0 <= j < n
        ensures IsYouth(loans[j]) <==> j in idx
      {
        assert loans[j] == init[j];
        assert j in idx <==> j in pre;
      }
    }
  }

  /** Scanning one more record of a page appends its projection exactly
      when it passes the test. */
  lemma YouthStep(loans: seq<Loan>, i: nat)
    requires i < |loans|
    ensures YouthLoans([loans[..i + 1]]) ==
      YouthLoans([loans[..i]]) + (if IsYouth(loans[i]) then [Project(loans[i])] else [])
  {
    assert loans[..i + 1][..i] == loans[..i];
    YouthLoansOfPage(loans[..i]);
    YouthLoansOfPage(loans[..i + 1]);
    QualifyingAreYouth(loans[..i]);
  }

  lemma ProjectAllAppend(a: seq<Loan>, b: seq<Loan>)
    requires forall l :: l in a ==> l.age.Some?
    requires forall l :: l in b ==> l.age.Some?
    ensures forall l :: l in a + b ==> l.age.Some?
    ensures ProjectAll(a + b) == ProjectAll(a) + ProjectAll(b)
  {
  }

  lemma {:induction false} FlattenAppend(p: seq<seq<Loan>>, q: seq<seq<Loan>>)
    ensures Flatten(p + q) == Flatten(p) + Flatten(q)
  {
    if q == [] {
      assert p + q == p;
    } else {
      var init := q[..|q| - 1];
      FlattenAppend(p, init);
      assert (p + q)[..|p + q| - 1] == p + init;
      assert (p + q)[|p + q| - 1] == q[|q| - 1];
    }
  }

  /** The result for a run of pages is the result for the first pages
      followed by the result for the rest: pages are reported in order. */
  lemma YouthLoansAppend(p: seq<seq<Loan>>, q: seq<seq<Loan>>)
    ensures YouthLoans(p + q) == YouthLoans(p) + YouthLoans(q)
  {
    FlattenAppend(p, q);
    QualifyingAppend(Flatten(p), Flatten(q));
    QualifyingAreYouth(Flatten(p));
    QualifyingAreYouth(Flatten(q));
    ProjectAllAppend(Qualifying(Flatten(p)), Qualifying(Flatten(q)));
  }

  /** A single page yields its qualifying records, projected, in page order. */
  lemma YouthLoansOfPage(page: seq<Loan>)
    ensures forall l :: l in Qualifying(page) ==> l.age.Some?
    ensures YouthLoans([page]) == ProjectAll(Qualifying(page))
  {
    QualifyingAreYouth(page);
    assert Flatten([page]) == page by {
      assert [page][..0] == [];
      assert Flatten([page]) == Flatten([]) + page;
    }
  }

  /** An empty page (a fetch that failed) changes nothing in the result. */
  lemma EmptyPageContributesNothing(before: seq<seq<Loan>>, after: seq<seq<Loan>>)
    ensures YouthLoans(before + [[]] + after) == YouthLoans(before + after)
  {
    YouthLoansAppend(before + [[]], after);
    YouthLoansAppend(before, [[]]);
    YouthLoansAppend(before, after);
    YouthLoansOfPage([]);
  }

  /** Every reported record has an age in [MinAge, MaxAge], both ends
      included, and carries the id, name and age of a direct loan of the
      input unchanged. */
  lemma YouthLoansSound(pages: seq<seq<Loan>>)
    ensures forall y :: y in YouthLoans(pages) ==> MinAge <= y.age <= MaxAge
    ensures forall y :: y in YouthLoans(pages) ==>
      (exists l :: l in Flatten(pages) && l.typename == DirectTypename &&
         l.id == y.id && l.name == y.name && l.age == Some(y.age))
  {
    var kept := Qualifying(Flatten(pages));
    QualifyingAreYouth(Flatten(pages));
    forall y | y in YouthLoans(pages)
      ensures MinAge <= y.age <= MaxAge
      ensures exists l :: (l in Flatten(pages) && l.typename == DirectTypename &&
        l.id == y.id && l.name == y.name && l.age == Some(y.age))
    {
      var k :| 0 <= k < |kept| && YouthLoans(pages)[k] == y;
      assert kept[k] in kept;
    }
  }

  /** The whole specification of the filter at once: the result lists, in
      input order and each exactly once, the projections of precisely those
      records that are direct loans with an age present and in [MinAge,
      MaxAge]; the truthiness test adds nothing, since 0 is out of range. */
  lemma YouthLoansExactly(pages: seq<seq<Loan>>) returns (idx: seq<nat>)
    ensures |idx| == |YouthLoans(pages)| <= |Flatten(pages)|
    ensures forall k, m :: 0 <= k < m < |idx| ==> idx[k] < idx[m]
    ensures forall k :: 0 <= k < |idx| ==>
      (idx[k] < |Flatten(pages)| &&
       var l := Flatten(pages)[idx[k]];
       l.age.Some? && YouthLoans(pages)[k] == YouthLoan(l.id, l.name, l.age.value))
    ensures forall j :: 0 <= j < |Flatten(pages)| ==>
      (j in idx <==>
        var l := Flatten(pages)[j];
        l.typename == DirectTypename && l.age.Some? && MinAge <= l.age.value <= MaxAge)
  {
    var flat := Flatten(pages);
    idx := QualifyingPositions(flat);
    QualifyingAreYouth(flat);
    forall k | 0 <= k < |idx|
      ensures idx[k] < |flat| && flat[idx[k]].age.Some?
    {
      assert Qualifying(flat)[k] in Qualifying(flat);
    }
    IndicesBounded(idx, |flat|);
  }

  /** A strictly increasing sequence of indices below n has at most n entries. */
  lemma {:induction false} IndicesBounded(idx: seq<nat>, n: nat)
    requires forall k :: 0 <= k < |idx| ==> idx[k] < n
    requires forall k, m :: 0 <= k < m < |idx| ==> idx[k] < idx[m]
    ensures |idx| <= n
  {
    if idx != [] {
      var last := idx[|idx| - 1];
      IndicesBounded(idx[..|idx| - 1], last);
    }
  }

  lemma QualifyingSingle(l: Loan)
    ensures Qualifying([l]) == if IsYouth(l) then [l] else []
  {
    assert [l][..0] == [];
  }

  /** A worked page: the two ends of the age range are kept, the ages just
      outside it, a missing age, a zero age and a non-direct loan are not. */
  lemma AgeBoundaryExample()
    ensures YouthLoans([[
      Loan("LoanDirect", 1, "Ana", Some(18)),
      Loan("LoanDirect", 2, "Ben", Some(17)),
      Loan("LoanPartner", 3, "Cho", Some(20)),
      Loan("LoanDirect", 4, "Dia", None),
      Loan("LoanDirect", 5, "Eli", Some(0)),
      Loan("LoanDirect", 6, "Fay", Some(27)),
      Loan("LoanDirect", 7, "Gus", Some(26))
    ]]) == [YouthLoan(1, "Ana", 18), YouthLoan(7, "Gus", 26)]
  {
    var a, b, c := Loan("LoanDirect", 1, "Ana", Some(18)), Loan("LoanDirect", 2, "Ben", Some(17)), Loan("LoanPartner", 3, "Cho", Some(20));
    var d, e := Loan("LoanDirect", 4, "Dia", None), Loan("LoanDirect", 5, "Eli", Some(0));
    var f, g := Loan("LoanDirect", 6, "Fay", Some(27)), Loan("LoanDirect", 7, "Gus", Some(26));
    assert "LoanPartner" != DirectTypename by { assert "LoanPartner"[4] != DirectTypename[4]; }
    QualifyingSingle(a); QualifyingSingle(b); QualifyingSingle(c); QualifyingSingle(d);
    QualifyingSingle(e); QualifyingSingle(f); QualifyingSingle(g);
    assert IsYouth(a) && !IsYouth(b) && !IsYouth(c) && !IsYouth(d);
    assert !IsYouth(e) && !IsYouth(f) && IsYouth(g);
    QualifyingAppend([a], [b]);
    assert [a] + [b] == [a, b];
    QualifyingAppend([a, b], [c]);
    assert [a, b] + [c] == [a, b, c];
    QualifyingAppend([a, b, c], [d]);
    assert [a, b, c] + [d] == [a, b, c, d];
    QualifyingAppend([a, b, c, d], [e]);
    assert [a, b, c, d] + [e] == [a, b, c, d, e];
    QualifyingAppend([a, b, c, d, e], [f]);
    assert [a, b, c, d, e] + [f] == [a, b, c, d, e, f];
    QualifyingAppend([a, b, c, d, e, f], [g]);
    assert [a, b, c, d, e, f] + [g] == [a, b, c, d, e, f, g];
    assert Qualifying([a, b, c, d, e, f, g]) == [a, g];
    YouthLoansOfPage([a, b, c, d, e, f, g]);
  }
}

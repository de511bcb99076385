/**
 * The page loop of `get_youth_loans`. The remote query is not modelled:
 * the caller supplies `fetch`, which gives the outcome of fetching each
 * page number, and a failed fetch yields an empty page, as `fetch_loans`
 * returns an empty list on every failure.
 */
module YouthScan {
  import opened Loans

  /** What fetching one page came to: the loan records it returned, or a
      failure (blocked, a bad status, a query error, an exception). */
  datatype FetchOutcome = Loaded(values: seq<Loan>) | Failed

  /** The list `fetch_loans` hands back for an outcome. */
  function FetchLoans(outcome: FetchOutcome): seq<Loan>
  {
    match outcome
    case Loaded(values) => values
    case Failed => []
  }

  /** The pages scanned for page numbers 1 to `pages`, in that order. */
  function Scan(fetch: int -> FetchOutcome, pages: int): (scanned: seq<seq<Loan>>)
    ensures |scanned| == if pages <= 0 then 0 else pages
    ensures forall i :: 0 <= i < |scanned| ==> scanned[i] == FetchLoans(fetch(i + 1))
  {
    if pages <= 0 then [] else Scan(fetch, pages - 1) + [FetchLoans(fetch(pages))]
  }

  /** Scans pages 1 to `pages` and collects `{id, name, age}` for every
      direct loan whose borrower's age is present, non-zero and in
      [MinAge, MaxAge], appending as it goes. */
  method GetYouthLoans(pages: int, fetch: int -> FetchOutcome) returns (youth: seq<YouthLoan>)
    ensures youth == YouthLoans(Scan(fetch, pages))
    ensures pages <= 0 ==> youth == []
  {
    youth := [];
    var page := 1;
    while page <= pages
      invariant 1 <= page && (page == 1 || page <= pages + 1)
      invariant youth == YouthLoans(Scan(fetch, page - 1))
    {
      var loans := FetchLoans(fetch(page));
      ghost var before := youth;
      for i := 0 to |loans|
        invariant youth == before + YouthLoans([loans[..i]])
      {
        var loan := loans[i];
        YouthStep(loans, i);
        if loan.typename == DirectTypename {
          var age := loan.age;
          if age.Some? && age.value != 0 && MinAge <= age.value <= MaxAge {
            youth := youth + [YouthLoan(loan.id, loan.name, age.value)];
          }
        }
      }
      assert loans[..|loans|] == loans;
      ScanStep(fetch, page);
      page := page + 1;
    }
  }

  /** Dropping a page whose fetch failed leaves the result unchanged. */
  lemma FailedFetchContributesNothing(fetch: int -> FetchOutcome, pages: int, p: int)
    requires 1 <= p <= pages && fetch(p) == Failed
    ensures YouthLoans(Scan(fetch, pages)) ==
      YouthLoans(Scan(fetch, pages)[..p - 1] + Scan(fetch, pages)[p..])
  {
    var scanned := Scan(fetch, pages);
    assert scanned == scanned[..p - 1] + [[]] + scanned[p..];
    EmptyPageContributesNothing(scanned[..p - 1], scanned[p..]);
  }

  /** The result for `pages` pages is the result for one page fewer followed
      by that of the last page read in full. */
  lemma ScanStep(fetch: int -> FetchOutcome, pages: int)
    requires pages >= 1
    ensures YouthLoans(Scan(fetch, pages)) ==
      YouthLoans(Scan(fetch, pages - 1)) + YouthLoans([FetchLoans(fetch(pages))])
  {
    var loans := FetchLoans(fetch(pages));
    YouthLoansAppend(Scan(fetch, pages - 1), [loans]);
  }
}

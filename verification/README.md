# Youth-loan scan of the kiva-tool exploratory script

This project models `get_youth_loans` from `exploratory_script.py`. The function
walks pages 1 to `pages` of Kiva's fundraising loans. From each page it keeps the
records whose `__typename` is `"LoanDirect"` and whose `ageAtTimeOfLoan` is present,
truthy and between 18 and 26 inclusive. It appends `{id, name, age}` for each kept
record to one result list.

Two modules:

- `Loans` (`loans.dfy`) holds the record types and the filter as a pure
  specification. `YouthLoans` flattens the pages, keeps the records that pass
  `IsYouth` (`Qualifying`) and projects them (`ProjectAll`). The lemmas next to
  it state what the filter promises.
- `YouthScan` (`youth_scan.dfy`) holds the page loop itself. `GetYouthLoans` is a
  method with the script's two nested loops. It is proved equal to `YouthLoans`
  of the scanned pages. The network call is a parameter: `fetch` gives the
  outcome of fetching each page number. A failed fetch becomes an empty page,
  just as `fetch_loans` returns `[]` on every failure.

Python truthiness is written out: `Truthy` is false for a missing age and for 0.
`YouthLoansExactly` shows that it adds nothing to the range test, since 0 is
outside 18..26.

## Model

| member | source | states |
|---|---|---|
| `YouthScan.GetYouthLoans` | exploratory_script.py:67-86 | The nested page/record loops return exactly the flatten-filter-project specification of the pages fetched for page numbers 1..pages; with `pages <= 0` nothing is scanned and the result is empty |
| `YouthScan.Scan` | exploratory_script.py:70-72 | The scanned pages are one per page number 1..pages, in that order, each the list the fetch handed back (none when `pages <= 0`) |
| `YouthScan.FailedFetchContributesNothing` | exploratory_script.py:45-64 | A page whose fetch failed can be dropped without changing the result |
| `YouthScan.ScanStep` | exploratory_script.py:70-82 | Scanning one more page appends that page's qualifying records, projected, after those of the earlier pages |
| `Loans.YouthStep` | exploratory_script.py:74-82 | Reading one more record of a page appends its `{id, name, age}` exactly when it passes the type and age test, and appends nothing otherwise |
| `Loans.EmptyPageContributesNothing` | exploratory_script.py:74-82 | An empty page anywhere among the pages contributes nothing to the result |
| `Loans.YouthLoansExactly` | exploratory_script.py:70-82 | The result lists, in input order and each exactly once, `{id, name, age}` of precisely those records that are `LoanDirect` with an age present and in 18..26 inclusive; its length is at most the number of records |
| `Loans.YouthLoansSound` | exploratory_script.py:75-82 | Every reported age is in 18..26, and every reported record carries the id, name and age of a `LoanDirect` input record unchanged |
| `Loans.YouthLoansAppend` | exploratory_script.py:70-82 | The result for a run of pages is the result for the earlier pages followed by that for the later ones: page order is kept |
| `Loans.QualifyingAreYouth` | exploratory_script.py:75-77 | Every kept record is a `LoanDirect` record with a truthy age in 18..26, taken from the input |
| `Loans.QualifyingAppend` | exploratory_script.py:74-82 | The per-record filter distributes over concatenation, so it never reorders records |
| `Loans.QualifyingCounts` | exploratory_script.py:74-82 | A record that passes is kept as many times as it occurs and one that fails never: no deduplication, no loss |
| `Loans.QualifyingPositions` | exploratory_script.py:74-82 | The kept records are those at the input positions that pass the test, listed in increasing position order, each position once |
| `Loans.AgeBoundaryExample` | exploratory_script.py:75-77 | On one page, ages 18 and 26 are kept; ages 17 and 27, a missing age, age 0 and a `LoanPartner` record are dropped |

## Left out

- The HTTP session, the header table and the GraphQL URL (`exploratory_script.py:1-19`) are network setup.
- The body of `fetch_loans` is not modelled: the query text, the POST, the 403 and non-200 branches, JSON decoding, GraphQL errors and exception handling. Only its outcome is kept: `FetchOutcome` is either the records returned or `Failed`, and `Failed` gives an empty page. The `per_page` limit of 20 records is the server's concern and is not modelled.
- The fetch is a pure function of the page number, so the model assumes each page is fetched once and has one answer.
- Each record is assumed to carry `__typename`, `id` and `name`, as the query always requests them. A response whose `values` is not a list is not modelled.
- A `null` entry inside `values` is not modelled. In the script, line 75 raises a TypeError on such an entry and the whole scan aborts; `Loan` has no null record.
- `id` and `name` are fixed as an integer and a string. The script copies them through as whatever the response holds, null included (lines 79-80).
- The default `pages=3` of `get_youth_loans` (line 67) is not modelled: `GetYouthLoans` takes the page count as an explicit argument.
- `ageAtTimeOfLoan` is modelled as an integer, as the schema declares it.
- The 1.5-second delay between pages, every `print`, `debug_age_field` and the `__main__` block only pace the run or write to the console.
- `exploratory_script.py` contains no tiering, concentration, batch, phrase, term or sector rules, so the model has none.

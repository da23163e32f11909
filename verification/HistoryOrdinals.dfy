/**
 * Finding the n-th revision of a history that is served page by page.
 *
 * A history is the list of its pages; every page but the last names a next one. The same pages answer the command
 * that numbers all rows.
 */
module HistoryOrdinals {
  import opened Decimals
  import opened Outcomes
  import opened Texts

  const MAX_ORDINAL_HISTORY_PAGES := 100

  /** What one request yields: a page of rows, or a problem. */
  datatype Response<Row> = Page(items: seq<Row>) | Problem(code: Text)

  datatype Fault = Reported(code: Text) | RevisionNotFound | UnsupportedCapability

  /** The rows of the pages in order; a problem contributes none. */
  function Rows<Row>(responses: seq<Response<Row>>): seq<Row> {
    if responses == [] then
      []
    else
      Rows(responses[..|responses| - 1])
      + (if responses[|responses| - 1].Page? then responses[|responses| - 1].items else [])
  }

  function FirstPages<Row>(responses: seq<Response<Row>>): seq<Response<Row>> {
    if |responses| <= MAX_ORDINAL_HISTORY_PAGES then responses else responses[..MAX_ORDINAL_HISTORY_PAGES]
  }

  /** How many pages there are before the first problem, among those that may be read. */
  function Readable<Row>(responses: seq<Response<Row>>): (k: nat)
    ensures k <= |FirstPages(responses)| <= |responses|
    ensures forall i :: 0 <= i < k ==> responses[i].Page?
    ensures k < |FirstPages(responses)| ==> responses[k].Problem?
  {
    PagesBefore(FirstPages(responses))
  }

  function PagesBefore<Row>(responses: seq<Response<Row>>): (k: nat)
    ensures k <= |responses|
    ensures forall i :: 0 <= i < k ==> responses[i].Page?
    ensures k < |responses| ==> responses[k].Problem?
  {
    if responses == [] || responses[0].Problem? then 0 else 1 + PagesBefore(responses[1..])
  }

  /**
   * What the ordinal stands for: row `n` when a page before the first problem holds it, and otherwise that problem;
   * without one the row is missing if these were all pages, and else it is out of reach.
   */
  function Resolution<Row>(responses: seq<Response<Row>>, n: nat): Result<Row, Fault> {
    var k := Readable(responses);
    var rows := Rows(responses[..k]);
    if 1 <= n <= |rows| then Ok(rows[n - 1])
    else if k < |FirstPages(responses)| then Err(Reported(responses[k].code))
    else Err(if k == |responses| then RevisionNotFound else UnsupportedCapability)
  }

  lemma {:induction false} RowsOfPrefix<Row>(responses: seq<Response<Row>>, k: nat)
    requires k <= |responses|
    ensures Rows(responses[..k]) <= Rows(responses)
    decreases |responses|
  {
    if k < |responses| {
      RowsOfPrefix(responses[..|responses| - 1], k);
      assert responses[..|responses| - 1][..k] == responses[..k];
    } else {
      assert responses[..k] == responses;
    }
  }

  lemma RowsStep<Row>(responses: seq<Response<Row>>, k: nat)
    requires k < |responses| && responses[k].Page?
    ensures Rows(responses[..k + 1]) == Rows(responses[..k]) + responses[k].items
  {
    assert responses[..k + 1][..k] == responses[..k];
  }

  /** The page at hand holds the row. */
  lemma FoundOnPage<Row>(responses: seq<Response<Row>>, k: nat, n: nat)
    requires k < Readable(responses)
    requires |Rows(responses[..k])| < n <= |Rows(responses[..k])| + |responses[k].items|
    ensures Resolution(responses, n) == Ok(responses[k].items[n - |Rows(responses[..k])| - 1])
  {
    hide Rows;
    var readable := responses[..Readable(responses)];
    RowsStep(responses, k);
    assert readable[..k + 1] == responses[..k + 1];
    RowsOfPrefix(readable, k + 1);
    assert Rows(readable)[n - 1] == Rows(responses[..k + 1])[n - 1];
  }

  /** Resolution of an ordinal over the pages, counting the rows off page by page. */
  method ResolveRevisionOrdinal<Row>(responses: seq<Response<Row>>, ordinal: Text) returns (r: Result<Row, Fault>)
    requires responses != []
    requires IsCanonical(ordinal) && ordinal[0] != ZERO
    ensures r == Resolution(responses, Value(ordinal))
  {
    hide Rows, Value;
    PositiveValue(ordinal);
    ghost var n := Value(ordinal);
    var remaining := Value(ordinal);
    var pageNumber := 0;
    NoRows<Row>();
    while pageNumber < MAX_ORDINAL_HISTORY_PAGES
      invariant 0 <= pageNumber <= Readable(responses)
      invariant pageNumber < |responses|
      invariant 1 <= remaining == n - |Rows(responses[..pageNumber])|
    {
      var response := responses[pageNumber];
      if response.Problem? {
        return Err(Reported(response.code));
      }
      RowsStep(responses, pageNumber);
      if remaining <= |response.items| {
        FoundOnPage(responses, pageNumber, n);
        return Ok(response.items[remaining - 1]);
      }
      remaining := remaining - |response.items|;
      pageNumber := pageNumber + 1;
      if pageNumber == |responses| {
        return Err(RevisionNotFound);
      }
    }
    return Err(UnsupportedCapability);
  }

  lemma NoRows<Row>()
    ensures Rows<Row>([]) == []
  {
  }

  datatype Numbered<Row> = Numbered(ordinal: nat, row: Row)

  function Numbering<Row>(rows: seq<Row>): (r: seq<Numbered<Row>>)
    ensures |r| == |rows|
    ensures forall i :: 0 <= i < |rows| ==> r[i] == Numbered(i + 1, rows[i])
  {
    seq(|rows|, i requires 0 <= i < |rows| => Numbered(i + 1, rows[i]))
  }

  /** The listing: of the first page, or of all of them if there are not too many and none is a problem. */
  function Listing<Row>(responses: seq<Response<Row>>, all: bool): Result<seq<Numbered<Row>>, Fault>
    requires responses != []
  {
    var k := Readable(responses);
    if responses[0].Page? && !all then Ok(Numbering(responses[0].items))
    else if k < |FirstPages(responses)| then Err(Reported(responses[k].code))
    else if k < |responses| then Err(UnsupportedCapability)
    else Ok(Numbering(Rows(responses)))
  }

  /** The listing of versions, with its rows numbered through, and whether it is complete. */
  method ListVersions<Row>(responses: seq<Response<Row>>, all: bool)
    returns (r: Result<seq<Numbered<Row>>, Fault>, complete: bool)
    requires responses != []
    ensures r == Listing(responses, all)
    ensures complete <==> r.Ok? && (all || |responses| == 1)
  {
    var pageNumber := 0;
    var items: seq<Row> := [];
    while true
      invariant 0 <= pageNumber < |responses| && pageNumber <= Readable(responses)
      invariant items == Rows(responses[..pageNumber])
      invariant pageNumber > 0 ==> all
      decreases MAX_ORDINAL_HISTORY_PAGES - pageNumber
    {
      if pageNumber + 1 > MAX_ORDINAL_HISTORY_PAGES {
        return Err(UnsupportedCapability), false;
      }
      var response := responses[pageNumber];
      if response.Problem? {
        return Err(Reported(response.code)), false;
      }
      RowsStep(responses, pageNumber);
      items := items + response.items;
      pageNumber := pageNumber + 1;
      if !all || pageNumber == |responses| {
        break;
      }
    }
    assert responses[..|responses|] == responses;
    assert !all ==> items == responses[0].items;
    return Ok(Numbering(items)), pageNumber == |responses|;
  }

  /** A listing of all versions numbers a row `n` exactly when resolving `n` yields that row. */
  lemma NumberingAgrees<Row>(responses: seq<Response<Row>>, n: nat, row: Row)
    requires responses != [] && Listing(responses, true).Ok?
    ensures Numbered(n, row) in Listing(responses, true).value <==> Resolution(responses, n) == Ok(row)
  {
    hide Rows;
    assert responses[..Readable(responses)] == responses;
    var rows := Rows(responses);
    if 1 <= n <= |rows| {
      assert Numbering(rows)[n - 1] == Numbered(n, rows[n - 1]);
    }
  }

  /** All pages may be read and none is a problem. */
  predicate InFullView<Row>(responses: seq<Response<Row>>) {
    |responses| <= MAX_ORDINAL_HISTORY_PAGES && forall i :: 0 <= i < |responses| ==> responses[i].Page?
  }

  /** Two ways of cutting one history into pages in full view give every ordinal the same answer. */
  lemma PagingIsIrrelevant<Row>(a: seq<Response<Row>>, b: seq<Response<Row>>, n: nat)
    requires InFullView(a) && InFullView(b) && Rows(a) == Rows(b)
    ensures Resolution(a, n) == Resolution(b, n)
    ensures Resolution(a, n) == if 1 <= n <= |Rows(a)| then Ok(Rows(a)[n - 1]) else Err(RevisionNotFound)
  {
    hide Rows;
    assert a[..Readable(a)] == a && b[..Readable(b)] == b;
  }

  // Page by page

  function Count<Row>(responses: seq<Response<Row>>): nat {
    if responses == [] then 0
    else Count(responses[..|responses| - 1])
         + if responses[|responses| - 1].Page? then |responses[|responses| - 1].items| else 0
  }

  predicate ArePages<Row>(responses: seq<Response<Row>>) {
    forall i :: 0 <= i < |responses| ==> responses[i].Page?
  }

  /** The pages before are pages and do not reach up to row `n`, counted from one. */
  predicate IsBefore<Row>(responses: seq<Response<Row>>, k: nat, n: nat) {
    k < |responses| && k < 100 && ArePages(responses[..k]) && n > Count(responses[..k])
  }

  /** What the pages decide about row `n`. */
  ghost predicate Decides<Row(!new)>(responses: seq<Response<Row>>, n: nat, r: Result<Row, Fault>) {
    match r
    case Ok(row) => exists k: nat :: IsBefore(responses, k, n) && responses[k].Page?
                      && n - Count(responses[..k]) <= |responses[k].items|
                      && responses[k].items[n - Count(responses[..k]) - 1] == row
    case Err(Reported(code)) => exists k: nat :: IsBefore(responses, k, n) && responses[k] == Problem(code)
    case Err(RevisionNotFound) =>
      |responses| <= 100 && ArePages(responses) && n > Count(responses)
    case Err(UnsupportedCapability) =>
      && |responses| > 100
      && ArePages(responses[..100]) && n > Count(responses[..100])
  }

  lemma {:induction false} CountIsRows<Row>(responses: seq<Response<Row>>)
    ensures Count(responses) == |Rows(responses)|
  {
    if responses != [] {
      CountIsRows(responses[..|responses| - 1]);
    }
  }

  /** The page that holds row `n` of the first `m` pages. */
  lemma {:induction false} PageOfRow<Row>(responses: seq<Response<Row>>, m: nat, n: nat) returns (k: nat)
    requires m <= |responses| && ArePages(responses[..m]) && 1 <= n <= |Rows(responses[..m])|
    ensures k < m && ArePages(responses[..k]) && responses[k].Page?
    ensures Count(responses[..k]) < n <= Count(responses[..k]) + |responses[k].items|
    ensures Rows(responses[..m])[n - 1] == responses[k].items[n - Count(responses[..k]) - 1]
  {
    assert responses[..m][m - 1].Page? && responses[..m][..m - 1] == responses[..m - 1];
    RowsStep(responses, m - 1);
    CountIsRows(responses[..m - 1]);
    if n <= |Rows(responses[..m - 1])| {
      assert forall i :: 0 <= i < m - 1 ==> responses[..m - 1][i] == responses[..m][i];
      k := PageOfRow(responses, m - 1, n);
    } else {
      k := m - 1;
    }
  }

  /** The resolution of an ordinal is what the pages decide, one after the other. */
  lemma ResolutionIsDecided<Row(!new)>(responses: seq<Response<Row>>, n: nat)
    requires n >= 1
    ensures Decides(responses, n, Resolution(responses, n))
  {
    hide Rows, Count;
    var k := Readable(responses);
    CountIsRows(responses[..k]);
    if n <= |Rows(responses[..k])| {
      var p := PageOfRow(responses, k, n);
      assert IsBefore(responses, p, n);
    } else if k < |FirstPages(responses)| {
      assert IsBefore(responses, k, n);
    } else if k == |responses| {
      assert responses[..k] == responses;
    }
  }

  /** A full listing shows every row of every page, numbered through, and nothing else. */
  lemma ListingIsComplete<Row>(responses: seq<Response<Row>>, k: nat, i: nat)
    requires responses != [] && Listing(responses, true).Ok?
    ensures InFullView(responses) && |Listing(responses, true).value| == Count(responses)
    ensures k < |responses| && i < |responses[k].items| ==>
              && Count(responses[..k]) + i < Count(responses)
              && Listing(responses, true).value[Count(responses[..k]) + i]
                 == Numbered(Count(responses[..k]) + i + 1, responses[k].items[i])
  {
    hide Rows, Count;
    CountIsRows(responses);
    if k < |responses| && i < |responses[k].items| {
      CountIsRows(responses[..k]);
      RowOnPage(responses, k, i);
    }
  }

  lemma RowOnPage<Row>(responses: seq<Response<Row>>, k: nat, i: nat)
    requires k < |responses| && responses[k].Page? && i < |responses[k].items|
    ensures |Rows(responses[..k])| + i < |Rows(responses)|
    ensures Rows(responses)[|Rows(responses[..k])| + i] == responses[k].items[i]
  {
    RowsStep(responses, k);
    RowsOfPrefix(responses, k + 1);
  }

  /** A listing is refused with the first problem met, or because there are too many pages. */
  lemma ListingRefusals<Row>(responses: seq<Response<Row>>, code: Text)
    requires responses != []
    ensures Listing(responses, true) == Err(Reported(code)) <==>
              exists k: nat :: k < 100 && k < |responses| && ArePages(responses[..k])
                && responses[k] == Problem(code)
    ensures Listing(responses, true) == Err(UnsupportedCapability) <==>
              |responses| > 100 && ArePages(responses[..100])
    ensures Listing(responses, false) == match responses[0]
                                         case Page(items) => Ok(Numbering(items))
                                         case Problem(c) => Err(Reported(c))
  {
    hide Rows;
    var r := Readable(responses);
    forall k: nat | k < 100 && k < |responses| && ArePages(responses[..k]) && responses[k].Problem?
      ensures k == r
    {
      forall i | 0 <= i < k ensures responses[i].Page? { assert responses[..k][i].Page?; }
    }
    assert r < |FirstPages(responses)| ==> ArePages(responses[..r]) && r < 100;
  }
}

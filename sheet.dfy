/** The row fetcher's result turned into form responses: the first row of the
    sheet is the header, and every later row is zipped with it into a dict. */
module Sheet {
  import opened PyDict

  /** One form response: the items of `dict(zip(headers, row))`. */
  type Response = seq<Item>

  /** What the spreadsheet read produced: the cell values, row by row (a
      missing `values` entry reads as no rows), or an exception. */
  datatype Fetch = Values(values: seq<seq<string>>) | FetchError

  function Min(a: int, b: int): int
  {
    if a < b then a else b
  }

  /** `zip(headers, row)`: cells paired by position, stopping at the shorter sequence. */
  function Zip(headers: seq<string>, row: seq<string>): (ps: seq<Item>)
    ensures |ps| == Min(|headers|, |row|)
    ensures forall i :: 0 <= i < |ps| ==> ps[i] == (headers[i], row[i])
  {
    if headers == [] || row == [] then []
    else [(headers[0], row[0])] + Zip(headers[1..], row[1..])
  }

  /** `dict(zip(headers, row))`: the response built from one data row. */
  function RowResponse(headers: seq<string>, row: seq<string>): Response
  {
    FromPairs(Zip(headers, row))
  }

  /** The responses of a fetch: none on an exception or an empty sheet, else
      one per row after the header, in row order. */
  function FormResponses(f: Fetch): (rs: seq<Response>)
    ensures rs == [] <==> f.FetchError? || |f.values| <= 1
    ensures f.Values? && f.values != [] ==> |rs| == |f.values| - 1
  {
    if f.FetchError? || f.values == [] then []
    else
      var values := f.values;
      seq(|values| - 1, i requires 0 <= i < |values| - 1 => RowResponse(values[0], values[i + 1]))
  }

  /** The loop that builds the responses, one `append` per data row. */
  method GetFormResponses(f: Fetch) returns (responses: seq<Response>)
    ensures responses == FormResponses(f)
    ensures f.Values? && f.values != [] ==>
      |responses| == |f.values| - 1 &&
      forall i :: 0 <= i < |responses| ==> responses[i] == RowResponse(f.values[0], f.values[i + 1])
  {
    if f.FetchError? {
      return [];
    }
    var values := f.values;
    if values == [] {
      return [];
    }
    var headers := values[0];
    responses := [];
    for j := 1 to |values|
      invariant |responses| == j - 1
      invariant forall i :: 0 <= i < j - 1 ==> responses[i] == RowResponse(headers, values[i + 1])
    {
      var response := RowResponse(headers, values[j]);
      responses := responses + [response];
    }
  }

  /** A row shorter than the header has only the leading keys, and cells past
      the header are dropped: the keys are the first `min(|headers|, |row|)`
      headers, each once, in header order. */
  lemma RowResponseKeys(headers: seq<string>, row: seq<string>)
    ensures Keys(RowResponse(headers, row)) == Dedup(headers[..Min(|headers|, |row|)])
  {
    var ps := Zip(headers, row);
    FromPairsKeyOrder(ps);
    assert Keys(ps) == headers[..Min(|headers|, |row|)];
  }

  /** A header that repeats a column name keeps the value of its last cell. */
  lemma RowResponseGet(headers: seq<string>, row: seq<string>, k: string)
    ensures Get(RowResponse(headers, row), k) == LastValue(Zip(headers, row), k)
  {
    FromPairsGet(Zip(headers, row), k);
  }

  /** With distinct header names, the response pairs `headers[i]` with
      `row[i]` for every `i` below the shorter length, and nothing else. */
  lemma RowResponseDistinctHeaders(headers: seq<string>, row: seq<string>)
    requires forall i, j :: 0 <= i < j < |headers| ==> headers[i] != headers[j]
    ensures var r := RowResponse(headers, row);
      |r| == Min(|headers|, |row|) && forall i :: 0 <= i < |r| ==> r[i] == (headers[i], row[i])
  {
    FromPairsDistinct(Zip(headers, row));
  }
}

/**
 * The encyclopedia client (`OeisQuery`): it turns a list of integers or a
 * catalog number into one HTTP GET against oeis.org, checks the status,
 * decodes the JSON body and builds articles from the records it holds.
 *
 * The HTTP client the factory hands out is modelled as an oracle `send` from
 * a request to the reply it gets (None when the request itself fails), and
 * the JSON body as the shapes the deserializer can meet. Every operation
 * returns its outcome together with the requests it sent, in order.
 */
module OeisQuery {
  import opened Wrappers
  import opened Text
  import opened Numerals
  import opened OeisSequence

  /** `IOeisQuery.HttpClientName`: the name under which the client is requested from the factory. */
  const HttpClientName: string := "OEIS"

  /** Catalog numbers at or above this bound are never asked for. */
  const NumberBound: int := 10_000_000

  /** A GET request: the name of the client it went through and the address it asked for. */
  datatype Request = Get(client: string, url: string)

  /** A JSON document as the deserializer meets it. */
  datatype Json =
    | JsonNull
    | JsonObject(record: Response)
    | JsonArray(items: seq<Option<Response>>)
    | JsonMalformed

  /** An HTTP reply: its status code and its decoded body. */
  datatype HttpReply = HttpReply(status: int, body: Json)

  /** The exceptions an operation can raise. */
  datatype Failure =
    | ArgumentNull(param: string)  // ArgumentNullException for the named parameter
    | NetworkFailure               // HttpRequestException from GetAsync
    | HttpStatus(code: int)        // HttpRequestException from EnsureSuccessStatusCode
    | DecodeFailed                 // JsonException from DeserializeAsync

  /** The outcome of an operation together with the requests it sent. */
  datatype Call<+R> = Call(result: Result<R, Failure>, sent: seq<Request>)

  /** A query object: the transport its factory's clients use. */
  datatype OeisQuery = OeisQuery(send: Request -> Option<HttpReply>)

  /** A status `EnsureSuccessStatusCode` lets through. */
  predicate IsSuccessStatus(status: int) {
    200 <= status <= 299
  }

  /** `GetAsync` followed by `EnsureSuccessStatusCode`: the body of a successful reply. */
  function Receive(reply: Option<HttpReply>): (r: Result<Json, Failure>)
    ensures r.Success? <==> reply.Some? && IsSuccessStatus(reply.value.status)
    ensures r.Success? ==> r.value == reply.value.body
    ensures reply.None? ==> r == Failure(NetworkFailure)
    ensures reply.Some? && !IsSuccessStatus(reply.value.status) ==> r == Failure(HttpStatus(reply.value.status))
  {
    match reply
    case None => Failure(NetworkFailure)
    case Some(HttpReply(status, body)) =>
      if IsSuccessStatus(status) then Success(body) else Failure(HttpStatus(status))
  }

  /** `DeserializeAsync<OeisSequenceResponse?[]>`: null, an array of records and nulls, or an error. */
  function DecodeArray(json: Json): (r: Result<Option<seq<Option<Response>>>, Failure>)
    ensures r == Success(None) <==> json.JsonNull?
    ensures json.JsonArray? <==> r.Success? && r.value.Some?
    ensures r.Success? && r.value.Some? ==> r.value.value == json.items
    ensures r.Failure? ==> r.error == DecodeFailed
  {
    match json
    case JsonNull => Success(None)
    case JsonArray(items) => Success(Some(items))
    case _ => Failure(DecodeFailed)
  }

  /** `DeserializeAsync<OeisSequenceResponse>`: null, a record, or an error. */
  function DecodeObject(json: Json): (r: Result<Option<Response>, Failure>)
    ensures r == Success(None) <==> json.JsonNull?
    ensures json.JsonObject? <==> r.Success? && r.value.Some?
    ensures r.Success? && r.value.Some? ==> r.value.value == json.record
    ensures r.Failure? ==> r.error == DecodeFailed
  {
    match json
    case JsonNull => Success(None)
    case JsonObject(record) => Success(Some(record))
    case _ => Failure(DecodeFailed)
  }

  /** The non-null records, in their order. */
  function Records(results: seq<Option<Response>>): (r: seq<Response>)
    ensures |r| <= |results|
  {
    if results == [] then []
    else
      var init := results[..|results| - 1];
      var last := results[|results| - 1];
      Records(init) + (if last.Some? then [last.value] else [])
  }

  /** The records are exactly the non-null results; there are none exactly when every result is null. */
  lemma {:induction false} RecordsMembers(results: seq<Option<Response>>)
    ensures forall x :: x in Records(results) <==> Some(x) in results
    ensures Records(results) == [] <==> forall i :: 0 <= i < |results| ==> results[i].None?
  {
    if results != [] {
      var init := results[..|results| - 1];
      var last := results[|results| - 1];
      assert results == init + [last];
      RecordsMembers(init);
    }
  }

  /**
   * Filtering a concatenation filters each part in turn: records keep their
   * order and their multiplicity, so a repeated record is kept twice.
   */
  lemma {:induction false} RecordsAppend(a: seq<Option<Response>>, b: seq<Option<Response>>)
    ensures Records(a + b) == Records(a) + Records(b)
  {
    if b == [] {
      assert a + b == a;
    } else {
      var init := b[..|b| - 1];
      assert (a + b)[..|a + b| - 1] == a + init;
      assert (a + b)[|a + b| - 1] == b[|b| - 1];
      RecordsAppend(a, init);
    }
  }

  /**
   * `new OeisSequence(result)` for every non-null result, in order: the
   * articles are exactly the articles of the non-null records, one each.
   */
  function Present(results: seq<Option<Response>>): (r: seq<Article>)
    ensures |r| == |Records(results)|
    ensures forall k :: 0 <= k < |r| ==> r[k] == FromResponse(Records(results)[k])
  {
    if results == [] then []
    else
      var init := results[..|results| - 1];
      var last := results[|results| - 1];
      assert Records(results) == Records(init) + (if last.Some? then [last.value] else []);
      Present(init) + (if last.Some? then [FromResponse(last.value)] else [])
  }

  /** One more result extends the articles by its article, or by nothing when it is null. */
  lemma PresentPrefix(results: seq<Option<Response>>, i: nat)
    requires i < |results|
    ensures Present(results[..i + 1])
         == Present(results[..i]) + (if results[i].Some? then [FromResponse(results[i].value)] else [])
  {
    assert results[..i + 1][..i] == results[..i];
  }

  /** The articles of a concatenation are the articles of each part in turn, duplicates included. */
  lemma {:induction false} PresentAppend(a: seq<Option<Response>>, b: seq<Option<Response>>)
    ensures Present(a + b) == Present(a) + Present(b)
  {
    if b == [] {
      assert a + b == a;
    } else {
      var ab, n := a + b, |a + b| - 1;
      var init := b[..|b| - 1];
      assert ab[..n] == a + init && ab[n] == b[|b| - 1];
      assert ab[..n + 1] == ab && b[..|b|] == b;
      PresentPrefix(ab, n);
      PresentPrefix(b, |b| - 1);
      PresentAppend(a, init);
    }
  }

  /**
   * The search address. `string.Join(",", query)` with a single string argument
   * binds to the `params string[]` overload and yields the query unchanged.
   */
  function SearchUrl(query: string): string {
    "https://oeis.org/search?q=" + Join(",", [query]) + "&fmt=json"
  }

  /** The address of one article, `query` being its number as six or more digits. */
  function ItemUrl(query: string): string {
    "https://oeis.org/A" + query + "?fmt=json"
  }

  /** The search address carries the query text verbatim. */
  lemma SearchUrlCarriesQuery(query: string)
    ensures SearchUrl(query) == "https://oeis.org/search?q=" + query + "&fmt=json"
  {
  }

  /**
   * What `CoreQuerySequence` does. An empty query yields no articles and sends
   * nothing; otherwise one search request is sent, a failed request, a failing
   * status or an undecodable body raises, a null body yields no articles, and
   * an array yields the articles of its non-null records.
   */
  function Search(q: OeisQuery, query: string): (c: Call<seq<Article>>)
    ensures |c.sent| <= 1 && (c.sent == [] <==> query == [])
  {
    if query == [] then Call(Success([]), [])
    else
      var request := Get(HttpClientName, SearchUrl(query));
      var outcome :=
        match Receive(q.send(request))
        case Failure(e) => Failure(e)
        case Success(body) =>
          match DecodeArray(body)
          case Failure(e) => Failure(e)
          case Success(results) => Success(Present(results.GetOr([])));
      Call(outcome, [request])
  }

  /**
   * What `CoreQueryItem` does. An empty query yields the sentinel and sends
   * nothing; otherwise one article request is sent, failures raise as in a
   * search, a null body yields the sentinel and a record yields its article.
   */
  function Item(q: OeisQuery, query: string): (c: Call<Article>)
    ensures |c.sent| <= 1 && (c.sent == [] <==> query == [])
  {
    if query == [] then Call(Success(NoneArticle()), [])
    else
      var request := Get(HttpClientName, ItemUrl(query));
      var outcome :=
        match Receive(q.send(request))
        case Failure(e) => Failure(e)
        case Success(body) =>
          match DecodeObject(body)
          case Failure(e) => Failure(e)
          case Success(None) => Success(NoneArticle())
          case Success(Some(record)) => Success(FromResponse(record));
      Call(outcome, [request])
  }

  /** `CoreQuerySequence(query)`: the search, collecting the articles one result at a time. */
  method CoreQuerySequence(q: OeisQuery, query: string) returns (c: Call<seq<Article>>)
    ensures c == Search(q, query)
    ensures query == [] ==> c == Call(Success([]), [])
    ensures query != [] ==> c.sent == [Get(HttpClientName, SearchUrl(query))]
    ensures query != [] ==>
      var reply := q.send(Get(HttpClientName, SearchUrl(query)));
      && (reply.None? ==> c.result == Failure(NetworkFailure))
      && (reply.Some? && !IsSuccessStatus(reply.value.status) ==> c.result == Failure(HttpStatus(reply.value.status)))
      && (reply.Some? && IsSuccessStatus(reply.value.status) ==>
            match reply.value.body
            case JsonNull => c.result == Success([])
            case JsonArray(items) => c.result == Success(Present(items))
            case _ => c.result == Failure(DecodeFailed))
  {
    if query == [] {
      return Call(Success([]), []);
    }
    var request := Get(HttpClientName, SearchUrl(query));
    var body := Receive(q.send(request));
    if body.Failure? {
      return Call(Failure(body.error), [request]);
    }
    var decoded := DecodeArray(body.value);
    if decoded.Failure? {
      return Call(Failure(decoded.error), [request]);
    }
    var results := decoded.value.GetOr([]);
    var answer: seq<Article> := [];
    var i := 0;
    while i < |results|
      invariant 0 <= i <= |results|
      invariant answer == Present(results[..i])
    {
      PresentPrefix(results, i);
      if results[i].Some? {
        answer := answer + [FromResponse(results[i].value)];
      }
      i := i + 1;
    }
    assert results[..i] == results;
    return Call(Success(answer), [request]);
  }

  /** `CoreQueryItem(query)`: one article request. */
  method CoreQueryItem(q: OeisQuery, query: string) returns (c: Call<Article>)
    ensures c == Item(q, query)
    ensures query == [] ==> c == Call(Success(NoneArticle()), [])
    ensures query != [] ==> c.sent == [Get(HttpClientName, ItemUrl(query))]
    ensures query != [] ==>
      var reply := q.send(Get(HttpClientName, ItemUrl(query)));
      && (reply.None? ==> c.result == Failure(NetworkFailure))
      && (reply.Some? && !IsSuccessStatus(reply.value.status) ==> c.result == Failure(HttpStatus(reply.value.status)))
      && (reply.Some? && IsSuccessStatus(reply.value.status) ==>
            match reply.value.body
            case JsonNull => c.result == Success(NoneArticle())
            case JsonObject(record) => c.result == Success(FromResponse(record))
            case _ => c.result == Failure(DecodeFailed))
  {
    if query == [] {
      return Call(Success(NoneArticle()), []);
    }
    var request := Get(HttpClientName, ItemUrl(query));
    var body := Receive(q.send(request));
    if body.Failure? {
      return Call(Failure(body.error), [request]);
    }
    var decoded := DecodeObject(body.value);
    if decoded.Failure? {
      return Call(Failure(decoded.error), [request]);
    }
    if decoded.value.None? {
      return Call(Success(NoneArticle()), [request]);
    }
    return Call(Success(FromResponse(decoded.value.value)), [request]);
  }

  /** The invariant renderings of the items joined with commas: the search query of `QuerySequences`. */
  function QueryString(items: seq<int>): string {
    Join(",", Renderings(items))
  }

  /**
   * `QuerySequences<T>(sequence)`: null raises ArgumentNullException and sends
   * nothing; otherwise the search for the items' query string.
   */
  function QuerySequences(q: OeisQuery, sequence: Option<seq<int>>): (c: Call<seq<Article>>)
    ensures sequence.None? ==> c == Call(Failure(ArgumentNull("sequence")), [])
    ensures |c.sent| <= 1
  {
    match sequence
    case None => Call(Failure(ArgumentNull("sequence")), [])
    case Some(items) => Search(q, QueryString(items))
  }

  /** Whether `QuerySequence(int)` asks the server about `number` at all. */
  predicate InCatalogRange(number: int) {
    0 < number < NumberBound
  }

  /**
   * `QuerySequence(number)`: numbers outside 1..9999999 yield the sentinel
   * without a request; the others ask for the article by its six-digit number.
   */
  function QuerySequence(q: OeisQuery, number: Int32): (c: Call<Article>)
    ensures |c.sent| <= 1 && (c.sent != [] <==> InCatalogRange(number))
    ensures c.sent == [] ==> c.result == Success(NoneArticle())
  {
    if !InCatalogRange(number) then Call(Success(NoneArticle()), [])
    else Item(q, FormatD6(number))
  }

  /** The renderings of the items, in order. */
  function Renderings(items: seq<int>): (r: seq<string>)
    ensures |r| == |items|
    ensures forall i :: 0 <= i < |r| ==> r[i] == Render(items[i])
  {
    if items == [] then [] else [Render(items[0])] + Renderings(items[1..])
  }

  /** Every rendering is a comma-free token with no surrounding whitespace. */
  lemma RenderingsAreTokens(items: seq<int>)
    ensures forall i :: 0 <= i < |items| ==> IsTrimmedToken(Renderings(items)[i]) && ',' !in Renderings(items)[i]
  {
    forall i | 0 <= i < |items|
      ensures IsTrimmedToken(Renderings(items)[i]) && ',' !in Renderings(items)[i]
    {
      RenderIsToken(items[i]);
    }
  }

  /** The query is empty exactly when there are no items: only then is no request sent. */
  lemma QueryStringEmpty(items: seq<int>)
    ensures QueryString(items) == [] <==> items == []
  {
    var parts := Renderings(items);
    if items != [] {
      assert parts[0] != [];
      assert |Join(",", parts)| >= |parts[0]| by {
        if |parts| > 1 {
          assert Join(",", parts) == parts[0] + "," + Join(",", parts[1..]);
        }
      }
    }
  }

  /**
   * The query string lists the items unambiguously: split on commas it gives
   * back one token per item, in order, and each token parses to its item.
   */
  lemma QueryStringRoundTrip(items: seq<int>, lo: int, hi: int)
    requires forall i :: 0 <= i < |items| ==> lo <= items[i] <= hi
    ensures |SplitTokens(QueryString(items), ',')| == |items|
    ensures forall i :: 0 <= i < |items| ==> ParseInteger(SplitTokens(QueryString(items), ',')[i], lo, hi) == Some(items[i])
  {
    var parts := Renderings(items);
    RenderingsAreTokens(items);
    SplitTokensJoin(parts, ',');
    forall i | 0 <= i < |items|
      ensures ParseInteger(parts[i], lo, hi) == Some(items[i])
    {
      ParseRender(items[i], lo, hi);
    }
  }

  /**
   * A search sends nothing for an empty query and otherwise exactly one GET,
   * through the named client, to the search address carrying the query.
   */
  lemma SearchRequest(q: OeisQuery, query: string)
    ensures query == [] ==> Search(q, query) == Call(Success([]), [])
    ensures query != [] ==> Search(q, query).sent == [Get("OEIS", "https://oeis.org/search?q=" + query + "&fmt=json")]
  {
    SearchUrlCarriesQuery(query);
  }

  /**
   * How a search ends, given the reply to its request: a failed request or a
   * failing status raises; a body that is neither null nor an array raises; a
   * null body gives no articles; an array gives the articles of its non-null
   * records, in order.
   */
  lemma SearchOutcome(q: OeisQuery, query: string)
    requires query != []
    ensures var reply := q.send(Get(HttpClientName, SearchUrl(query)));
      var r := Search(q, query).result;
      && (reply.None? ==> r == Failure(NetworkFailure))
      && (reply.Some? && !IsSuccessStatus(reply.value.status) ==> r == Failure(HttpStatus(reply.value.status)))
      && (reply.Some? && IsSuccessStatus(reply.value.status) ==>
            match reply.value.body
            case JsonNull => r == Success([])
            case JsonArray(items) => r.Success? && |r.value| == |Records(items)|
              && forall k :: 0 <= k < |r.value| ==> r.value[k] == FromResponse(Records(items)[k])
            case _ => r == Failure(DecodeFailed))
  {
  }

  /** Every article present is the article of a non-null record. */
  lemma PresentFromRecords(items: seq<Option<Response>>)
    ensures forall a :: a in Present(items) ==> exists x :: Some(x) in items && a == FromResponse(x)
  {
    var articles, records := Present(items), Records(items);
    RecordsMembers(items);
    forall a | a in articles
      ensures exists x :: Some(x) in items && a == FromResponse(x)
    {
      var k :| 0 <= k < |articles| && articles[k] == a;
      assert records[k] in records;
    }
  }

  /** Every non-null record yields its article. */
  lemma PresentHasEveryRecord(items: seq<Option<Response>>)
    ensures forall x :: Some(x) in items ==> FromResponse(x) in Present(items)
  {
    var articles, records := Present(items), Records(items);
    RecordsMembers(items);
    forall x | Some(x) in items
      ensures FromResponse(x) in articles
    {
      assert x in records;
      var k :| 0 <= k < |records| && records[k] == x;
      assert articles[k] == FromResponse(x);
    }
  }

  /**
   * An article in a successful search comes from a record of the reply, and
   * every record of the reply is among the articles, carrying the record's
   * number and the catalog name of that number.
   */
  lemma SearchFindsRecords(q: OeisQuery, query: string, items: seq<Option<Response>>, status: int)
    requires query != []
    requires q.send(Get(HttpClientName, SearchUrl(query))) == Some(HttpReply(status, JsonArray(items)))
    requires IsSuccessStatus(status)
    ensures Search(q, query).result.Success?
    ensures forall a :: a in Search(q, query).result.value ==> exists x :: Some(x) in items && a == FromResponse(x)
    ensures forall x :: Some(x) in items ==> FromResponse(x) in Search(q, query).result.value
    ensures forall x :: Some(x) in items ==> FromResponse(x).number == x.number && FromResponse(x).name == ArticleName(x.number)
  {
    assert Search(q, query).result == Success(Present(items));
    PresentFromRecords(items);
    PresentHasEveryRecord(items);
  }

  /** `QuerySequences` rejects a null list before sending anything, and sends nothing for an empty list. */
  lemma QuerySequencesEdges(q: OeisQuery)
    ensures QuerySequences(q, None) == Call(Failure(ArgumentNull("sequence")), [])
    ensures QuerySequences(q, Some([])) == Call(Success([]), [])
  {
    assert Renderings([]) == [];
  }

  /** For a non-empty list, `QuerySequences` sends one search for the comma-separated renderings. */
  lemma QuerySequencesRequest(q: OeisQuery, items: seq<int>)
    requires items != []
    ensures QuerySequences(q, Some(items)).sent
         == [Get("OEIS", "https://oeis.org/search?q=" + QueryString(items) + "&fmt=json")]
  {
    QueryStringEmpty(items);
    SearchRequest(q, QueryString(items));
  }

  /** The catalog number 45 is formatted as "000045". */
  lemma FormatD6Of45()
    ensures FormatD6(45) == "000045"
  {
    assert Digits(4) == "4";
    assert Digits(45) == "45";
    assert Zeros(4) == "0000";
  }

  /** The catalog name of 45 and the address of its article. */
  lemma FibonacciAddress()
    ensures ArticleName(45) == "A000045"
    ensures ItemUrl(FormatD6(45)) == "https://oeis.org/A000045?fmt=json"
  {
    FormatD6Of45();
    assert "https://oeis.org/A" + "000045" + "?fmt=json" == "https://oeis.org/A000045?fmt=json";
  }

  /**
   * `QuerySequence(number)` sends nothing outside 1..9999999 and yields the
   * sentinel; inside, it sends exactly one GET for the article's catalog name.
   */
  lemma QuerySequenceRequest(q: OeisQuery, number: Int32)
    ensures !InCatalogRange(number) ==> QuerySequence(q, number) == Call(Success(NoneArticle()), [])
    ensures InCatalogRange(number) ==>
      QuerySequence(q, number).sent == [Get("OEIS", "https://oeis.org/" + ArticleName(number) + "?fmt=json")]
  {
    if InCatalogRange(number) {
      assert ItemUrl(FormatD6(number)) == "https://oeis.org/" + ArticleName(number) + "?fmt=json";
    }
  }

  /**
   * How `QuerySequence(number)` ends, for a number it asks about, given the
   * reply: a failed request or a failing status raises, a null body gives the
   * sentinel, a record gives its article, and anything else raises.
   */
  lemma QuerySequenceOutcome(q: OeisQuery, number: Int32)
    requires InCatalogRange(number)
    ensures var reply := q.send(Get(HttpClientName, ItemUrl(FormatD6(number))));
      var r := QuerySequence(q, number).result;
      && (reply.None? ==> r == Failure(NetworkFailure))
      && (reply.Some? && !IsSuccessStatus(reply.value.status) ==> r == Failure(HttpStatus(reply.value.status)))
      && (reply.Some? && IsSuccessStatus(reply.value.status) ==>
            match reply.value.body
            case JsonNull => r == Success(NoneArticle())
            case JsonObject(record) => r == Success(FromResponse(record))
            case _ => r == Failure(DecodeFailed))
  {
  }

  /**
   * The Fibonacci article: when the server answers the request for A000045
   * with the Fibonacci record, `QuerySequence(45)` yields an article numbered
   * 45, named "A000045", titled with the record's name.
   */
  lemma QuerySequenceFibonacci(q: OeisQuery)
    requires q.send(Get("OEIS", "https://oeis.org/A000045?fmt=json")) == Some(HttpReply(200, JsonObject(FibonacciRecord())))
    ensures var r := QuerySequence(q, 45).result;
      && r.Success? && r.value.number == 45 && r.value.name == "A000045"
      && r.value.title == FibonacciRecord().name.value
  {
    FibonacciAddress();
    QuerySequenceOutcome(q, 45);
  }

  /**
   * An unknown article: when the server answers with a null body, the result
   * is the sentinel, which equals `IOeisSequence.None`.
   */
  lemma QuerySequenceUnknown(q: OeisQuery, number: Int32, status: int)
    requires InCatalogRange(number) && IsSuccessStatus(status)
    requires q.send(Get(HttpClientName, ItemUrl(FormatD6(number)))) == Some(HttpReply(status, JsonNull))
    ensures QuerySequence(q, number).result == Success(NoneArticle())
    ensures Equals(NoneArticle(), Some(QuerySequence(q, number).result.value))
  {
  }

  /** Unknown items: when the search reply is null, no articles are found. */
  lemma QuerySequencesUnknown(q: OeisQuery, items: seq<int>, status: int)
    requires IsSuccessStatus(status)
    requires q.send(Get(HttpClientName, SearchUrl(QueryString(items)))) == Some(HttpReply(status, JsonNull))
    ensures QuerySequences(q, Some(items)).result == Success([])
  {
  }

  /** A list of single digits becomes those digits separated by commas. */
  lemma QueryStringOfDigits(d: char, x: int, rest: seq<int>)
    requires IsDigit(d) && x == DigitValue(d)
    ensures rest == [] ==> QueryString([x] + rest) == [d]
    ensures rest != [] ==> QueryString([x] + rest) == [d, ','] + QueryString(rest)
  {
    var items := [x] + rest;
    assert items[1..] == rest;
    assert Render(x) == [d];
    var parts := Renderings(items);
    assert parts == [Render(x)] + Renderings(rest);
    if rest != [] {
      assert parts[1..] == Renderings(rest);
    }
  }

  /** The three last Fibonacci terms of the query become "3,5,8". */
  lemma FibonacciQueryTail()
    ensures QueryString([3, 5, 8]) == "3,5,8"
  {
    QueryStringOfDigits('8', 8, []);
    QueryStringOfDigits('5', 5, [8]);
    QueryStringOfDigits('3', 3, [5, 8]);
  }

  /** The leading Fibonacci terms become the query "1,1,2,3,5,8". */
  lemma FibonacciQueryString()
    ensures QueryString([1, 1, 2, 3, 5, 8]) == "1,1,2,3,5,8"
  {
    FibonacciQueryTail();
    QueryStringOfDigits('2', 2, [3, 5, 8]);
    QueryStringOfDigits('1', 1, [2, 3, 5, 8]);
    QueryStringOfDigits('1', 1, [1, 2, 3, 5, 8]);
  }

  /**
   * Searching for the leading Fibonacci terms: the one request asks for
   * "1,1,2,3,5,8", and when its reply lists any record numbered 45, that
   * record's article, named "A000045", is among those found.
   */
  lemma QuerySequencesFibonacci(q: OeisQuery, items: seq<Option<Response>>, status: int, record: Response)
    requires IsSuccessStatus(status) && Some(record) in items && record.number == 45
    requires q.send(Get("OEIS", "https://oeis.org/search?q=1,1,2,3,5,8&fmt=json")) == Some(HttpReply(status, JsonArray(items)))
    ensures QuerySequences(q, Some([1, 1, 2, 3, 5, 8])).sent == [Get("OEIS", "https://oeis.org/search?q=1,1,2,3,5,8&fmt=json")]
    ensures var r := QuerySequences(q, Some([1, 1, 2, 3, 5, 8])).result;
      r.Success? && FromResponse(record) in r.value
      && exists a :: a in r.value && a.number == 45 && a.name == "A000045"
  {
    var query := QueryString([1, 1, 2, 3, 5, 8]);
    FibonacciSearchUrl();
    QueryStringEmpty([1, 1, 2, 3, 5, 8]);
    SearchRequest(q, query);
    SearchFindsRecords(q, query, items, status);
    FibonacciAddress();
    var a := FromResponse(record);
    assert a.number == 45 && a.name == "A000045";
    assert a in QuerySequences(q, Some([1, 1, 2, 3, 5, 8])).result.value;
  }

  lemma FibonacciSearchUrl()
    ensures SearchUrl(QueryString([1, 1, 2, 3, 5, 8])) == "https://oeis.org/search?q=1,1,2,3,5,8&fmt=json"
  {
    FibonacciQueryString();
    SearchUrlCarriesQuery("1,1,2,3,5,8");
  }
}

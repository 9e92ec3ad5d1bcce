/**
 * The encyclopedia article (`OeisSequence`): an immutable value built from a
 * decoded response record, identified and ordered by its catalog number, whose
 * leading terms are recovered on demand from the stored textual data.
 */
module OeisSequence {
  import opened Wrappers
  import opened Text
  import opened Numerals

  /**
   * The decoded JSON record (`OeisSequenceResponse`). The number defaults to 0
   * when missing; every other field may be absent (null).
   */
  datatype Response = Response(
    number: Int32,
    data: Option<string>,
    name: Option<string>,
    comments: Option<seq<string>>,
    references: Option<seq<string>>,
    links: Option<seq<string>>,
    formulae: Option<seq<string>>)

  /** An article: its public properties and the private `RawData` tokens. */
  datatype Article = Article(
    number: Int32,
    name: string,
    title: string,
    comments: seq<string>,
    references: seq<string>,
    links: seq<string>,
    formulae: seq<string>,
    rawData: seq<string>)

  /** A token of `RawData`: non-empty, no surrounding whitespace, no comma. */
  predicate IsDataToken(t: string) {
    IsTrimmedToken(t) && ',' !in t
  }

  /** What every article satisfies: its name is derived from its number, its data tokens are clean. */
  predicate Valid(a: Article) {
    && a.name == ArticleName(a.number)
    && forall i :: 0 <= i < |a.rawData| ==> IsDataToken(a.rawData[i])
  }

  /**
   * The catalog name of a number: "A" followed by the number formatted with
   * at least six digits.
   */
  function ArticleName(number: Int32): (name: string)
    ensures |name| >= 7 && name[0] == 'A' && name[1..] == FormatD6(number)
  {
    var name := "A" + FormatD6(number);
    assert name[1..] == FormatD6(number);
    name
  }

  /** A catalog name has no surrounding whitespace: it starts with 'A' and ends with a digit. */
  lemma ArticleNameIsToken(number: Int32)
    ensures IsTrimmedToken(ArticleName(number))
  {
    var name := ArticleName(number);
    var body := FormatD6(number)[if number < 0 then 1 else 0..];
    var last := body[|body| - 1];
    assert IsDigit(last) && !IsWhiteSpace(last);
    assert name[0] == 'A' && name[|name| - 1] == last;
  }

  /** What follows the 'A' of a catalog name parses back to its number. */
  lemma ArticleNameParses(number: Int32)
    ensures ParseInt32(ArticleName(number)[1..]) == Some(number)
  {
    ParseFormatD6(number, MinInt32, MaxInt32);
  }

  /** `IOeisSequence.None`, the parameterless construction: number 0, name "A000000", nothing else. */
  function NoneArticle(): (a: Article)
    ensures Valid(a) && a.number == 0
  {
    var a := Article(0, "A000000", "", [], [], [], [], []);
    assert FormatD6(0) == "000000" by {
      assert Digits(0) == "0";
      assert Zeros(5) == "00000";
    }
    a
  }

  /**
   * `new OeisSequence(response)`: copies the number, derives the name, turns
   * absent text into "" and absent lists into [], and stores the data string
   * split on commas with each entry trimmed and the empty ones dropped.
   */
  function FromResponse(r: Response): (a: Article)
    ensures Valid(a)
    ensures a.number == r.number
    ensures a.title == r.name.GetOr("")
    ensures && a.comments == r.comments.GetOr([]) && a.references == r.references.GetOr([])
            && a.links == r.links.GetOr([]) && a.formulae == r.formulae.GetOr([])
    ensures a.rawData == SplitTokens(r.data.GetOr(""), ',')
  {
    SplitTokensClean(r.data.GetOr(""), ',');
    Article(
      r.number,
      ArticleName(r.number),
      r.name.GetOr(""),
      r.comments.GetOr([]),
      r.references.GetOr([]),
      r.links.GetOr([]),
      r.formulae.GetOr([]),
      SplitTokens(r.data.GetOr(""), ','))
  }

  /** The sentinel is exactly the article built from a record with number 0 and no fields. */
  lemma NoneIsEmptyRecord()
    ensures NoneArticle() == FromResponse(Response(0, None, None, None, None, None, None))
  {
    assert Split("", ',') == [""];
    assert Trim("") == "";
  }

  /** Data written as clean comma-separated tokens is stored as exactly those tokens. */
  lemma StoredTokensOfJoinedData(r: Response, tokens: seq<string>)
    requires forall i :: 0 <= i < |tokens| ==> IsDataToken(tokens[i])
    requires r.data == Some(Join(",", tokens))
    ensures FromResponse(r).rawData == tokens
  {
    SplitTokensJoin(tokens, ',');
  }

  /**
   * The take-while-parses run: `parse` applied to the longest prefix of `tokens`
   * whose every token parses. It stops at the first token that does not parse.
   */
  function TakeParsed<T>(tokens: seq<string>, parse: string -> Option<T>): (r: seq<T>)
    ensures |r| <= |tokens|
    ensures forall i :: 0 <= i < |r| ==> parse(tokens[i]) == Some(r[i])
    ensures |r| < |tokens| ==> parse(tokens[|r|]).None?
  {
    if tokens == [] then []
    else
      match parse(tokens[0])
      case None => []
      case Some(v) => [v] + TakeParsed(tokens[1..], parse)
  }

  /** `FirstItems<T>()`, with `T.TryParse` given as `parse`. */
  function FirstItems<T>(a: Article, parse: string -> Option<T>): (items: seq<T>)
    ensures |items| <= |a.rawData|
    ensures forall i :: 0 <= i < |items| ==> parse(a.rawData[i]) == Some(items[i])
    ensures |items| < |a.rawData| ==> parse(a.rawData[|items|]).None?
  {
    TakeParsed(a.rawData, parse)
  }

  /** While every token parses, the run continues into whatever follows. */
  lemma {:induction false} TakeParsedAllParse<T>(a: seq<string>, b: seq<string>, parse: string -> Option<T>)
    requires forall i :: 0 <= i < |a| ==> parse(a[i]).Some?
    ensures TakeParsed(a + b, parse) == TakeParsed(a, parse) + TakeParsed(b, parse)
  {
    if a == [] {
      assert a + b == b;
    } else {
      assert (a + b)[1..] == a[1..] + b;
      assert forall i :: 1 <= i < |a| ==> a[1..][i - 1] == a[i];
      TakeParsedAllParse(a[1..], b, parse);
    }
  }

  /** The run never resumes: after a token that does not parse, nothing that follows is taken. */
  lemma {:induction false} TakeParsedStops<T>(a: seq<string>, b: seq<string>, k: nat, parse: string -> Option<T>)
    requires k < |a| && parse(a[k]).None?
    ensures TakeParsed(a + b, parse) == TakeParsed(a, parse)
  {
    assert (a + b)[0] == a[0];
    if k > 0 {
      assert (a + b)[1..] == a[1..] + b;
      assert a[1..][k - 1] == a[k];
      TakeParsedStops(a[1..], b, k - 1, parse);
    }
  }

  /**
   * The run is determined by the tokens: if the first `|values|` tokens parse to
   * `values` and the next one (if any) does not parse, the run is exactly `values`.
   */
  lemma {:induction false} TakeParsedExact<T>(tokens: seq<string>, parse: string -> Option<T>, values: seq<T>)
    requires |values| <= |tokens|
    requires forall i :: 0 <= i < |values| ==> parse(tokens[i]) == Some(values[i])
    requires |values| < |tokens| ==> parse(tokens[|values|]).None?
    ensures TakeParsed(tokens, parse) == values
  {
    if values != [] {
      assert parse(tokens[0]) == Some(values[0]);
      TakeParsedExact(tokens[1..], parse, values[1..]);
      assert values == [values[0]] + values[1..];
    }
  }

  /** The sentinel yields no items, whatever the parser. */
  lemma NoneHasNoItems<T>(parse: string -> Option<T>)
    ensures FirstItems(NoneArticle(), parse) == []
  {
  }

  /** The Fibonacci record as the encyclopedia serves its leading terms. */
  function FibonacciRecord(): Response {
    Response(45, Some(Join(",", FibonacciTokenList())),
             Some("Fibonacci numbers: F(n) = F(n-1) + F(n-2) with F(0) = 0 and F(1) = 1."),
             None, None, None, None)
  }

  /** The terms the Fibonacci record's data lists, as text. */
  function FibonacciTokenList(): seq<string> {
    ["0", "1", "1", "2", "3", "5", "8", "13", "21", "34", "55", "89", "144", "233", "377", "610"]
  }

  /** The terms the Fibonacci record's data lists, as numbers. */
  function FibonacciTerms(): seq<int> {
    [0, 1, 1, 2, 3, 5, 8, 13, 21, 34, 55, 89, 144, 233, 377, 610]
  }

  lemma FibonacciNumerals(i: nat)
    requires i < |FibonacciTokenList()|
    ensures FibonacciTokenList()[i] != [] && AllDigits(FibonacciTokenList()[i])
    ensures Value(FibonacciTokenList()[i]) == FibonacciTerms()[i]
  {
    ShortNumeralValue(FibonacciTokenList()[i]);
  }

  lemma NumeralIsDataToken(t: string)
    requires t != [] && AllDigits(t)
    ensures IsDataToken(t)
  {
    assert IsDigit(t[0]) && IsDigit(t[|t| - 1]);
  }

  /** The Fibonacci data, split into its tokens. */
  lemma FibonacciTokens()
    ensures FromResponse(FibonacciRecord()).rawData == FibonacciTokenList()
  {
    var tokens := FibonacciTokenList();
    forall i | 0 <= i < |tokens|
      ensures IsDataToken(tokens[i])
    {
      FibonacciNumerals(i);
      NumeralIsDataToken(tokens[i]);
    }
    StoredTokensOfJoinedData(FibonacciRecord(), tokens);
  }

  /** A numeral parses as a byte exactly when its value fits in one. */
  lemma ParseByteNumeral(t: string)
    requires t != [] && AllDigits(t)
    ensures ParseByte(t) == if Value(t) <= 255 then Some(Value(t)) else None
  {
    assert "" + t == t;
    if Value(t) <= 255 {
      SignedNumeralParses(false, t, 0, 255);
    } else {
      SignedNumeralParses(false, t, 0, Value(t));
    }
  }

  /**
   * Parsed as bytes, a list of numerals yields their values up to the first one
   * above 255, which ends the run.
   */
  lemma NumeralsAsBytes(tokens: seq<string>, terms: seq<int>, k: nat)
    requires k < |tokens| && k < |terms|
    requires forall i :: 0 <= i <= k ==> tokens[i] != [] && AllDigits(tokens[i]) && Value(tokens[i]) == terms[i]
    requires forall i :: 0 <= i < k ==> terms[i] <= 255
    requires terms[k] > 255
    ensures TakeParsed(tokens, ParseByte) == terms[..k]
  {
    forall i | 0 <= i < k
      ensures ParseByte(tokens[i]) == Some(terms[..k][i])
    {
      ParseByteNumeral(tokens[i]);
    }
    ParseByteNumeral(tokens[k]);
    TakeParsedExact(tokens, ParseByte, terms[..k]);
  }

  /** The first fourteen terms fit in a byte and the fifteenth, 377, does not. */
  lemma FibonacciByteTerms()
    ensures |FibonacciTerms()| == |FibonacciTokenList()| == 16
    ensures forall i :: 0 <= i < 14 ==> FibonacciTerms()[i] <= 255
    ensures FibonacciTerms()[14] == 377
    ensures FibonacciTerms()[..14] == [0, 1, 1, 2, 3, 5, 8, 13, 21, 34, 55, 89, 144, 233]
  {
  }

  /**
   * Parsed as bytes, any article whose data begins with the Fibonacci terms 0 to
   * 377 yields the terms up to 233; 377 does not fit and ends the run, so
   * whatever the data holds after it is never read.
   */
  lemma FibonacciFirstBytes(a: Article)
    requires |a.rawData| >= 15 && a.rawData[..15] == FibonacciTokenList()[..15]
    ensures FirstItems(a, ParseByte) == [0, 1, 1, 2, 3, 5, 8, 13, 21, 34, 55, 89, 144, 233]
  {
    forall i | 0 <= i <= 14
      ensures a.rawData[i] != [] && AllDigits(a.rawData[i])
      ensures Value(a.rawData[i]) == FibonacciTerms()[i]
    {
      assert a.rawData[i] == a.rawData[..15][i];
      FibonacciNumerals(i);
    }
    FibonacciByteTerms();
    NumeralsAsBytes(a.rawData, FibonacciTerms(), 14);
  }

  /** The stand-in Fibonacci record is such an article. */
  lemma FibonacciRecordFirstBytes()
    ensures FirstItems(FromResponse(FibonacciRecord()), ParseByte)
         == [0, 1, 1, 2, 3, 5, 8, 13, 21, 34, 55, 89, 144, 233]
  {
    FibonacciTokens();
    FibonacciFirstBytes(FromResponse(FibonacciRecord()));
  }

  /** `Equals(IOeisSequence? other)`: a non-null article with the same number. */
  function Equals(a: Article, other: Option<Article>): bool {
    other.Some? && other.value.number == a.number
  }

  /** `GetHashCode()`: the number itself. */
  function HashCode(a: Article): int {
    a.number
  }

  /** Equality is an equivalence on articles, never holds for null, and agrees with the hash code. */
  lemma EqualsIsEquivalence(a: Article, b: Article, c: Article)
    ensures Equals(a, Some(a))
    ensures !Equals(a, None)
    ensures Equals(a, Some(b)) <==> Equals(b, Some(a))
    ensures Equals(a, Some(b)) && Equals(b, Some(c)) ==> Equals(a, Some(c))
    ensures Equals(a, Some(b)) ==> HashCode(a) == HashCode(b)
  {
  }

  /** `Int32.CompareTo`: -1, 0 or 1. */
  function CompareNumbers(x: int, y: int): int {
    if x < y then -1 else if x > y then 1 else 0
  }

  /**
   * `CompareTo(IOeisSequence? other)`: null ranks below every article; otherwise
   * the sign follows the numbers, and zero is exactly equality.
   */
  function CompareTo(a: Article, other: Option<Article>): (c: int)
    ensures other.None? ==> c > 0
    ensures other.Some? ==> (c < 0 <==> a.number < other.value.number)
    ensures other.Some? ==> (c > 0 <==> a.number > other.value.number)
    ensures c == 0 <==> Equals(a, other)
  {
    if other.None? then 1 else CompareNumbers(a.number, other.value.number)
  }

  /** The comparison is a total order: antisymmetric in sign and transitive. */
  lemma CompareToIsTotalOrder(a: Article, b: Article, c: Article)
    ensures CompareTo(a, Some(b)) == -CompareTo(b, Some(a))
    ensures CompareTo(a, Some(b)) <= 0 || CompareTo(b, Some(a)) <= 0
    ensures CompareTo(a, Some(b)) <= 0 && CompareTo(b, Some(c)) <= 0 ==> CompareTo(a, Some(c)) <= 0
    ensures CompareTo(a, Some(b)) < 0 && CompareTo(b, Some(c)) < 0 ==> CompareTo(a, Some(c)) < 0
  {
  }
}

/**
 * The convenience entry points (`OeisQueryExtensions`): a lookup by catalog
 * name such as "A000045", given as a string or as a span of characters, and
 * a search over a `params` list of integers. Each one checks its arguments
 * for null and forwards to the query object.
 */
module OeisQueryExtensions {
  import opened Wrappers
  import opened Text
  import opened Numerals
  import opened OeisSequence
  import opened OeisQuery

  /** `string.IsNullOrWhiteSpace`. */
  predicate IsNullOrWhiteSpace(s: Option<string>) {
    s.None? || AllWhite(s.value, IsWhiteSpace)
  }

  /**
   * The catalog number a name denotes: after trimming, more than one character,
   * an 'a' or 'A' first, and the rest parsing as an `int`.
   */
  function NameNumber(name: string): Option<Int32> {
    var t := Trim(name);
    if |t| > 1 && (t[0] == 'a' || t[0] == 'A') then ParseInt32(t[1..]) else None
  }

  /**
   * `QuerySequence(query, ReadOnlySpan<char> name)`: a null query raises; a
   * name that denotes no number yields the sentinel without a request; any
   * other name is looked up by its number.
   */
  function QuerySequenceBySpan(query: Option<OeisQuery>, name: string): (c: Call<Article>)
    ensures query.None? ==> c == Call(Failure(ArgumentNull("query")), [])
    ensures |c.sent| <= 1
    ensures c.sent != [] ==> NameNumber(name).Some? && InCatalogRange(NameNumber(name).value)
  {
    match query
    case None => Call(Failure(ArgumentNull("query")), [])
    case Some(q) =>
      match NameNumber(name)
      case None => Call(Success(NoneArticle()), [])
      case Some(number) => QuerySequence(q, number)
  }

  /**
   * `QuerySequence(query, string name)`: a null query raises first; a null or
   * blank name yields the sentinel without a request; any other name is
   * looked up as a span.
   */
  function QuerySequenceByName(query: Option<OeisQuery>, name: Option<string>): (c: Call<Article>)
    ensures query.None? ==> c == Call(Failure(ArgumentNull("query")), [])
    ensures query.Some? && name.None? ==> c == Call(Success(NoneArticle()), [])
    ensures |c.sent| <= 1
    ensures c.sent != [] ==> name.Some? && NameNumber(name.value).Some? && InCatalogRange(NameNumber(name.value).value)
  {
    if query.None? then Call(Failure(ArgumentNull("query")), [])
    else if IsNullOrWhiteSpace(name) then Call(Success(NoneArticle()), [])
    else QuerySequenceBySpan(query, name.value)
  }

  /**
   * `QuerySequences(query, params sequence)`: a null query raises first, then
   * a null list; otherwise the query object's search.
   */
  function QuerySequencesOf(query: Option<OeisQuery>, sequence: Option<seq<int>>): (c: Call<seq<Article>>)
    ensures query.None? ==> c == Call(Failure(ArgumentNull("query")), [])
    ensures query.Some? && sequence.None? ==> c == Call(Failure(ArgumentNull("sequence")), [])
    ensures |c.sent| <= 1
  {
    if query.None? then Call(Failure(ArgumentNull("query")), [])
    else if sequence.None? then Call(Failure(ArgumentNull("sequence")), [])
    else QuerySequences(query.value, sequence)
  }

  /** The null checks come first and send nothing; past them the forwarder is the query object's search. */
  lemma QuerySequencesOfForwards(query: Option<OeisQuery>, sequence: Option<seq<int>>)
    ensures query.None? ==> QuerySequencesOf(query, sequence) == Call(Failure(ArgumentNull("query")), [])
    ensures query.Some? ==> QuerySequencesOf(query, sequence) == QuerySequences(query.value, sequence)
  {
  }

  /** A null query is rejected by every lookup before the name is looked at. */
  lemma NullQueryRejected(name: Option<string>)
    ensures QuerySequenceByName(None, name) == Call(Failure(ArgumentNull("query")), [])
    ensures name.Some? ==> QuerySequenceBySpan(None, name.value) == Call(Failure(ArgumentNull("query")), [])
  {
  }

  /**
   * The blank-name check of the string overload changes nothing: a blank name
   * trims to nothing, which the span overload rejects in the same way.
   */
  lemma BlankCheckRedundant(q: OeisQuery, name: string)
    ensures QuerySequenceByName(Some(q), Some(name)) == QuerySequenceBySpan(Some(q), name)
  {
    TrimWithSpec(name, IsWhiteSpace);
  }

  /**
   * A lookup by name sends at most one request, and only for the number the
   * name denotes, when that number is in the catalog range.
   */
  lemma QuerySequenceByNameRequest(q: OeisQuery, name: string)
    ensures var c := QuerySequenceByName(Some(q), Some(name));
      && (c.sent == [] || (NameNumber(name).Some? && InCatalogRange(NameNumber(name).value)))
      && (NameNumber(name).None? ==> c == Call(Success(NoneArticle()), []))
      && (NameNumber(name).Some? ==> c == QuerySequence(q, NameNumber(name).value))
  {
    BlankCheckRedundant(q, name);
    if NameNumber(name).Some? {
      QuerySequenceRequest(q, NameNumber(name).value);
    }
  }

  /**
   * A name that trims to fewer than two characters, or whose first character
   * is not the letter 'a' or 'A', denotes no number.
   */
  lemma NameRejected(name: string)
    requires |Trim(name)| <= 1 || (Trim(name)[0] != 'a' && Trim(name)[0] != 'A')
    ensures NameNumber(name) == None
  {
  }

  /**
   * A name that denotes a number is the letter 'a' or 'A' followed, after
   * number whitespace, by one or more digits with an optional sign, and the
   * number is the signed value of those digits.
   */
  lemma NameAccepted(name: string)
    requires NameNumber(name).Some?
    ensures |Trim(name)| > 1 && (Trim(name)[0] == 'a' || Trim(name)[0] == 'A')
    ensures var u := TrimWith(Trim(name)[1..], IsNumberWhite);
      var n := NameNumber(name).value;
      exists body :: body != [] && AllDigits(body)
        && ((u == body && n == Value(body))
         || (u == "+" + body && n == Value(body))
         || (u == "-" + body && n == -(Value(body) as int)))
  {
    ParseIntegerAccepted(Trim(name)[1..], MinInt32, MaxInt32);
  }

  /** The empty name, a blank name and "not-a-number" yield the sentinel without a request. */
  lemma NonNamesSendNothing(q: OeisQuery)
    ensures QuerySequenceByName(Some(q), Some("")) == Call(Success(NoneArticle()), [])
    ensures QuerySequenceByName(Some(q), Some("  \t")) == Call(Success(NoneArticle()), [])
    ensures QuerySequenceByName(Some(q), Some("not-a-number")) == Call(Success(NoneArticle()), [])
  {
    assert AllWhite("  \t", IsWhiteSpace);
    TrimWithIdentity("not-a-number", IsWhiteSpace);
    NameRejected("not-a-number");
    QuerySequenceByNameRequest(q, "not-a-number");
  }

  /** Every catalog name denotes its number. */
  lemma NameNumberOfArticleName(number: Int32)
    ensures NameNumber(ArticleName(number)) == Some(number)
  {
    ArticleNameIsToken(number);
    TrimWithIdentity(ArticleName(number), IsWhiteSpace);
    ArticleNameParses(number);
  }

  /** Looking up the catalog name of a number is looking up the number. */
  lemma QuerySequenceByArticleName(q: OeisQuery, number: Int32)
    ensures QuerySequenceByName(Some(q), Some(ArticleName(number))) == QuerySequence(q, number)
  {
    NameNumberOfArticleName(number);
    BlankCheckRedundant(q, ArticleName(number));
  }

  /** "A000045" finds the same article, by the same request, as the number 45. */
  lemma FibonacciByName(q: OeisQuery)
    ensures QuerySequenceByName(Some(q), Some("A000045")) == QuerySequence(q, 45)
  {
    FibonacciAddress();
    QuerySequenceByArticleName(q, 45);
  }

  /** The prefix letter may be lower case. */
  lemma NameCaseInsensitive(q: OeisQuery, rest: string)
    ensures QuerySequenceByName(Some(q), Some("a" + rest)) == QuerySequenceByName(Some(q), Some("A" + rest))
  {
    TrimWithPrepend('a', rest, IsWhiteSpace);
    TrimWithPrepend('A', rest, IsWhiteSpace);
    BlankCheckRedundant(q, "a" + rest);
    BlankCheckRedundant(q, "A" + rest);
    assert Trim("a" + rest)[1..] == Trim("A" + rest)[1..];
  }

  /** Whitespace around a name does not matter. */
  lemma NamePadding(q: OeisQuery, w1: string, name: string, w2: string)
    requires AllWhite(w1, IsWhiteSpace) && AllWhite(w2, IsWhiteSpace)
    ensures QuerySequenceByName(Some(q), Some(w1 + name + w2)) == QuerySequenceByName(Some(q), Some(name))
  {
    TrimWithPadded(w1, name, w2, IsWhiteSpace);
    BlankCheckRedundant(q, w1 + name + w2);
    BlankCheckRedundant(q, name);
  }

  /** "A" followed by digits denotes the number the digits denote, when it is an `int`. */
  lemma NameNumberOfNumeral(digits: string)
    requires digits != [] && AllDigits(digits) && Value(digits) <= MaxInt32
    ensures NameNumber("A" + digits) == Some(Value(digits))
  {
    var name := "A" + digits;
    assert name[1..] == digits;
    assert IsDigit(digits[|digits| - 1]);
    TrimWithIdentity(name, IsWhiteSpace);
    assert "" + digits == digits;
    SignedNumeralParses(false, digits, MinInt32, MaxInt32);
  }

  /**
   * After the letter, a name denotes whatever `int.TryParse` makes of the rest
   * once the trailing `char.IsWhiteSpace` characters are trimmed.
   */
  lemma NameNumberOfText(letter: char, rest: string)
    requires letter == 'a' || letter == 'A'
    ensures NameNumber([letter] + rest) == ParseInt32(TrimEnd(rest, IsWhiteSpace))
  {
    TrimWithPrepend(letter, rest, IsWhiteSpace);
    var tail := TrimEnd(rest, IsWhiteSpace);
    if tail == [] {
      assert TrimWith(tail, IsNumberWhite) == [];
    } else {
      assert Trim([letter] + rest)[1..] == tail;
    }
  }

  /**
   * "A" followed by number whitespace, an optional '+' or '-', digits and
   * trailing whitespace denotes the signed value of the digits when it is an
   * `int`, and nothing otherwise.
   */
  lemma NameNumberOfPaddedNumeral(w1: string, sign: string, body: string, w2: string)
    requires AllWhite(w1, IsNumberWhite) && AllWhite(w2, IsWhiteSpace)
    requires sign == "" || sign == "+" || sign == "-"
    requires body != [] && AllDigits(body)
    ensures var v := SignedValue(sign, body);
      NameNumber("A" + w1 + sign + body + w2) == if MinInt32 <= v <= MaxInt32 then Some(v) else None
  {
    var x := w1 + sign + body;
    assert "A" + w1 + sign + body + w2 == ['A'] + (x + w2);
    NameNumberOfText('A', x + w2);
    TrimEndWhiteSuffix(x, w2, IsWhiteSpace);
    assert IsDigit(body[|body| - 1]) && x[|x| - 1] == body[|body| - 1];
    assert TrimEnd(x, IsWhiteSpace) == x;
    assert x + "" == x;
    NumeralParses(w1, sign, body, "", MinInt32, MaxInt32);
  }

  /** "A+45" and "A 45" denote 45: the parse allows a leading sign and leading whitespace. */
  lemma SignedAndPaddedNames()
    ensures NameNumber("A+45") == Some(45)
    ensures NameNumber("A 45") == Some(45)
  {
    ShortNumeralValue("45");
    assert "A" + "" + "+" + "45" + "" == "A+45";
    NameNumberOfPaddedNumeral("", "+", "45", "");
    assert "A" + " " + "" + "45" + "" == "A 45";
    NameNumberOfPaddedNumeral(" ", "", "45", "");
  }

  /** "A" followed by digits whose value exceeds `int.MaxValue` denotes nothing: the parse overflows. */
  lemma NameNumberOverflow(digits: string)
    requires digits != [] && AllDigits(digits) && Value(digits) > MaxInt32
    ensures NameNumber("A" + digits) == None
  {
    var name := "A" + digits;
    assert name[1..] == digits;
    assert IsDigit(digits[|digits| - 1]);
    TrimWithIdentity(name, IsWhiteSpace);
    assert "" + digits == digits;
    ParseOutOfRange(false, digits, MinInt32, MaxInt32);
  }

  /** A name whose number overflows an `int`, such as "A2147483648", yields the sentinel without a request. */
  lemma NameOverflowSendsNothing(q: OeisQuery, digits: string)
    requires digits != [] && AllDigits(digits) && Value(digits) > MaxInt32
    ensures QuerySequenceByName(Some(q), Some("A" + digits)) == Call(Success(NoneArticle()), [])
  {
    NameNumberOverflow(digits);
    QuerySequenceByNameRequest(q, "A" + digits);
  }

  lemma NameNumberLeadingZeros(k: nat, number: nat)
    requires number <= MaxInt32
    ensures NameNumber("A" + Zeros(k) + Digits(number)) == Some(number)
  {
    ValueLeadingZeros(k, Digits(number));
    assert "A" + Zeros(k) + Digits(number) == "A" + (Zeros(k) + Digits(number));
    NameNumberOfNumeral(Zeros(k) + Digits(number));
  }

  /** Leading zeros after the letter do not matter: "A0000999999" looks up 999999. */
  lemma NameLeadingZeros(q: OeisQuery, k: nat, number: nat)
    requires number <= MaxInt32
    ensures QuerySequenceByName(Some(q), Some("A" + Zeros(k) + Digits(number))) == QuerySequence(q, number)
  {
    NameNumberLeadingZeros(k, number);
    BlankCheckRedundant(q, "A" + Zeros(k) + Digits(number));
  }

  /** "A" alone, and "A0", denote nothing to look up: the sentinel, without a request. */
  lemma ShortNamesSendNothing(q: OeisQuery)
    ensures QuerySequenceByName(Some(q), Some("A")) == Call(Success(NoneArticle()), [])
    ensures QuerySequenceByName(Some(q), Some("A0")) == Call(Success(NoneArticle()), [])
  {
    TrimWithIdentity("A", IsWhiteSpace);
    TrimWithIdentity("A0", IsWhiteSpace);
    NameLeadingZeros(q, 0, 0);
    assert "A" + Zeros(0) + Digits(0) == "A0";
    QuerySequenceRequest(q, 0);
  }

  /** A name whose number lies outside the catalog range yields the sentinel without a request. */
  lemma NameOutOfRange(q: OeisQuery, name: string)
    requires NameNumber(name).Some? && !InCatalogRange(NameNumber(name).value)
    ensures QuerySequenceByName(Some(q), Some(name)) == Call(Success(NoneArticle()), [])
  {
    QuerySequenceByNameRequest(q, name);
    QuerySequenceRequest(q, NameNumber(name).value);
  }

  /** "A-5" denotes -5, which is outside the catalog range. */
  lemma NegativeNameSendsNothing(q: OeisQuery)
    ensures QuerySequenceByName(Some(q), Some("A-5")) == Call(Success(NoneArticle()), [])
  {
    TrimWithIdentity("A-5", IsWhiteSpace);
    assert "A-5"[1..] == "-" + "5";
    SignedNumeralParses(true, "5", MinInt32, MaxInt32);
    NameOutOfRange(q, "A-5");
  }

  /** "A10000000" denotes 10000000, the first number past the catalog range. */
  lemma PastRangeNameSendsNothing(q: OeisQuery)
    ensures QuerySequenceByName(Some(q), Some("A10000000")) == Call(Success(NoneArticle()), [])
  {
    PastRangeName();
    NameNumberLeadingZeros(0, 10000000);
    NameOutOfRange(q, "A10000000");
  }

  lemma PastRangeName()
    ensures "A" + Zeros(0) + Digits(10000000) == "A10000000"
  {
    assert Digits(1) == "1";
    assert Digits(10) == "10";
    assert Digits(100) == "100";
    assert Digits(1000) == "1000";
    assert Digits(10000) == "10000";
    assert Digits(100000) == "100000";
    assert Digits(1000000) == "1000000";
    assert Digits(10000000) == "10000000";
  }
}

# Simple.Oeis in Dafny

A model of the core of Simple.Oeis, a small .NET client for the On-Line
Encyclopedia of Integer Sequences (OEIS), with proofs about it.

- **The article (`OeisSequence`).** An immutable value built from one
  decoded JSON record. It holds:
  - the catalog number;
  - a name derived from the number (`"A"` plus the number padded to six digits);
  - a title and four text lists, where a missing field becomes empty;
  - the private `RawData` tokens: the record's data string split on commas,
    with each entry trimmed and the empty ones dropped.

  `FirstItems<T>` parses the tokens in order and stops at the first one
  that does not parse. Articles are equal, hashed and ordered by their
  number alone.
- **The query (`OeisQuery`).**
  - A search for a list of integers joins their invariant renderings with
    commas and sends one GET to `https://oeis.org/search?q=…&fmt=json`.
    A lookup by catalog number sends one GET to `https://oeis.org/A<d6>?fmt=json`.
  - Each checks the reply status, decodes the JSON body and builds one
    article per non-null record.
  - Numbers outside 1..9 999 999 and empty queries send nothing.
- **The extensions (`OeisQueryExtensions`).** A lookup by catalog name such
  as `"A000045"` (trimmed, `a` or `A`, then an `int`), and a search over a
  `params` list of integers. Both check their arguments for null and forward
  to the query object.

Files, each one module:

- `wrappers.dfy` (`Wrappers`): `Option` and `Result`.
- `text.dfy` (`Text`): the .NET string operations the client uses.
  - `char.IsWhiteSpace` and `Trim`.
  - `Split` with `RemoveEmptyEntries | TrimEntries`.
  - `string.Join`.
- `numerals.dfy` (`Numerals`): numbers as text.
  - C#'s 32-bit `int`.
  - The invariant renderings `ToString()` and `ToString("d6")`.
  - The sign-and-digits core of `TryParse(…, NumberStyles.Any, InvariantCulture)`.
- `oeis_sequence.dfy` (`OeisSequence`): the record, the article, `FirstItems`,
  `Equals`, `GetHashCode` and `CompareTo`.
- `oeis_query.dfy` (`OeisQuery`): the transport, the two core algorithms and
  the two public operations.
- `oeis_query_extensions.dfy` (`OeisQueryExtensions`): the three extension
  methods.

How the model treats what it cannot see:

- **The network.** The HTTP client that the factory hands out under the
  name `"OEIS"` is an oracle, `send: Request -> Option<HttpReply>`. `None`
  stands for a request that fails; a reply carries a status and a decoded
  JSON body.
- **The JSON body.** It is one of the shapes the deserializer can meet:
  null, one record, an array of records and nulls, or something that does
  not decode.
- **The outcome.** Every operation returns a `Call`: its result (a value or
  the exception it raises) together with the list of requests it sent. That
  list makes "sends nothing" and "sends exactly one request" provable.
- **The algorithms.** `CoreQuerySequence` and `CoreQueryItem` are methods.
  `CoreQuerySequence` keeps the source's loop over the results. Each states
  its request and its outcome for every kind of reply. Each is also proved
  equal to a specification function, `Search` or `Item`. The public
  operations and the lemmas use those functions, since a function cannot
  call a method.
- **Null arguments** are `Option` parameters.
- **The integer type.** The generic integer type `T` of `QuerySequences<T>`
  is `int`. Every integer type except `char` renders the same way in the
  invariant culture: an optional `-`, then decimal digits.
- **The parser.** `FirstItems<T>` takes the parser for `T` as a parameter.
  `ParseByte` is the one the tests use.

A lookup by name is decided only by what follows the letter, and the range
check then rejects some names that parse. For example, `"A-5"` and `"A0"`
parse and are then rejected by the range check. `"A 45"` parses to 45,
because `NumberStyles.Any` allows leading whitespace.

## Model

| member | source | states |
|---|---|---|
| Text.IsWhiteSpace | Simple.Oeis/OeisQueryExtensions.cs:35 | No contract of its own: the characters `char.IsWhiteSpace` accepts, the Unicode separators and the controls U+0009 to U+000D, U+0085. The trim rows state what it decides. |
| Text.TrimWithSpec | Simple.Oeis/OeisQueryExtensions.cs:35 | Trimming keeps the part of the string between a white prefix and a white suffix. The result starts and ends with a non-white character, is empty exactly when the string is all white, and adds no character. |
| Text.TrimWith | Simple.Oeis/OeisQueryExtensions.cs:35 | No contract of its own: `TrimWithSpec`, `TrimWithIdentity`, `TrimWithIdempotent`, `TrimWithPrepend` and `TrimWithPadded` state what trimming under a whitespace class yields. |
| Text.Trim | Simple.Oeis/OeisQueryExtensions.cs:35 | No contract of its own: `ReadOnlySpan<char>.Trim()` and `string.Trim()` are trimming under `char.IsWhiteSpace`. `TrimIsToken` and the `TrimWith` lemmas state their properties. |
| Text.TrimIsToken | Simple.Oeis/OeisQueryExtensions.cs:35 | A trimmed name is empty or a token with no surrounding whitespace. |
| Text.TrimWithIdentity | Simple.Oeis/OeisQueryExtensions.cs:35 | Trimming a string that begins and ends with non-white characters changes nothing. |
| Text.TrimWithIdempotent | Simple.Oeis/OeisQueryExtensions.cs:35 | Trimming twice is trimming once. |
| Text.TrimWithPrepend | Simple.Oeis/OeisQueryExtensions.cs:35-37 | A name that starts with a non-white letter keeps that letter first; only its end is trimmed. |
| Text.TrimWithPadded | Simple.Oeis/OeisQueryExtensions.cs:35 | Whitespace around a string does not change what trimming yields. |
| Text.Split | Simple.Oeis/OeisSequence.cs:60-61 | The split pieces are at least one, none holds the separator, and joining them with the separator gives the string back. |
| Text.SplitJoin | Simple.Oeis/OeisSequence.cs:60-61 | Splitting inverts joining, for pieces free of the separator. |
| Text.Join | Simple.Oeis/OeisQuery.cs:50-51 | No contract of its own: `JoinAppend` states that joining a concatenation puts one separator between the parts, and `Split` and `SplitJoin` state that splitting inverts it. |
| Text.TrimEntries | Simple.Oeis/OeisSequence.cs:60-61 | There are no more entries than pieces. `TrimEntriesOne` and `TrimEntriesAppend` fix the result: each piece contributes its trim, or nothing when it is all white, in order. |
| Text.TrimEntriesOne | Simple.Oeis/OeisSequence.cs:60-61 | A single piece contributes nothing when it is all white, and otherwise exactly its trim. |
| Text.SplitTokens | Simple.Oeis/OeisSequence.cs:60-61 | No contract of its own: `SplitTokensOfPieces` states that the tokens are the trimmed entries of the comma-separated pieces, and `SplitTokensClean`, `SplitTokensJoin` and `SplitTokensPadded` state what the split yields. |
| Text.TrimEntriesAppend | Simple.Oeis/OeisSequence.cs:60-61 | Trimming and dropping empty entries processes each part of a list in turn, so the order is kept. |
| Text.TrimEntriesClean | Simple.Oeis/OeisSequence.cs:60-61 | Every kept entry is a non-empty token with no surrounding whitespace, and holds no character absent from the pieces. |
| Text.SplitTokensClean | Simple.Oeis/OeisSequence.cs:60-61 | Every stored data token is non-empty, has no surrounding whitespace and holds no comma. |
| Text.SplitTokensJoin | Simple.Oeis/OeisSequence.cs:60-61 | Splitting the comma-joined list of clean tokens gives exactly those tokens back. |
| Text.SplitTokensOfPieces | Simple.Oeis/OeisSequence.cs:60-61 | Data made of separator-free pieces joined by the separator yields the trimmed, non-empty entries of those pieces. |
| Text.SplitTokensPadded | Simple.Oeis/OeisSequence.cs:60-61 | `" 1 ,, 2 "` yields the tokens `"1"` and `"2"`: each entry is trimmed and the empty one is dropped. |
| Numerals.Digits | Simple.Oeis/OeisQuery.cs:51 | The decimal numeral of a natural number is non-empty, all digits, denotes the number and has no leading zero. |
| Numerals.ValueLeadingZeros | Simple.Oeis/OeisQueryExtensions.cs:38 | Leading zeros do not change the number a numeral denotes. |
| Numerals.FormatD6 | Simple.Oeis/OeisSequence.cs:52 | The `"d6"` rendering has at least six characters and starts with `-` exactly for negatives. Its digits denote the magnitude, padded with zeros to six and never truncated. |
| Numerals.Render | Simple.Oeis/OeisQuery.cs:50-51 | The invariant rendering starts with `-` exactly for negatives, followed by the shortest numeral of the magnitude. |
| Numerals.RenderIsToken | Simple.Oeis/OeisQuery.cs:50-51 | A rendering is a non-empty token with no surrounding whitespace and no comma. |
| Numerals.IsNumberWhite | Simple.Oeis/OeisQueryExtensions.cs:38 | No contract of its own: the whitespace `NumberStyles.Any` allows around a number, U+0009 to U+000D and space. `ParseIntegerAccepted` states its role. |
| Numerals.ParseInteger | Simple.Oeis/OeisSequence.cs:74 | A successful parse yields a value in the target type's range. `NumeralParses` and `ParseIntegerAccepted` tie both outcomes to the text, in both directions. |
| Numerals.NumeralParses | Simple.Oeis/OeisQueryExtensions.cs:38 | Number whitespace, an optional `+` or `-`, digits and number whitespace parse exactly when the signed value is in range, and then to that value. |
| Numerals.ParseOutOfRange | Simple.Oeis/OeisQueryExtensions.cs:38 | A numeral whose value, with its sign, lies outside the target range fails to parse. An overflow is not clamped. |
| Numerals.ParseIntegerAccepted | Simple.Oeis/OeisQueryExtensions.cs:38 | A successful parse accepted one or more digits with an optional `+` or `-`, inside number whitespace, and its value is the number they denote with that sign. |
| Numerals.ParseInt32 | Simple.Oeis/OeisQueryExtensions.cs:38 | `int.TryParse` is the parse over the `int` range: it succeeds exactly when that parse does, with the same value. `ParseOutOfRange` and `SignedNumeralParses` give its two outcomes on numerals. |
| Numerals.ParseByte | Simple.Oeis/OeisSequence.cs:74 | `byte.TryParse` yields a value in 0..255. `ParseByteNumeral` states that a numeral parses exactly when its value fits. |
| Numerals.SignedNumeralParses | Simple.Oeis/OeisQueryExtensions.cs:38 | An unsigned or `-`-signed numeral parses to the number it denotes, when that number is in range. |
| Numerals.ParseRender | Simple.Oeis/OeisQuery.cs:50-51 | Parsing inverts the invariant rendering for every value of the target type. |
| Numerals.ParseFormatD6 | Simple.Oeis/OeisQuery.cs:62 | Parsing inverts the `"d6"` rendering for every value of the target type. |
| OeisSequence.ArticleName | Simple.Oeis/OeisSequence.cs:52 | The name has at least seven characters: `A`, then the `"d6"` rendering of the number. |
| OeisSequence.ArticleNameIsToken | Simple.Oeis/OeisSequence.cs:52 | A name has no surrounding whitespace. |
| OeisSequence.ArticleNameParses | Simple.Oeis/OeisSequence.cs:52 | What follows the `A` of a name parses back to its number, so names and numbers are in one-to-one correspondence. |
| OeisSequence.NoneArticle | Simple.Oeis/IOeisSequence.cs:13 | The sentinel has number 0 and is a valid article, so its name is the catalog name of 0, `A000000`. |
| OeisSequence.FromResponse | Simple.Oeis/OeisSequence.cs:49-62 | The constructor copies the number and derives the name from it. A missing title becomes `""` and a missing list becomes empty. The stored tokens are the data split on commas, trimmed, with empty entries dropped, so they are clean tokens. |
| OeisSequence.NoneIsEmptyRecord | Simple.Oeis/OeisSequence.cs:14-47 | The sentinel built by the parameterless constructor equals the article of a record with number 0 and no fields. |
| OeisSequence.StoredTokensOfJoinedData | Simple.Oeis/OeisSequence.cs:60-61 | Data written as clean comma-separated tokens is stored as exactly those tokens. |
| OeisSequence.TakeParsed | Simple.Oeis/OeisSequence.cs:69-80 | The items are no more than the tokens. Each item is its token's parse, and when the run is shorter than the tokens, the next token fails to parse. |
| OeisSequence.FirstItems | Simple.Oeis/OeisSequence.cs:69-80 | The items are no more than the stored tokens, each item is its token's parse, and a shorter run ends at a token that fails. With `TakeParsedExact` this determines the items. |
| OeisSequence.TakeParsedAllParse | Simple.Oeis/OeisSequence.cs:78 | While every token parses, the run continues into what follows. |
| OeisSequence.TakeParsedStops | Simple.Oeis/OeisSequence.cs:78 | After a token that fails to parse, nothing that follows is taken. |
| OeisSequence.TakeParsedExact | Simple.Oeis/OeisSequence.cs:69-80 | The run is determined by the tokens: a parsed prefix followed by a failing token (or by the end) is exactly the run. |
| OeisSequence.NumeralsAsBytes | Simple.Oeis/OeisSequence.cs:69-80 | Parsed as bytes, a list of numerals yields their values up to the first one above 255, which ends the run. |
| OeisSequence.NoneHasNoItems | Simple.Oeis.Test/OeisSequenceTest.cs:23-34 | The sentinel yields no items. |
| OeisSequence.FibonacciFirstBytes | Simple.Oeis.Test/OeisSequenceTest.cs:7-20 | Parsed as bytes, any article whose data begins with the Fibonacci terms 0 to 377 yields 0, 1, 1, …, 144, 233; 377 does not fit in a byte and ends the run, whatever follows it. |
| OeisSequence.FibonacciRecordFirstBytes | Simple.Oeis.Test/OeisSequenceTest.cs:7-20 | The stand-in Fibonacci record is such an article. |
| OeisSequence.EqualsIsEquivalence | Simple.Oeis/OeisSequence.cs:100-113 | Equality is reflexive, symmetric and transitive. It is false for null, and equal articles have equal hash codes. |
| OeisSequence.Equals | Simple.Oeis/OeisSequence.cs:100 | No contract of its own: `EqualsIsEquivalence` states that it is an equivalence, false for null, and consistent with the hash code. `CompareTo` states that zero means exactly `Equals`. |
| OeisSequence.HashCode | Simple.Oeis/OeisSequence.cs:113 | No contract of its own: `EqualsIsEquivalence` states that equal articles hash alike. |
| OeisSequence.CompareNumbers | Simple.Oeis/OeisSequence.cs:129 | No contract of its own: `Int32.CompareTo`, -1, 0 or 1. `CompareTo` and `CompareToIsTotalOrder` state its order. |
| OeisSequence.CompareTo | Simple.Oeis/OeisSequence.cs:124-130 | Null ranks below every article. Otherwise the sign follows the numbers, and zero means exactly `Equals`. |
| OeisSequence.CompareToIsTotalOrder | Simple.Oeis/OeisSequence.cs:124-130 | The comparison is antisymmetric in sign, total and transitive. |
| OeisQuery.IsSuccessStatus | Simple.Oeis/OeisQuery.cs:79 | No contract of its own: the 2xx statuses `EnsureSuccessStatusCode` lets through. `Receive` states the outcome for the others. |
| OeisQuery.Receive | Simple.Oeis/OeisQuery.cs:77-79 | A reply gives its body exactly when it arrived with a 2xx status. A failed request raises a network failure, and any other status raises a status failure. |
| OeisQuery.DecodeArray | Simple.Oeis/OeisQuery.cs:83-84 | A null body decodes to null and an array to its items. Anything else raises a decoding failure. |
| OeisQuery.DecodeObject | Simple.Oeis/OeisQuery.cs:112-113 | A null body decodes to null and an object to its record. Anything else raises a decoding failure. |
| OeisQuery.Records | Simple.Oeis/OeisQuery.cs:88-93 | There are no more records than results. |
| OeisQuery.RecordsAppend | Simple.Oeis/OeisQuery.cs:88-93 | Filtering a concatenation filters each part in turn, so records keep their order and their multiplicity: nothing is deduplicated. |
| OeisQuery.RecordsMembers | Simple.Oeis/OeisQuery.cs:91 | The records are exactly the non-null results, and there are none exactly when every result is null. |
| OeisQuery.Present | Simple.Oeis/OeisQuery.cs:86-93 | One article per non-null result, in order: the k-th article is built from the k-th record. |
| OeisQuery.PresentPrefix | Simple.Oeis/OeisQuery.cs:88-93 | One more result extends the answer by its article, or by nothing when it is null. |
| OeisQuery.PresentAppend | Simple.Oeis/OeisQuery.cs:86-95 | The articles of a concatenation of results are the articles of each part in turn. A repeated record gives its article twice. |
| OeisQuery.PresentFromRecords | Simple.Oeis/OeisQuery.cs:91-92 | Every article found is the article of a non-null record. |
| OeisQuery.PresentHasEveryRecord | Simple.Oeis/OeisQuery.cs:91-92 | Every non-null record yields its article among those found. |
| OeisQuery.SearchUrlCarriesQuery | Simple.Oeis/OeisQuery.cs:75 | The search address carries the query text verbatim between `q=` and `&fmt=json`. |
| OeisQuery.SearchUrl | Simple.Oeis/OeisQuery.cs:75 | No contract of its own: `SearchUrlCarriesQuery` states the address. |
| OeisQuery.ItemUrl | Simple.Oeis/OeisQuery.cs:104 | No contract of its own: `QuerySequenceRequest` and `FibonacciAddress` state the address of an article. |
| OeisQuery.Search | Simple.Oeis/OeisQuery.cs:69-96 | At most one request, and none exactly for the empty query. `SearchRequest`, `SearchOutcome` and `SearchFindsRecords` state the request and every outcome. |
| OeisQuery.Item | Simple.Oeis/OeisQuery.cs:98-118 | At most one request, and none exactly for the empty query. `CoreQueryItem` and `QuerySequenceOutcome` state the request and every outcome. |
| OeisQuery.CoreQuerySequence | Simple.Oeis/OeisQuery.cs:69-96 | An empty query yields no articles and sends nothing. Otherwise it sends one GET to the search address. A failed request or a bad status raises, a null body gives no articles, an array gives `Present` of its results, and any other body raises. The loop computes exactly `Search`. |
| OeisQuery.CoreQueryItem | Simple.Oeis/OeisQuery.cs:98-118 | An empty query yields the sentinel and sends nothing. Otherwise it sends one GET to the article address. A failed request or a bad status raises, a null body gives the sentinel, a record gives its article, and any other body raises. It computes exactly `Item`. |
| OeisQuery.Renderings | Simple.Oeis/OeisQuery.cs:50-51 | One rendering per item, in order. |
| OeisQuery.QueryString | Simple.Oeis/OeisQuery.cs:50-51 | No contract of its own: `QueryStringEmpty` and `QueryStringRoundTrip` state that it is empty exactly for an empty list and lists the items unambiguously. |
| OeisQuery.QuerySequences | Simple.Oeis/OeisQuery.cs:44-54 | A null list raises `ArgumentNullException` for `sequence` and sends nothing, and no call sends more than one request. `QuerySequencesEdges`, `QuerySequencesRequest` and `QueryStringRoundTrip` state the rest. |
| OeisQuery.InCatalogRange | Simple.Oeis/OeisQuery.cs:58 | No contract of its own: the numbers 1 to 9 999 999 the guard lets through. `QuerySequence` and `QuerySequenceRequest` state that only they are sent. |
| OeisQuery.QuerySequence | Simple.Oeis/OeisQuery.cs:57-63 | At most one request, sent exactly when the number is in 1..9999999. Without a request the result is the sentinel. `QuerySequenceRequest` and `QuerySequenceOutcome` state the address and every outcome. |
| OeisQuery.RenderingsAreTokens | Simple.Oeis/OeisQuery.cs:50-51 | Each rendering is a comma-free token with no surrounding whitespace. |
| OeisQuery.QueryStringEmpty | Simple.Oeis/OeisQuery.cs:50-53 | The query string is empty exactly when the list is, so only an empty list sends nothing. |
| OeisQuery.QueryStringRoundTrip | Simple.Oeis/OeisQuery.cs:50-51 | The query lists the items unambiguously: split on commas it gives one token per item, in order, and each parses back to its item. |
| OeisQuery.SearchRequest | Simple.Oeis/OeisQuery.cs:69-77 | An empty query yields no articles and sends nothing. Any other query sends exactly one GET, through the `"OEIS"` client, to the search address carrying the query. |
| OeisQuery.SearchOutcome | Simple.Oeis/OeisQuery.cs:77-95 | How a search ends. A failed request or a bad status raises, and a body that is neither null nor an array raises. A null body gives no articles; an array gives one article per record, in order. |
| OeisQuery.SearchFindsRecords | Simple.Oeis/OeisQuery.cs:86-95 | For a successful array reply, the articles are exactly those of the non-null records, each carrying its record's number and that number's name. |
| OeisQuery.QuerySequencesEdges | Simple.Oeis/OeisQuery.cs:48-53 | A null list raises `ArgumentNullException` for `sequence` and sends nothing. An empty list yields no articles and sends nothing. |
| OeisQuery.QuerySequencesRequest | Simple.Oeis/OeisQuery.cs:44-54 | A non-empty list sends exactly one search for its comma-joined renderings. |
| OeisQuery.FibonacciAddress | Simple.Oeis/OeisQuery.cs:104 | Number 45 is named `A000045`, and its article address is `https://oeis.org/A000045?fmt=json`. |
| OeisQuery.QuerySequenceRequest | Simple.Oeis/OeisQuery.cs:57-63 | A number outside 1..9999999 gives the sentinel and sends nothing. A number inside sends exactly one GET to the address of its catalog name. |
| OeisQuery.QuerySequenceOutcome | Simple.Oeis/OeisQuery.cs:98-118 | How a lookup by number ends. A failed request or a bad status raises, a null body gives the sentinel, a record gives its article, and anything else raises. |
| OeisQuery.QuerySequenceFibonacci | Simple.Oeis.Test/OeisQueryTest.cs:17-35 | When the server answers `A000045` with the Fibonacci record, the lookup of 45 gives an article numbered 45, named `A000045`, with the record's title. |
| OeisQuery.QuerySequenceUnknown | Simple.Oeis.Test/OeisQueryTest.cs:57-68 | When the server answers with a null body, the lookup yields the sentinel, which equals `IOeisSequence.None`. |
| OeisQuery.QuerySequencesUnknown | Simple.Oeis.Test/OeisQueryTest.cs:110-121 | When the search reply is null, no articles are found. |
| OeisQuery.QueryStringOfDigits | Simple.Oeis/OeisQuery.cs:50-51 | A single digit renders as itself and is followed by a comma when more items follow. |
| OeisQuery.FibonacciQueryString | Simple.Oeis.Test/Fixture/HttpFixtureFactory.cs:13-15 | The items 1, 1, 2, 3, 5, 8 become the query `1,1,2,3,5,8`. |
| OeisQuery.FibonacciSearchUrl | Simple.Oeis/OeisQuery.cs:75 | The search address for those items is `https://oeis.org/search?q=1,1,2,3,5,8&fmt=json`. |
| OeisQuery.QuerySequencesFibonacci | Simple.Oeis.Test/OeisQueryTest.cs:89-105 | Searching for 1, 1, 2, 3, 5, 8 sends that one request. When the reply lists any record numbered 45, its article, named `A000045`, is among those found. |
| OeisQueryExtensions.QuerySequencesOfForwards | Simple.Oeis/OeisQueryExtensions.cs:17-23 | A null query raises first and sends nothing. Otherwise the forwarder is the query object's search, which rejects a null list in turn. |
| OeisQueryExtensions.QuerySequencesOf | Simple.Oeis/OeisQueryExtensions.cs:17-23 | A null query raises first, then a null list, both without a request. At most one request is sent. |
| OeisQueryExtensions.QuerySequenceBySpan | Simple.Oeis/OeisQueryExtensions.cs:32-42 | A null query raises without a request. At most one request is sent, and only for a name that denotes a number in 1..9999999. |
| OeisQueryExtensions.QuerySequenceByName | Simple.Oeis/OeisQueryExtensions.cs:51-58 | A null query raises first, and a null name gives the sentinel, both without a request. At most one request is sent, and only for a name that denotes a number in 1..9999999. |
| OeisQueryExtensions.NameNumber | Simple.Oeis/OeisQueryExtensions.cs:35-41 | No contract of its own. `NameRejected` states which names denote nothing. `NameNumberOfText` states that a name starting with `a` or `A` denotes what `int.TryParse` makes of the rest, with its trailing whitespace trimmed. `NameAccepted` gives the shape of a name that denotes a number. `NameNumberOfPaddedNumeral`, `SignedAndPaddedNames` and the other `Name` lemmas state which names denote which numbers. |
| OeisQueryExtensions.NameRejected | Simple.Oeis/OeisQueryExtensions.cs:35-41 | A name that trims to fewer than two characters, or does not start with `a` or `A`, denotes no number. |
| OeisQueryExtensions.NameAccepted | Simple.Oeis/OeisQueryExtensions.cs:35-38 | A name that denotes a number trims to `a` or `A` followed by number whitespace around an optional `+` or `-` and digits, and the number is their signed value. |
| OeisQueryExtensions.NonNamesSendNothing | Simple.Oeis/OeisQueryExtensions.cs:51-58 | `""`, a blank name and `"not-a-number"` give the sentinel without a request. |
| OeisQueryExtensions.IsNullOrWhiteSpace | Simple.Oeis/OeisQueryExtensions.cs:54 | No contract of its own: `BlankCheckRedundant` states that the check changes no outcome. |
| OeisQueryExtensions.NullQueryRejected | Simple.Oeis/OeisQueryExtensions.cs:33 | Both lookups by name reject a null query before looking at the name, and send nothing. |
| OeisQueryExtensions.BlankCheckRedundant | Simple.Oeis/OeisQueryExtensions.cs:51-58 | The string overload's blank-name check changes nothing: a blank name trims to nothing, which the span overload rejects the same way. |
| OeisQueryExtensions.QuerySequenceByNameRequest | Simple.Oeis/OeisQueryExtensions.cs:32-42 | A lookup by name sends at most one request, and only for the number the name denotes when it is in range. A name that denotes no number gives the sentinel. |
| OeisQueryExtensions.NameNumberOfArticleName | Simple.Oeis/OeisQueryExtensions.cs:35-38 | Every catalog name denotes its number. |
| OeisQueryExtensions.QuerySequenceByArticleName | Simple.Oeis/OeisQueryExtensions.cs:32-58 | Looking up a number's catalog name is looking up the number. |
| OeisQueryExtensions.FibonacciByName | Simple.Oeis.Test/OeisQueryTest.cs:40-52 | `"A000045"` finds the same article, by the same request, as the number 45. |
| OeisQueryExtensions.NameCaseInsensitive | Simple.Oeis/OeisQueryExtensions.cs:37 | The prefix letter may be `a` or `A`. |
| OeisQueryExtensions.NamePadding | Simple.Oeis/OeisQueryExtensions.cs:35 | Whitespace around a name does not matter. |
| OeisQueryExtensions.NameNumberOfNumeral | Simple.Oeis/OeisQueryExtensions.cs:37-38 | `A` followed by digits denotes the number the digits denote, when it is an `int`. |
| OeisQueryExtensions.NameNumberOfText | Simple.Oeis/OeisQueryExtensions.cs:35-38 | A name made of `a` or `A` and a rest denotes what `int.TryParse` makes of the rest, with the trailing `char.IsWhiteSpace` characters trimmed. |
| OeisQueryExtensions.NameNumberOfPaddedNumeral | Simple.Oeis/OeisQueryExtensions.cs:35-38 | `A`, number whitespace, an optional `+` or `-`, digits and trailing whitespace denote the signed value when it is an `int`, and nothing otherwise. |
| OeisQueryExtensions.SignedAndPaddedNames | Simple.Oeis/OeisQueryExtensions.cs:35-38 | `A+45` and `A 45` denote 45. |
| OeisQueryExtensions.NameNumberOverflow | Simple.Oeis/OeisQueryExtensions.cs:38 | `A` followed by digits whose value exceeds `int.MaxValue` denotes nothing, because the parse overflows. |
| OeisQueryExtensions.NameOverflowSendsNothing | Simple.Oeis/OeisQueryExtensions.cs:37-41 | A name whose number overflows an `int`, such as `A2147483648`, gives the sentinel without a request. |
| OeisQueryExtensions.NameLeadingZeros | Simple.Oeis.Test/OeisQueryTest.cs:73-84 | Leading zeros after the letter do not matter: the test's `A0000999999` looks up 999999. |
| OeisQueryExtensions.ShortNamesSendNothing | Simple.Oeis/OeisQueryExtensions.cs:37-41 | `A` alone, and `A0`, give the sentinel without a request. |
| OeisQueryExtensions.NameOutOfRange | Simple.Oeis/OeisQueryExtensions.cs:39 | A name whose number is outside the catalog range gives the sentinel without a request. |
| OeisQueryExtensions.NegativeNameSendsNothing | Simple.Oeis/OeisQueryExtensions.cs:38-39 | `A-5` parses to -5, which the range check rejects without a request. |
| OeisQueryExtensions.PastRangeNameSendsNothing | Simple.Oeis/OeisQuery.cs:58-60 | `A10000000` denotes the first number past the range and gives the sentinel without a request. |

## Left out

- Asynchrony and cancellation: `Task`, `await`, and the `token.ThrowIfCancellationRequested()` check inside the result loop. The model is sequential and never cancelled.
- Disposal of the client, the response and the stream (`using`). `QuerySequences` and `QuerySequence` dispose the client they obtain (`OeisQuery.cs:73` and `:102`). `DefaultHttpFactory` hands out one shared `HttpClient`, so with it the first query's disposal makes every later request through that client fail with `ObjectDisposedException`. The model assumes a fresh client per call, as the test factory `HttpClientFactoryHelper` provides, so `send` is stateless.
- The `OeisQuery` constructors and `DefaultHttpFactory`: how the client is obtained. The transport oracle `send` stands for the client that the factory returns for the name `"OEIS"`.
- The JSON text and its property mapping (`OeisSequenceResponse`): the model starts from the decoded shapes. A reply that is not JSON at all is the `JsonMalformed` shape.
- `new Uri(address)`: escaping and validation of the address. Addresses are compared as plain strings.
- `OeisSequence.ToString()`: a debug-only rendering that nothing else uses.
- `Equals(object? obj)`: the `as OeisSequence` type test. Articles are the only kind of object in the model, so it coincides with `Equals(IOeisSequence?)`.
- Numerals.ParseInteger: it accepts only number whitespace (U+0009 to U+000D and space) around the text, one leading `+` or `-`, and ASCII digits. `NumberStyles.Any` also admits thousands separators, a decimal point with a zero fraction, an exponent, a currency symbol, parentheses and a trailing sign. It also accepts trailing NUL characters (U+0000) after the number, so `"A45\0"` looks up A000045 in .NET. Such inputs fail in the model where .NET may accept them.
- OeisSequence.FirstItems: the element type `T` is represented by the parser passed in. Only `byte` (`ParseByte`) and `int` (`ParseInt32`) are given.
- The generic type `T` of `QuerySequences<T>` is `int`. The other numeric integer types render their values the same way in the invariant culture.
- `QuerySequences<char>`: `char` is also an `IBinaryInteger`, but it renders as the character itself, not as a numeral. The search query it builds is not modelled.
- OeisSequence.FibonacciRecord: only the terms 0 to 610 of the data and the title are modelled. The test fixture's JSON file is not part of this model.
- OeisQuery.QuerySequenceFibonacci: it proves the number, name and title. The comment, reference, link and formula checks of the test depend on the fixture's content, which is not part of this model.
- OeisQuery.QuerySequencesFibonacci: it proves that the Fibonacci article is among those found. The test's `Single` also requires that no other record in the fixture has number 45, which depends on the fixture's content.
- The empty-query guard of `CoreQueryItem` is modelled, but `QuerySequence(int)` never reaches it, because a `"d6"` rendering has at least six characters.
- Strings are sequences of Unicode scalar values, where .NET strings hold UTF-16 code units. No outcome differs: every whitespace character and every digit the client tests lies in the Basic Multilingual Plane, so `name.Length > 1` accepts and rejects the same names.
- `IOeisQuery` and interface dispatch: the extensions call the one implementation directly.

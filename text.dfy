/**
 * The .NET string operations the client relies on: `char.IsWhiteSpace`,
 * `Trim`, and `Split` with `RemoveEmptyEntries | TrimEntries`, plus `string.Join`.
 */
module Text {

  /** `char.IsWhiteSpace`: the Unicode separators (Zs, Zl, Zp), U+0009 to U+000D and U+0085. */
  predicate IsWhiteSpace(c: char) {
    || c == ' ' || ('\t' <= c <= '\r') || c == '\U{85}' || c == '\U{A0}' || c == '\U{1680}'
    || ('\U{2000}' <= c <= '\U{200A}') || c == '\U{2028}' || c == '\U{2029}'
    || c == '\U{202F}' || c == '\U{205F}' || c == '\U{3000}'
  }

  /** Every character of `s` is white under `white`. */
  predicate AllWhite(s: string, white: char -> bool) {
    forall i :: 0 <= i < |s| ==> white(s[i])
  }

  /** Drops the leading characters that are white. */
  function TrimStart(s: string, white: char -> bool): (r: string)
    ensures |r| <= |s|
  {
    if s != [] && white(s[0]) then TrimStart(s[1..], white) else s
  }

  /** Drops the trailing characters that are white. */
  function TrimEnd(s: string, white: char -> bool): (r: string)
    ensures |r| <= |s|
  {
    if s != [] && white(s[|s| - 1]) then TrimEnd(s[..|s| - 1], white) else s
  }

  /** What `TrimStart` drops is white, what it keeps is a suffix that starts with a non-white character. */
  lemma {:induction false} TrimStartSpec(s: string, white: char -> bool)
    ensures var r := TrimStart(s, white);
      && r == s[|s| - |r|..] && AllWhite(s[..|s| - |r|], white) && (r == [] || !white(r[0]))
  {
    if s != [] && white(s[0]) {
      TrimStartSpec(s[1..], white);
      var r := TrimStart(s, white);
      assert s[1..][|s| - 1 - |r|..] == s[|s| - |r|..];
      forall i | 0 <= i < |s| - |r|
        ensures white(s[i])
      {
        if i > 0 {
          assert s[i] == s[1..][..|s| - 1 - |r|][i - 1];
        }
      }
    }
  }

  /** What `TrimEnd` drops is white, what it keeps is a prefix that ends with a non-white character. */
  lemma {:induction false} TrimEndSpec(s: string, white: char -> bool)
    ensures var r := TrimEnd(s, white);
      && r == s[..|r|] && AllWhite(s[|r|..], white) && (r == [] || !white(r[|r| - 1]))
  {
    if s != [] && white(s[|s| - 1]) {
      var p := s[..|s| - 1];
      TrimEndSpec(p, white);
      var r := TrimEnd(s, white);
      assert p[..|r|] == s[..|r|];
      forall i | 0 <= i < |s| - |r|
        ensures white(s[|r|..][i])
      {
        if i < |s| - 1 - |r| {
          assert s[|r|..][i] == p[|r|..][i];
        }
      }
    }
  }

  /**
   * Trimming under a whitespace class: both ends of a string stripped of the
   * characters that are white.
   */
  function TrimWith(s: string, white: char -> bool): string {
    TrimEnd(TrimStart(s, white), white)
  }

  /**
   * The result of trimming is the part of `s` between a white prefix and a
   * white suffix; it starts and ends with a non-white character; it is empty
   * exactly when `s` is all white; and it holds no character `s` does not.
   */
  lemma TrimWithSpec(s: string, white: char -> bool)
    ensures var r := TrimWith(s, white);
      && (exists i, j :: 0 <= i <= j <= |s| && r == s[i..j] && AllWhite(s[..i], white) && AllWhite(s[j..], white))
      && (r == [] || (!white(r[0]) && !white(r[|r| - 1])))
      && (r == [] <==> AllWhite(s, white))
      && (forall c :: c !in s ==> c !in r)
  {
    var t := TrimStart(s, white);
    var r := TrimEnd(t, white);
    TrimStartSpec(s, white);
    TrimEndSpec(t, white);
    var i, j := |s| - |t|, |s| - |t| + |r|;
    assert r == s[i..j];
    assert s[j..] == t[|r|..];
  }

  /** A string that trimming leaves alone and that is not empty. */
  predicate IsTrimmedToken(t: string) {
    t != [] && !IsWhiteSpace(t[0]) && !IsWhiteSpace(t[|t| - 1])
  }

  /** `string.Trim()` and `ReadOnlySpan<char>.Trim()`. */
  function Trim(s: string): string {
    TrimWith(s, IsWhiteSpace)
  }

  /** A trimmed string is empty or a token. */
  lemma TrimIsToken(s: string)
    ensures Trim(s) == [] || IsTrimmedToken(Trim(s))
  {
    TrimWithSpec(s, IsWhiteSpace);
  }

  /** Trimming a string that begins and ends with non-white characters changes nothing. */
  lemma TrimWithIdentity(s: string, white: char -> bool)
    requires s == [] || (!white(s[0]) && !white(s[|s| - 1]))
    ensures TrimWith(s, white) == s
  {
    if s != [] {
      assert TrimStart(s, white) == s;
      assert TrimEnd(s, white) == s;
    }
  }

  /** Trimming is idempotent. */
  lemma TrimWithIdempotent(s: string, white: char -> bool)
    ensures TrimWith(TrimWith(s, white), white) == TrimWith(s, white)
  {
    TrimWithSpec(s, white);
    TrimWithIdentity(TrimWith(s, white), white);
  }

  lemma {:induction false} TrimStartWhitePrefix(w: string, s: string, white: char -> bool)
    requires AllWhite(w, white)
    ensures TrimStart(w + s, white) == TrimStart(s, white)
  {
    if w != [] {
      assert (w + s)[1..] == w[1..] + s;
      assert forall i :: 0 <= i < |w| - 1 ==> w[1..][i] == w[i + 1];
      TrimStartWhitePrefix(w[1..], s, white);
    } else {
      assert w + s == s;
    }
  }

  lemma {:induction false} TrimEndWhiteSuffix(s: string, w: string, white: char -> bool)
    requires AllWhite(w, white)
    ensures TrimEnd(s + w, white) == TrimEnd(s, white)
  {
    if w != [] {
      assert (s + w)[..|s + w| - 1] == s + w[..|w| - 1];
      TrimEndWhiteSuffix(s, w[..|w| - 1], white);
    } else {
      assert s + w == s;
    }
  }

  lemma {:induction false} TrimStartAppend(s: string, w: string, white: char -> bool)
    requires !AllWhite(s, white)
    ensures TrimStart(s + w, white) == TrimStart(s, white) + w
  {
    if white(s[0]) {
      assert (s + w)[1..] == s[1..] + w;
      TrimStartAppend(s[1..], w, white);
    }
  }

  /** Trimming the end of a string never touches a non-white first character. */
  lemma {:induction false} TrimEndPrepend(c: char, rest: string, white: char -> bool)
    requires !white(c)
    ensures TrimEnd([c] + rest, white) == [c] + TrimEnd(rest, white)
  {
    if rest != [] && white(rest[|rest| - 1]) {
      assert ([c] + rest)[..|rest|] == [c] + rest[..|rest| - 1];
      TrimEndPrepend(c, rest[..|rest| - 1], white);
    }
  }

  /** A string that starts with a non-white character keeps it: only its end is trimmed. */
  lemma TrimWithPrepend(c: char, rest: string, white: char -> bool)
    requires !white(c)
    ensures TrimWith([c] + rest, white) == [c] + TrimEnd(rest, white)
  {
    assert TrimStart([c] + rest, white) == [c] + rest;
    TrimEndPrepend(c, rest, white);
  }

  /** Surrounding a string with white characters does not change what trimming yields. */
  lemma TrimWithPadded(w1: string, s: string, w2: string, white: char -> bool)
    requires AllWhite(w1, white) && AllWhite(w2, white)
    ensures TrimWith(w1 + s + w2, white) == TrimWith(s, white)
  {
    assert w1 + s + w2 == w1 + (s + w2);
    TrimStartWhitePrefix(w1, s + w2, white);
    if AllWhite(s, white) {
      assert AllWhite(s + w2, white);
      assert (s + w2) + [] == s + w2;
      TrimStartWhitePrefix(s + w2, [], white);
      TrimStartWhitePrefix(s, [], white);
      assert s + [] == s;
    } else {
      TrimStartAppend(s, w2, white);
      TrimEndWhiteSuffix(TrimStart(s, white), w2, white);
    }
  }

  /** `string.Join(sep, parts)`: the parts with `sep` between neighbours; empty for no parts. */
  function Join(sep: string, parts: seq<string>): string {
    if |parts| == 0 then []
    else if |parts| == 1 then parts[0]
    else parts[0] + sep + Join(sep, parts[1..])
  }

  /** Joining a concatenation joins each side and puts one separator between them. */
  lemma {:induction false} JoinAppend(sep: string, a: seq<string>, b: seq<string>)
    requires a != [] && b != []
    ensures Join(sep, a + b) == Join(sep, a) + sep + Join(sep, b)
  {
    if |a| == 1 {
      assert (a + b)[1..] == b;
    } else {
      assert (a + b)[1..] == a[1..] + b;
      JoinAppend(sep, a[1..], b);
    }
  }

  /**
   * `s.Split(sep)` without options: the maximal runs between separators, in order.
   * There is always at least one piece, no piece holds the separator, and joining
   * the pieces back with the separator gives `s` again.
   */
  function Split(s: string, sep: char): (r: seq<string>)
    ensures |r| >= 1
    ensures forall i :: 0 <= i < |r| ==> sep !in r[i]
    ensures Join([sep], r) == s
  {
    if s == [] then [[]]
    else
      var rest := Split(s[1..], sep);
      if s[0] == sep then
        assert Join([sep], [[]] + rest) == [sep] + Join([sep], rest);
        [[]] + rest
      else
        var r := [[s[0]] + rest[0]] + rest[1..];
        assert r[1..] == rest[1..];
        assert Join([sep], r) == [s[0]] + Join([sep], rest);
        r
  }

  lemma {:induction false} SplitWithoutSeparator(x: string, sep: char)
    requires sep !in x
    ensures Split(x, sep) == [x]
  {
    if x != [] {
      SplitWithoutSeparator(x[1..], sep);
    }
  }

  lemma {:induction false} SplitAfterFirst(x: string, t: string, sep: char)
    requires sep !in x
    ensures Split(x + [sep] + t, sep) == [x] + Split(t, sep)
  {
    if x == [] {
      assert x + [sep] + t == [sep] + t;
      assert (x + [sep] + t)[1..] == t;
    } else {
      assert (x + [sep] + t)[1..] == x[1..] + [sep] + t;
      SplitAfterFirst(x[1..], t, sep);
      assert [x[0]] + x[1..] == x;
    }
  }

  /** Splitting inverts joining, for pieces free of the separator. */
  lemma {:induction false} SplitJoin(parts: seq<string>, sep: char)
    requires |parts| >= 1
    requires forall i :: 0 <= i < |parts| ==> sep !in parts[i]
    ensures Split(Join([sep], parts), sep) == parts
  {
    if |parts| == 1 {
      SplitWithoutSeparator(parts[0], sep);
    } else {
      SplitJoin(parts[1..], sep);
      SplitAfterFirst(parts[0], Join([sep], parts[1..]), sep);
      assert [parts[0]] + parts[1..] == parts;
    }
  }

  /** `TrimEntries | RemoveEmptyEntries` applied to split pieces: trim each, keep the non-empty ones. */
  function TrimEntries(pieces: seq<string>): (r: seq<string>)
    ensures |r| <= |pieces|
  {
    if pieces == [] then []
    else
      var t := Trim(pieces[0]);
      (if t == [] then [] else [t]) + TrimEntries(pieces[1..])
  }

  /** Tokens that are already trimmed and non-empty pass through unchanged. */
  lemma {:induction false} TrimEntriesOfTokens(ts: seq<string>)
    requires forall i :: 0 <= i < |ts| ==> IsTrimmedToken(ts[i])
    ensures TrimEntries(ts) == ts
  {
    if ts != [] {
      TrimWithIdentity(ts[0], IsWhiteSpace);
      assert Trim(ts[0]) == ts[0];
      TrimEntriesOfTokens(ts[1..]);
      assert ts == [ts[0]] + ts[1..];
    }
  }

  /**
   * A single piece contributes nothing when it is all white, and otherwise
   * exactly its trim; with `TrimEntriesAppend` this fixes every result.
   */
  lemma TrimEntriesOne(p: string)
    ensures TrimEntries([p]) == if AllWhite(p, IsWhiteSpace) then [] else [Trim(p)]
  {
    TrimWithSpec(p, IsWhiteSpace);
    assert [p][1..] == [];
  }

  /** Trimming the entries of a concatenation trims each part in turn: order is kept. */
  lemma {:induction false} TrimEntriesAppend(a: seq<string>, b: seq<string>)
    ensures TrimEntries(a + b) == TrimEntries(a) + TrimEntries(b)
  {
    if a != [] {
      assert (a + b)[1..] == a[1..] + b;
      TrimEntriesAppend(a[1..], b);
    } else {
      assert a + b == b;
    }
  }

  /**
   * Every trimmed entry is a token, and a character absent from every piece is
   * absent from every entry.
   */
  lemma {:induction false} TrimEntriesClean(pieces: seq<string>, c: char)
    ensures forall i :: 0 <= i < |TrimEntries(pieces)| ==> IsTrimmedToken(TrimEntries(pieces)[i])
    ensures (forall i :: 0 <= i < |pieces| ==> c !in pieces[i]) ==>
      forall i :: 0 <= i < |TrimEntries(pieces)| ==> c !in TrimEntries(pieces)[i]
  {
    if pieces != [] {
      TrimEntriesClean(pieces[1..], c);
      TrimWithSpec(pieces[0], IsWhiteSpace);
    }
  }

  /**
   * `s.Split(sep, RemoveEmptyEntries | TrimEntries)`: the split pieces, trimmed,
   * with the empty ones dropped, in order.
   */
  function SplitTokens(s: string, sep: char): seq<string> {
    TrimEntries(Split(s, sep))
  }

  /** Every token is non-empty, has no surrounding whitespace and holds no separator. */
  lemma SplitTokensClean(s: string, sep: char)
    ensures forall i :: 0 <= i < |SplitTokens(s, sep)| ==> IsTrimmedToken(SplitTokens(s, sep)[i]) && sep !in SplitTokens(s, sep)[i]
  {
    TrimEntriesClean(Split(s, sep), sep);
  }

  /** Data made of separator-free pieces yields the entries of those pieces. */
  lemma SplitTokensOfPieces(pieces: seq<string>, sep: char)
    requires pieces != []
    requires forall i :: 0 <= i < |pieces| ==> sep !in pieces[i]
    ensures SplitTokens(Join([sep], pieces), sep) == TrimEntries(pieces)
  {
    SplitJoin(pieces, sep);
  }

  /** Padded and empty entries: " 1 ,, 2 " yields "1" and "2". */
  lemma SplitTokensPadded()
    ensures SplitTokens(" 1 ,, 2 ", ',') == ["1", "2"]
  {
    var pieces := [" 1 ", "", " 2 "];
    PaddedPiecesJoin(pieces);
    forall i | 0 <= i < |pieces|
      ensures ',' !in pieces[i]
    {
    }
    SplitTokensOfPieces(pieces, ',');
    PaddedPiecesEntries(pieces);
  }

  lemma PaddedPiecesJoin(pieces: seq<string>)
    requires pieces == [" 1 ", "", " 2 "]
    ensures Join([','], pieces) == " 1 ,, 2 "
  {
    var rest := pieces[1..];
    assert rest == ["", " 2 "] && rest[1..] == [" 2 "];
    assert Join([','], rest) == "" + [','] + " 2 ";
  }

  lemma PaddedPiecesEntries(pieces: seq<string>)
    requires pieces == [" 1 ", "", " 2 "]
    ensures TrimEntries(pieces) == ["1", "2"]
  {
    assert pieces == [" 1 "] + [""] + [" 2 "];
    TrimEntriesAppend([" 1 "] + [""], [" 2 "]);
    TrimEntriesAppend([" 1 "], [""]);
    PaddedDigit('1');
    PaddedDigit('2');
    TrimEntriesOne("");
  }

  lemma PaddedDigit(d: char)
    requires '0' <= d <= '9'
    ensures TrimEntries([[' ', d, ' ']]) == [[d]]
  {
    assert !AllWhite([' ', d, ' '], IsWhiteSpace) by { assert !IsWhiteSpace([' ', d, ' '][1]); }
    TrimEntriesOne([' ', d, ' ']);
    assert [' ', d, ' '] == " " + [d] + " ";
    TrimWithPadded(" ", [d], " ", IsWhiteSpace);
    TrimWithIdentity([d], IsWhiteSpace);
  }

  /** Splitting the comma-joined list of clean tokens gives back exactly those tokens. */
  lemma SplitTokensJoin(ts: seq<string>, sep: char)
    requires forall i :: 0 <= i < |ts| ==> IsTrimmedToken(ts[i]) && sep !in ts[i]
    ensures SplitTokens(Join([sep], ts), sep) == ts
  {
    if ts == [] {
      assert Split([], sep) == [[]];
    } else {
      SplitJoin(ts, sep);
      TrimEntriesOfTokens(ts);
    }
  }
}

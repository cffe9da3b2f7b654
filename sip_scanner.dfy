/**
 * The cursor primitives of the SIP header-value parser, as the
 * authentication headers use them. The parser class itself is not part of
 * this model; its primitives are given here by the behaviour their callers
 * rely on: a string and an index into it, moved forward by skipping
 * blanks, reading a word up to a stop character, going to a character,
 * and finding the next comma that is not inside double quotes.
 */
module SipScanner {
  import opened Wrappers

  /** Space and horizontal tab. */
  const WSP: set<char> := {' ', '\t'}
  /** Space, horizontal tab, carriage return and line feed. */
  const WSPCRLF: set<char> := {' ', '\t', '\r', '\n'}

  /** The first position at or after `i` whose character is not in `cs`. */
  function SkipIn(s: string, i: nat, cs: set<char>): (j: nat)
    requires i <= |s|
    ensures i <= j <= |s|
    ensures forall k :: i <= k < j ==> s[k] in cs
    ensures j < |s| ==> s[j] !in cs
    decreases |s| - i
  {
    if i < |s| && s[i] in cs then SkipIn(s, i + 1, cs) else i
  }

  /** The first position at or after `i` whose character is in `stops`, or `|s|`. */
  function ScanTo(s: string, i: nat, stops: set<char>): (j: nat)
    requires i <= |s|
    ensures i <= j <= |s|
    ensures forall k :: i <= k < j ==> s[k] !in stops
    ensures j < |s| ==> s[j] in stops
    decreases |s| - i
  {
    if i < |s| && s[i] !in stops then ScanTo(s, i + 1, stops) else i
  }

  /** Scanning over a stretch free of stop characters lands where scanning after it does. */
  lemma ScanToRun(s: string, i: nat, j: nat, stops: set<char>)
    requires i <= j <= |s|
    requires forall k :: i <= k < j ==> s[k] !in stops
    ensures ScanTo(s, i, stops) == ScanTo(s, j, stops)
  {
  }

  /** Two stop sets that agree on every character still to be read scan alike. */
  lemma ScanToSameStops(s: string, i: nat, a: set<char>, b: set<char>)
    requires i <= |s|
    requires forall k :: i <= k < |s| ==> (s[k] in a <==> s[k] in b)
    ensures ScanTo(s, i, a) == ScanTo(s, i, b)
  {
  }

  /** The number of double quotes in `t`. */
  function QuoteCount(t: string): nat
    decreases |t|
  {
    if |t| == 0 then 0 else (if t[0] == '"' then 1 else 0) + QuoteCount(t[1..])
  }

  /**
   * Whether a reader that started at `i` inside quotes (`quoted`) or not
   * is inside quotes once it has read `s[i..k]`.
   */
  predicate InsideQuotes(s: string, i: nat, k: nat, quoted: bool)
    requires i <= k <= |s|
  {
    quoted != (QuoteCount(s[i..k]) % 2 == 1)
  }

  lemma QuoteCountStep(s: string, i: nat)
    requires i < |s|
    ensures forall k :: i < k <= |s| ==>
      QuoteCount(s[i..k]) == (if s[i] == '"' then 1 else 0) + QuoteCount(s[i + 1..k])
  {
    forall k | i < k <= |s|
      ensures QuoteCount(s[i..k]) == (if s[i] == '"' then 1 else 0) + QuoteCount(s[i + 1..k])
    {
      QuoteCountHead(s, i, k);
    }
  }

  /** Counting the quotes of a stretch starts with its first character. */
  lemma QuoteCountHead(s: string, i: nat, k: nat)
    requires i < k <= |s|
    ensures QuoteCount(s[i..k]) == (if s[i] == '"' then 1 else 0) + QuoteCount(s[i + 1..k])
  {
    assert s[i..k][1..] == s[i + 1..k];
  }

  /**
   * The first comma at or after `i` that is outside double quotes, every
   * double quote toggling the state; none if there is no such comma.
   */
  function CommaFrom(s: string, i: nat, quoted: bool): (r: Option<nat>)
    requires i <= |s|
    ensures r.Some? ==> i <= r.value < |s| && s[r.value] == ',' && !InsideQuotes(s, i, r.value, quoted)
    ensures forall k :: i <= k < (if r.Some? then r.value else |s|) && s[k] == ','
              ==> InsideQuotes(s, i, k, quoted)
    decreases |s| - i
  {
    if i == |s| then None
    else
      var q := if s[i] == '"' then !quoted else quoted;
      if !q && s[i] == ',' then
        assert s[i..i] == [];
        Some(i)
      else
        QuoteCountStep(s, i);
        assert s[i..i] == [];
        CommaFrom(s, i + 1, q)
  }

  /**
   * A stretch with no double quote, and no comma unless the reader is
   * inside quotes, does not change where the next separating comma is.
   */
  lemma {:induction false} CommaFromRun(s: string, i: nat, j: nat, quoted: bool)
    requires i <= j <= |s|
    requires forall k :: i <= k < j ==> s[k] != '"' && (quoted || s[k] != ',')
    ensures CommaFrom(s, i, quoted) == CommaFrom(s, j, quoted)
    decreases j - i
  {
    if i < j {
      CommaFromRun(s, i + 1, j, quoted);
    }
  }

  /** Text without double quotes holds none. */
  lemma {:induction false} QuoteCountZero(t: string)
    requires '"' !in t
    ensures QuoteCount(t) == 0
    decreases |t|
  {
    if |t| > 0 {
      QuoteCountZero(t[1..]);
    }
  }

  /** Reading one more character flips the quote state exactly when it adds a double quote. */
  lemma QuoteParityStep(quoted: bool, c: char, r: nat)
    ensures ((if c == '"' then !quoted else quoted) != (r % 2 == 1))
         == (quoted != (((if c == '"' then 1 else 0) + r) % 2 == 1))
  {
  }

  /**
   * A stretch without commas is read through: the reader comes out of it
   * with its quote state flipped once per double quote in it.
   */
  lemma {:induction false} CommaFromNoComma(s: string, i: nat, j: nat, quoted: bool)
    requires i <= j <= |s|
    requires forall k :: i <= k < j ==> s[k] != ','
    ensures CommaFrom(s, i, quoted) == CommaFrom(s, j, quoted != (QuoteCount(s[i..j]) % 2 == 1))
    decreases j - i
  {
    if i == j {
      assert s[i..j] == [];
    } else {
      var q := if s[i] == '"' then !quoted else quoted;
      assert CommaFrom(s, i, quoted) == CommaFrom(s, i + 1, q);
      CommaFromNoComma(s, i + 1, j, q);
      QuoteCountHead(s, i, j);
      QuoteParityStep(quoted, s[i], QuoteCount(s[i + 1..j]));
      var out := q != (QuoteCount(s[i + 1..j]) % 2 == 1);
      assert out == (quoted != (QuoteCount(s[i..j]) % 2 == 1));
      assert CommaFrom(s, i + 1, q) == CommaFrom(s, j, out);
    }
  }

  /**
   * The quote state of a reader that enters `t` in state `quoted` and reads
   * it to the end; none if it meets a comma outside double quotes on the way.
   */
  function QuoteStateAfter(t: string, quoted: bool): Option<bool>
    decreases |t|
  {
    if t == [] then Some(quoted)
    else
      var q := if t[0] == '"' then !quoted else quoted;
      if !q && t[0] == ',' then None else QuoteStateAfter(t[1..], q)
  }

  /**
   * A stretch holding a text in which the reader meets no separating comma
   * is read through, and the reader comes out in the state the text leaves
   * it in.
   */
  lemma {:induction false} CommaFromThrough(s: string, k: nat, j: nat, t: string, quoted: bool)
    requires k + |t| == j <= |s| && s[k..j] == t
    requires QuoteStateAfter(t, quoted).Some?
    ensures CommaFrom(s, k, quoted) == CommaFrom(s, j, QuoteStateAfter(t, quoted).value)
    decreases |t|
  {
    if t != [] {
      var q := if t[0] == '"' then !quoted else quoted;
      var rest := t[1..];
      assert s[k] == t[0];
      assert QuoteStateAfter(t, quoted) == QuoteStateAfter(rest, q);
      assert CommaFrom(s, k, quoted) == CommaFrom(s, k + 1, q);
      assert s[k + 1..j] == rest;
      CommaFromThrough(s, k + 1, j, rest, q);
    }
  }

  /** A stretch with no separating comma stays so once it is cut out on its own. */
  lemma CommaFreeSlice(s: string, b: nat, e: nat, quoted: bool)
    requires b <= e <= |s|
    requires forall k :: b <= k < e && s[k] == ',' ==> InsideQuotes(s, b, k, quoted)
    ensures CommaFrom(s[b..e], 0, quoted) == None
  {
    var t := s[b..e];
    assert forall j :: 0 <= j <= |t| ==> t[0..j] == s[b..b + j];
  }

  /**
   * `getStringUnquoted` on the rest of the text: a value that opens with a
   * double quote and closes it again gives what lies between the two; any
   * other text, including one whose opening quote is never closed, is
   * returned as it is.
   */
  function Unquote(t: string): (r: string)
    ensures (|t| == 0 || t[0] != '"') ==> r == t
    ensures |t| > 0 && t[0] == '"' && '"' !in t[1..] ==> r == t
    ensures |t| > 0 && t[0] == '"' && '"' in t[1..] ==> "\"" + r + "\"" <= t && '"' !in r
  {
    if |t| > 0 && t[0] == '"' then
      var close := ScanTo(t, 1, {'"'});
      if close < |t| then
        assert t[..close + 1] == "\"" + t[1..close] + "\"";
        t[1..close]
      else
        assert forall k :: 0 <= k < |t[1..]| ==> t[1..][k] == t[k + 1];
        t
    else t
  }

  /** Quoting a quote-free text and reading it back gives the text. */
  lemma UnquoteQuoted(x: string, rest: string)
    requires '"' !in x
    ensures Unquote("\"" + x + "\"" + rest) == x
  {
    var t := "\"" + x + "\"" + rest;
    assert t[1..|x| + 1] == x;
    assert t[|x| + 1] == '"';
    var close := ScanTo(t, 1, {'"'});
    assert close == |x| + 1;
  }

  /** A parser: the text and the index of the next character to read. */
  datatype Parser = Parser(str: string, index: nat) {

    predicate Valid() {
      index <= |str|
    }

    predicate HasMore() {
      index < |str|
    }

    /** Steps over one character, if there is one. */
    function SkipChar(): (p: Parser)
      requires Valid()
      ensures p.Valid() && p.str == str
      ensures HasMore() ==> p.index == index + 1
      ensures !HasMore() ==> p == this
    {
      if HasMore() then Parser(str, index + 1) else this
    }

    /** Steps over spaces and tabs. */
    function SkipWSP(): (p: Parser)
      requires Valid()
      ensures p.Valid() && p.str == str && index <= p.index
      ensures forall k :: index <= k < p.index ==> str[k] in WSP
      ensures p.HasMore() ==> str[p.index] !in WSP
    {
      Parser(str, SkipIn(str, index, WSP))
    }

    /** Steps over spaces, tabs, carriage returns and line feeds. */
    function SkipWSPCRLF(): (p: Parser)
      requires Valid()
      ensures p.Valid() && p.str == str && index <= p.index
      ensures forall k :: index <= k < p.index ==> str[k] in WSPCRLF
      ensures p.HasMore() ==> str[p.index] !in WSPCRLF
    {
      Parser(str, SkipIn(str, index, WSPCRLF))
    }

    /** Moves to the next occurrence of `c`, or to the end. */
    function GoTo(c: char): (p: Parser)
      requires Valid()
      ensures p.Valid() && p.str == str && index <= p.index
      ensures c !in str[index..p.index]
      ensures p.HasMore() ==> str[p.index] == c
    {
      Parser(str, ScanTo(str, index, {c}))
    }

    /** Reads up to (not including) the first character in `stops`. */
    function GetWord(stops: set<char>): (result: (string, Parser))
      requires Valid()
      ensures result.1.Valid() && result.1.str == str && index <= result.1.index
      ensures result.0 == str[index..result.1.index]
      ensures forall k :: 0 <= k < |result.0| ==> result.0[k] !in stops
      ensures result.1.HasMore() ==> str[result.1.index] in stops
    {
      var j := ScanTo(str, index, stops);
      (str[index..j], Parser(str, j))
    }

    /** Reads the next `len` characters. */
    function GetString(len: nat): (result: (string, Parser))
      requires Valid() && index + len <= |str|
      ensures result.0 == str[index..index + len] && result.1 == Parser(str, index + len)
    {
      (str[index..index + len], Parser(str, index + len))
    }

    /** The position of the next comma outside double quotes, if any. */
    function IndexOfCommaHeaderSeparator(): (r: Option<nat>)
      requires Valid()
      ensures r.Some? ==> index <= r.value < |str| && str[r.value] == ','
      ensures r.Some? ==> !InsideQuotes(str, index, r.value, false)
      ensures forall k :: index <= k < (if r.Some? then r.value else |str|) && str[k] == ','
                ==> InsideQuotes(str, index, k, false)
    {
      CommaFrom(str, index, false)
    }

    /** Moves to the next comma outside double quotes, or to the end. */
    function GoToCommaHeaderSeparator(): (p: Parser)
      requires Valid()
      ensures p.Valid() && p.str == str && index <= p.index
      ensures p.HasMore() ==> str[p.index] == ',' && !InsideQuotes(str, index, p.index, false)
      ensures forall k :: index <= k < p.index && str[k] == ',' ==> InsideQuotes(str, index, k, false)
    {
      match IndexOfCommaHeaderSeparator()
      case Some(comma) => Parser(str, comma)
      case None => Parser(str, |str|)
    }

    /** The rest of the text, without its enclosing double quotes. */
    function GetStringUnquoted(): (r: string)
      requires Valid()
      ensures var rest := str[index..];
        && ((|rest| == 0 || rest[0] != '"') ==> r == rest)
        && (|rest| > 0 && rest[0] == '"' && '"' !in rest[1..] ==> r == rest)
        && (|rest| > 0 && rest[0] == '"' && '"' in rest[1..] ==> "\"" + r + "\"" <= rest && '"' !in r)
    {
      Unquote(str[index..])
    }
  }
}

/**
 * The SIP Authentication-Info header (RFC 3261, section 20.6). Its value is
 * a comma-separated list of `name=value` parameters with no leading scheme
 * (`auth-param`, RFC 3261 section 25.1). The header keeps only the raw
 * text and re-scans it on every query.
 */
module AuthenticationInfo {
  import opened Wrappers
  import opened Text
  import opened SipScanner

  /** Where `getParameter` and `getParameters` end a parameter name. */
  const NameSeparators: set<char> := {'=', ' ', '\t'}
  /** Where `hasParameter` ends a parameter name: also at CR and LF. */
  const PresenceSeparators: set<char> := {'=', ' ', '\t', '\r', '\n'}

  /** The parser at the first parameter: leading blanks and line breaks skipped. */
  function Start(value: string): (p: Parser)
    ensures p.Valid() && p.str == value
    ensures forall k :: 0 <= k < p.index ==> value[k] in WSPCRLF
    ensures p.HasMore() ==> value[p.index] !in WSPCRLF
  {
    Parser(value, 0).SkipWSPCRLF()
  }

  /**
   * From just after a parameter name to the start of the next parameter:
   * past the next comma outside quotes and the blanks after it.
   */
  function NextParameter(p: Parser): (q: Parser)
    requires p.Valid()
    ensures q.Valid() && q.str == p.str
    ensures var e := SegmentEnd(p);
      && (e == |p.str| ==> q.index == |p.str|)
      && (e < |p.str| ==> e < q.index && forall k :: e < k < q.index ==> p.str[k] in WSPCRLF)
    ensures q.HasMore() ==> q.str[q.index] !in WSPCRLF
  {
    p.GoToCommaHeaderSeparator().SkipChar().SkipWSPCRLF()
  }

  /** The parameter names met by the walk from `p`, left to right. */
  function NamesFrom(p: Parser, stops: set<char>): (names: seq<string>)
    requires p.Valid()
    ensures forall i, k :: 0 <= i < |names| && 0 <= k < |names[i]| ==> names[i][k] !in stops
    ensures p.HasMore() <==> names != []
    decreases |p.str| - p.index
  {
    if !p.HasMore() then []
    else
      var (name, after) := p.GetWord(stops);
      [name] + NamesFrom(NextParameter(after), stops)
  }

  /** `t` ends just before position `j` of `s`. */
  predicate EndsAt(s: string, j: nat, t: string) {
    |t| <= j <= |s| && s[j - |t|..j] == t
  }

  /** The parser just after the first name from `p` that equals `name`, if any. */
  function FindFrom(p: Parser, stops: set<char>, name: string): (r: Option<Parser>)
    requires p.Valid()
    ensures r.Some? ==> r.value.Valid() && r.value.str == p.str
    ensures r.Some? ==> p.index + |name| <= r.value.index && EndsAt(r.value.str, r.value.index, name)
    ensures r.Some? && r.value.HasMore() ==> r.value.str[r.value.index] in stops
    decreases |p.str| - p.index
  {
    if !p.HasMore() then None
    else
      var read := p.GetWord(stops);
      if read.0 == name then
        assert read.1.index - |name| == p.index;
        Some(read.1)
      else
        var next := NextParameter(read.1);
        assert next.str == p.str && p.index <= next.index;
        FindFrom(next, stops, name)
  }

  /** The names the walk lists before the first one equal to `name`. */
  function NamesBefore(p: Parser, stops: set<char>, name: string): seq<string>
    requires p.Valid()
    decreases |p.str| - p.index
  {
    if !p.HasMore() then []
    else
      var (word, after) := p.GetWord(stops);
      if word == name then [] else [word] + NamesBefore(NextParameter(after), stops, name)
  }

  /** One step of the walk, the search and the names before the first hit. */
  lemma WalkStep(p: Parser, stops: set<char>, name: string, word: string, after: Parser)
    requires p.Valid() && p.HasMore() && p.GetWord(stops) == (word, after)
    ensures after.Valid()
    ensures NamesFrom(p, stops) == [word] + NamesFrom(NextParameter(after), stops)
    ensures FindFrom(p, stops, name)
      == if word == name then Some(after) else FindFrom(NextParameter(after), stops, name)
    ensures NamesBefore(p, stops, name)
      == if word == name then [] else [word] + NamesBefore(NextParameter(after), stops, name)
  {
  }

  /** Putting a name in front of a list split around a hit keeps the split. */
  lemma Regroup3(word: string, before: seq<string>, name: string, rest: seq<string>)
    ensures [word] + (before + [name] + rest) == ([word] + before) + [name] + rest
  {
  }

  /** Moving a name from the front of the rest to the end of the names already read. */
  lemma Shift(names: seq<string>, name: string, rest: seq<string>)
    ensures names + ([name] + rest) == (names + [name]) + rest
  {
  }

  /**
   * The search stops at the FIRST listed name equal to `name`: the names
   * before it differ from `name`, and the walk goes on from the parser it
   * returns.
   */
  lemma {:induction false} FindFromFirst(p: Parser, stops: set<char>, name: string)
    requires p.Valid()
    ensures name !in NamesBefore(p, stops, name)
    ensures FindFrom(p, stops, name).Some? ==>
      NamesFrom(p, stops) == NamesBefore(p, stops, name) + [name]
        + NamesFrom(NextParameter(FindFrom(p, stops, name).value), stops)
    decreases |p.str| - p.index
  {
    if !p.HasMore() {
      assert NamesBefore(p, stops, name) == [] && FindFrom(p, stops, name) == None;
    } else {
      var word, after := p.GetWord(stops).0, p.GetWord(stops).1;
      WalkStep(p, stops, name, word, after);
      var next := NextParameter(after);
      if word == name {
        assert NamesBefore(p, stops, name) == [];
        assert NamesFrom(p, stops) == [] + [name] + NamesFrom(next, stops);
      } else {
        FindFromFirst(next, stops, name);
        var before := NamesBefore(next, stops, name);
        assert NamesBefore(p, stops, name) == [word] + before;
        if FindFrom(next, stops, name).Some? {
          var rest := NamesFrom(NextParameter(FindFrom(next, stops, name).value), stops);
          Regroup3(word, before, name, rest);
        }
      }
    }
  }

  /** The search stops at a name exactly when the walk lists that name. */
  lemma {:induction false} FindFromListed(p: Parser, stops: set<char>, name: string)
    requires p.Valid()
    ensures FindFrom(p, stops, name).Some? <==> name in NamesFrom(p, stops)
    decreases |p.str| - p.index
  {
    if p.HasMore() {
      var (word, after) := p.GetWord(stops);
      if word != name {
        FindFromListed(NextParameter(after), stops, name);
      }
    }
  }

  /** Where the value of the parameter named just before `p` starts: past `=` and blanks. */
  function ValueStart(p: Parser): (q: Parser)
    requires p.Valid()
    ensures q.Valid() && q.str == p.str
    ensures var eq := ScanTo(p.str, p.index, {'='});
      && (eq == |p.str| ==> q.index == |p.str|)
      && (eq < |p.str| ==> eq < q.index && forall k :: eq < k < q.index ==> p.str[k] in WSP)
    ensures q.HasMore() ==> p.str[q.index] !in WSP
  {
    p.GoTo('=').SkipChar().SkipWSP()
  }

  /**
   * The raw text of the value: from its start up to the next comma outside
   * double quotes, or to the end of the header value.
   */
  function ValueText(p: Parser): (t: string)
    requires p.Valid()
    ensures var b := ValueStart(p).index;
      && b + |t| <= |p.str| && t == p.str[b..b + |t|]
      && (b + |t| == |p.str| || CommaFrom(p.str, b, false) == Some(b + |t|))
    ensures CommaFrom(t, 0, false) == None
  {
    var q := ValueStart(p);
    var end := match q.IndexOfCommaHeaderSeparator() case Some(comma) => comma case None => |q.str|;
    CommaFreeSlice(q.str, q.index, end, false);
    q.str[q.index..end]
  }

  /** `getParameters()`: the names of all parameters, in wire order. */
  function ParameterNames(value: string): (names: seq<string>)
    ensures names == [] <==> forall k :: 0 <= k < |value| ==> value[k] in WSPCRLF
  {
    NamesFrom(Start(value), NameSeparators)
  }

  /** The unquoted value of the first parameter from `p` with this name, if any. */
  function ValueFrom(p: Parser, stops: set<char>, name: string): Option<string>
    requires p.Valid()
  {
    match FindFrom(p, stops, name)
    case Some(after) => Some(Unquote(ValueText(after)))
    case None => None
  }

  /**
   * `getParameter(name)`: the unquoted value of the first parameter so
   * named; there is one exactly when `getParameters` lists the name.
   */
  function ParameterValue(value: string, name: string): (r: Option<string>)
    ensures r.Some? <==> name in ParameterNames(value)
  {
    FindFromListed(Start(value), NameSeparators, name);
    ValueFrom(Start(value), NameSeparators, name)
  }

  /** `hasParameter(name)`: the walk that also ends names at line breaks meets the name. */
  predicate HasParam(value: string, name: string)
    ensures HasParam(value, name) <==> name in NamesFrom(Start(value), PresenceSeparators)
  {
    FindFromListed(Start(value), PresenceSeparators, name);
    FindFrom(Start(value), PresenceSeparators, name).Some?
  }

  /** A value with no line breaks: `hasParameter` and `getParameter` see the same names. */
  lemma {:induction false} FindWithoutLineBreaks(p: Parser, name: string)
    requires p.Valid()
    requires '\r' !in p.str && '\n' !in p.str
    ensures FindFrom(p, PresenceSeparators, name) == FindFrom(p, NameSeparators, name)
    decreases |p.str| - p.index
  {
    if p.HasMore() {
      ScanToSameStops(p.str, p.index, PresenceSeparators, NameSeparators);
      var (word, after) := p.GetWord(NameSeparators);
      if word != name {
        FindWithoutLineBreaks(NextParameter(after), name);
      }
    }
  }

  /** Without line breaks, `hasParameter` is true exactly when `getParameter` finds a value. */
  lemma HasParamIffValue(value: string, name: string)
    requires '\r' !in value && '\n' !in value
    ensures HasParam(value, name) <==> ParameterValue(value, name).Some?
  {
    FindWithoutLineBreaks(Start(value), name);
  }

  /** Where the parameter whose name ends at `p` ends: at its separating comma, or at the end. */
  function SegmentEnd(p: Parser): (e: nat)
    requires p.Valid()
    ensures p.index <= e <= |p.str|
    ensures e < |p.str| ==> p.str[e] == ','
    ensures forall k :: p.index <= k < e && p.str[k] == ',' ==> InsideQuotes(p.str, p.index, k, false)
  {
    match CommaFrom(p.str, p.index, false)
    case Some(comma) => comma
    case None => |p.str|
  }

  /**
   * The value read as the parameter syntax means it: the `=` and the value
   * are looked for only inside the parameter's own segment, so a parameter
   * without `=` has an empty value instead of the next parameter's.
   */
  function CorrectedValueText(p: Parser): (t: string)
    requires p.Valid()
    ensures |t| <= SegmentEnd(p) - p.index
    ensures EndsAt(p.str, SegmentEnd(p), t)
    ensures '=' !in p.str[p.index..SegmentEnd(p)] ==> t == ""
  {
    var e := SegmentEnd(p);
    var eq := ScanTo(p.str, p.index, {'='});
    if eq >= e then ""
    else
      assert p.str[eq] == p.str[p.index..e][eq - p.index];
      var b := SkipIn(p.str, eq + 1, WSP);
      assert b <= e;
      assert EndsAt(p.str, e, p.str[b..e]);
      p.str[b..e]
  }

  /** With an `=` in the segment, the corrected value runs from after it and its blanks to the segment's end. */
  lemma CorrectedValueSpan(p: Parser, eq: nat, b: nat, e: nat)
    requires p.Valid()
    requires eq == ScanTo(p.str, p.index, {'='}) && e == SegmentEnd(p) && eq < e
    requires b == SkipIn(p.str, eq + 1, WSP)
    ensures p.index <= eq < b <= e <= |p.str|
    ensures CorrectedValueText(p) == p.str[b..e]
  {
    if e < |p.str| {
      assert p.str[e] == ',';
    }
  }

  /** The source's value text runs from the value's start to the end of the segment it starts in. */
  lemma ValueTextSpan(p: Parser, b: nat, e: nat)
    requires p.Valid()
    requires ValueStart(p) == Parser(p.str, b) && SegmentEnd(Parser(p.str, b)) == e
    ensures b <= e <= |p.str|
    ensures ValueText(p) == p.str[b..e]
  {
  }

  /** A stretch inside a quote-free stretch holds no double quote either. */
  lemma QuoteFreeStretch(s: string, i: nat, j: nat, e: nat)
    requires i <= j <= e <= |s|
    requires '"' !in s[i..e]
    ensures QuoteCount(s[i..j]) == 0
  {
    assert forall m :: 0 <= m < j - i ==> s[i..j][m] == s[i..e][m];
    QuoteCountZero(s[i..j]);
  }

  /** Past an `=`, the value starts after the `=` and the blanks that follow it. */
  lemma ValueStartPast(p: Parser, eq: nat, b: nat)
    requires p.Valid() && eq == ScanTo(p.str, p.index, {'='}) < |p.str|
    requires b == SkipIn(p.str, eq + 1, WSP)
    ensures p.index <= eq < b && ValueStart(p) == Parser(p.str, b)
  {
  }

  /**
   * Seen from a later point of a segment, with no double quote before that
   * point, the segment ends at the same place.
   */
  lemma SegmentEndFrom(p: Parser, b: nat)
    requires p.Valid() && p.index <= b <= SegmentEnd(p)
    requires '"' !in p.str[p.index..b]
    ensures SegmentEnd(Parser(p.str, b)) == SegmentEnd(p)
  {
    forall k | p.index <= k < b
      ensures p.str[k] != ','
    {
      QuoteFreeStretch(p.str, p.index, k, b);
    }
    QuoteFreeStretch(p.str, p.index, b, b);
    CommaFromNoComma(p.str, p.index, b, false);
  }

  /**
   * Where the parameter's own segment holds an `=`, and no double quote
   * comes before its value, the corrected reading takes the same value
   * text as the source's (a quoted value included).
   */
  lemma CorrectedAgreesWhenEqualsPresent(p: Parser)
    requires p.Valid()
    requires ScanTo(p.str, p.index, {'='}) < SegmentEnd(p)
    requires '"' !in p.str[p.index..SkipIn(p.str, ScanTo(p.str, p.index, {'='}) + 1, WSP)]
    ensures CorrectedValueText(p) == ValueText(p)
  {
    CorrectedAgreesAt(p, ScanTo(p.str, p.index, {'='}),
      SkipIn(p.str, ScanTo(p.str, p.index, {'='}) + 1, WSP), SegmentEnd(p));
  }

  /** The same, with the `=`, the value's start and the segment's end named. */
  lemma CorrectedAgreesAt(p: Parser, eq: nat, b: nat, e: nat)
    requires p.Valid()
    requires eq == ScanTo(p.str, p.index, {'='}) && e == SegmentEnd(p) && eq < e
    requires b == SkipIn(p.str, eq + 1, WSP) && '"' !in p.str[p.index..b]
    ensures CorrectedValueText(p) == ValueText(p)
  {
    CorrectedValueSpan(p, eq, b, e);
    ValueStartPast(p, eq, b);
    SegmentEndFrom(p, b);
    ValueTextSpan(p, b, e);
  }

  /**
   * `getParameter` as evidently intended: names end where `hasParameter`
   * ends them, and the value comes from the parameter's own segment.
   */
  function CorrectedParameterValue(value: string, name: string): Option<string>
  {
    match FindFrom(Start(value), PresenceSeparators, name)
    case Some(p) => Some(Unquote(CorrectedValueText(p)))
    case None => None
  }

  /** The names the corrected reading sees: ended where `hasParameter` ends them. */
  function CorrectedParameterNames(value: string): (names: seq<string>)
    ensures forall i, k :: 0 <= i < |names| && 0 <= k < |names[i]| ==> names[i][k] !in PresenceSeparators
  {
    NamesFrom(Start(value), PresenceSeparators)
  }

  /**
   * With the corrected reading the three queries agree on every value,
   * line breaks included: a parameter is present exactly when it has a
   * value and exactly when it is listed. Since the corrected reader looks
   * names up with the separators of `hasParameter`, this records that
   * design choice; `HasParamIffValue` is the source's pairing, which holds
   * only without line breaks.
   */
  lemma CorrectedQueriesAgree(value: string, name: string)
    ensures CorrectedParameterValue(value, name).Some? <==> HasParam(value, name)
    ensures HasParam(value, name) <==> name in CorrectedParameterNames(value)
  {
    FindFromListed(Start(value), PresenceSeparators, name);
  }

  /** A name with none of the characters that end a parameter name. */
  predicate PlainName(name: string) {
    name != [] && forall k :: 0 <= k < |name| ==> name[k] !in PresenceSeparators
  }

  /** A plain name at the very start of the value is found, its parser just past it. */
  lemma FirstName(v: string, name: string, stops: set<char>)
    requires PlainName(name) && name <= v
    requires stops == NameSeparators || stops == PresenceSeparators
    requires |name| < |v| && v[|name|] == '='
    ensures FindFrom(Start(v), stops, name) == Some(Parser(v, |name|))
  {
    assert Start(v) == Parser(v, 0) by {
      assert v[0] == name[0];
    }
    ScanToRun(v, 0, |name|, stops);
    assert v[0..|name|] == name;
  }

  /** After `"x"`, the next separating comma is the one right after the closing quote. */
  lemma CommaAfterQuoted(v: string, b: nat, x: string)
    requires b + |x| + 2 <= |v| && '"' !in x
    requires v[b] == '"' && v[b + 1..b + 1 + |x|] == x && v[b + 1 + |x|] == '"'
    requires b + |x| + 2 == |v| || v[b + |x| + 2] == ','
    ensures CommaFrom(v, b, false) == if b + |x| + 2 == |v| then None else Some(b + |x| + 2)
  {
    var close := b + 1 + |x|;
    assert CommaFrom(v, b, false) == CommaFrom(v, b + 1, true);
    assert forall k :: b + 1 <= k < close ==> v[k] == x[k - (b + 1)];
    CommaFromRun(v, b + 1, close, true);
    assert CommaFrom(v, close, true) == CommaFrom(v, close + 1, false);
  }

  /** `"x"` written at `b`. */
  lemma QuotedSlice(v: string, b: nat, x: string)
    requires b + |x| + 2 <= |v|
    requires v[b] == '"' && v[b + 1..b + 1 + |x|] == x && v[b + 1 + |x|] == '"'
    ensures v[b..b + |x| + 2] == "\"" + x + "\""
  {
    var q := "\"" + x + "\"";
    forall k | 0 <= k < |q|
      ensures v[b..b + |x| + 2][k] == q[k]
    {
      if 1 <= k <= |x| {
        assert v[b + k] == v[b + 1..b + 1 + |x|][k - 1];
      }
    }
  }

  /** `="x"` up to a comma or the end: both readings take the text with its quotes. */
  lemma QuotedValueAt(v: string, n: nat, x: string)
    requires n + |x| + 3 <= |v| && '"' !in x
    requires v[n] == '=' && v[n + 1] == '"' && v[n + 2..n + 2 + |x|] == x && v[n + 2 + |x|] == '"'
    requires n + |x| + 3 == |v| || v[n + |x| + 3] == ','
    ensures ValueText(Parser(v, n)) == "\"" + x + "\""
    ensures CorrectedValueText(Parser(v, n)) == "\"" + x + "\""
  {
    QuotedSource(v, n, x);
    QuotedCorrected(v, n, x);
  }

  /** The source's reading of `="x"`. */
  lemma QuotedSource(v: string, n: nat, x: string)
    requires n + |x| + 3 <= |v| && '"' !in x
    requires v[n] == '=' && v[n + 1] == '"' && v[n + 2..n + 2 + |x|] == x && v[n + 2 + |x|] == '"'
    requires n + |x| + 3 == |v| || v[n + |x| + 3] == ','
    ensures ValueText(Parser(v, n)) == "\"" + x + "\""
  {
    QuotedSlice(v, n + 1, x);
    QuotedSegment(v, n, x);
    EqualsThenQuote(v, n);
    ValueTextSpan(Parser(v, n), n + 1, n + |x| + 3);
  }

  /** The corrected reading of `="x"`. */
  lemma QuotedCorrected(v: string, n: nat, x: string)
    requires n + |x| + 3 <= |v| && '"' !in x
    requires v[n] == '=' && v[n + 1] == '"' && v[n + 2..n + 2 + |x|] == x && v[n + 2 + |x|] == '"'
    requires n + |x| + 3 == |v| || v[n + |x| + 3] == ','
    ensures CorrectedValueText(Parser(v, n)) == "\"" + x + "\""
  {
    var p := Parser(v, n);
    QuotedSlice(v, n + 1, x);
    QuotedSegment(v, n, x);
    EqualsThenQuote(v, n);
    assert p.str == v && p.index == n;
    CorrectedValueSpan(p, n, n + 1, n + |x| + 3);
  }

  /** At `="`, the value starts at the quote. */
  lemma EqualsThenQuote(v: string, n: nat)
    requires n + 1 < |v| && v[n] == '=' && v[n + 1] == '"'
    ensures ScanTo(v, n, {'='}) == n && SkipIn(v, n + 1, WSP) == n + 1
    ensures ValueStart(Parser(v, n)) == Parser(v, n + 1)
  {
    assert v[n + 1] !in WSP;
  }

  /** The segment of `="x"`, seen from the `=` or from the opening quote, ends after the closing quote. */
  lemma QuotedSegment(v: string, n: nat, x: string)
    requires n + |x| + 3 <= |v| && '"' !in x
    requires v[n] == '=' && v[n + 1] == '"' && v[n + 2..n + 2 + |x|] == x && v[n + 2 + |x|] == '"'
    requires n + |x| + 3 == |v| || v[n + |x| + 3] == ','
    ensures SegmentEnd(Parser(v, n)) == n + |x| + 3 && SegmentEnd(Parser(v, n + 1)) == n + |x| + 3
  {
    CommaAfterQuoted(v, n + 1, x);
    assert CommaFrom(v, n, false) == CommaFrom(v, n + 1, false);
  }

  /**
   * The first parameter, `name="x"`: both readings give back `x`, whatever
   * follows after a comma.
   */
  lemma QuotedFirstParameter(name: string, x: string, rest: string)
    requires PlainName(name) && '"' !in x
    requires rest == [] || rest[0] == ','
    ensures ParameterValue(name + "=\"" + x + "\"" + rest, name) == Some(x)
    ensures CorrectedParameterValue(name + "=\"" + x + "\"" + rest, name) == Some(x)
  {
    var v := name + "=\"" + x + "\"" + rest;
    var n := |name|;
    assert name <= v && v[n] == '=' && v[n + 1] == '"' && v[n + 2 + |x|] == '"';
    assert v[n + 2..n + 2 + |x|] == x;
    assert n + |x| + 3 == |v| || v[n + |x| + 3] == ',';
    FirstName(v, name, NameSeparators);
    FirstName(v, name, PresenceSeparators);
    QuotedValueAt(v, n, x);
    UnquoteQuoted(x, []);
    assert "\"" + x + "\"" + [] == "\"" + x + "\"";
  }

  /** In `nonce ,qop=auth` both name readings stop at `nonce`, before the blank. */
  lemma NonceFound(v: string, stops: set<char>)
    requires v == "nonce ,qop=auth"
    requires stops == NameSeparators || stops == PresenceSeparators
    ensures FindFrom(Start(v), stops, "nonce") == Some(Parser(v, 5))
  {
    assert Start(v) == Parser(v, 0);
    ScanToRun(v, 0, 5, stops);
    assert v[0..5] == "nonce" && v[5] == ' ';
    assert ScanTo(v, 5, stops) == 5;
    assert Parser(v, 0).GetWord(stops) == ("nonce", Parser(v, 5));
  }

  /** As written, the value after `nonce` is read past the comma, from `qop=auth`. */
  lemma NonceValueText(v: string)
    requires v == "nonce ,qop=auth"
    ensures ValueText(Parser(v, 5)) == "auth"
  {
    ScanToRun(v, 5, 10, {'='});
    assert ValueStart(Parser(v, 5)) == Parser(v, 11);
    CommaFromRun(v, 11, 15, false);
    assert v[11..15] == "auth";
  }

  /** Corrected, the segment of `nonce` ends at the comma before any `=`. */
  lemma NonceCorrectedText(v: string)
    requires v == "nonce ,qop=auth"
    ensures CorrectedValueText(Parser(v, 5)) == ""
  {
    ScanToRun(v, 5, 10, {'='});
    assert CommaFrom(v, 5, false) == CommaFrom(v, 6, false);
    assert SegmentEnd(Parser(v, 5)) == 6;
  }

  /** `getParameter` on a parameter without `=` returns the next parameter's value. */
  lemma GetParameterCrossesComma(v: string)
    requires v == "nonce ,qop=auth"
    ensures ParameterValue(v, "nonce") == Some("auth")
    ensures CorrectedParameterValue(v, "nonce") == Some("")
  {
    NonceFound(v, NameSeparators);
    NonceFound(v, PresenceSeparators);
    NonceValueText(v);
    NonceCorrectedText(v);
    assert Unquote("auth") == "auth";
  }

  /** In `realm\r\n =x`, `hasParameter` ends the name at the line break. */
  lemma RealmPresent(v: string)
    requires v == "realm\r\n =x"
    ensures FindFrom(Start(v), PresenceSeparators, "realm") == Some(Parser(v, 5))
  {
    assert Start(v) == Parser(v, 0);
    ScanToRun(v, 0, 5, PresenceSeparators);
    assert v[0..5] == "realm" && v[5] == '\r';
    assert ScanTo(v, 5, PresenceSeparators) == 5;
    assert Parser(v, 0).GetWord(PresenceSeparators) == ("realm", Parser(v, 5));
  }

  /** In `realm\r\n =x`, `getParameter` reads the name `realm\r\n` and nothing else. */
  lemma RealmAbsent(v: string)
    requires v == "realm\r\n =x"
    ensures FindFrom(Start(v), NameSeparators, "realm") == None
  {
    assert Start(v) == Parser(v, 0);
    ScanToRun(v, 0, 7, NameSeparators);
    assert v[7] == ' ';
    assert ScanTo(v, 7, NameSeparators) == 7;
    assert Parser(v, 0).GetWord(NameSeparators) == (v[0..7], Parser(v, 7));
    assert v[0..7] != "realm";
    CommaFromRun(v, 7, 10, false);
    assert NextParameter(Parser(v, 7)) == Parser(v, 10);
  }

  /** Corrected, the value of `realm` in `realm\r\n =x` is `x`. */
  lemma RealmCorrectedText(v: string)
    requires v == "realm\r\n =x"
    ensures CorrectedValueText(Parser(v, 5)) == "x"
  {
    CommaFromRun(v, 5, 10, false);
    assert SegmentEnd(Parser(v, 5)) == 10;
    ScanToRun(v, 5, 8, {'='});
    assert ScanTo(v, 5, {'='}) == 8;
    assert SkipIn(v, 9, WSP) == 9;
    assert v[9..10] == "x";
  }

  /** A line break after a name: `hasParameter` says yes, `getParameter` finds nothing. */
  lemma LineBreakAfterName(v: string)
    requires v == "realm\r\n =x"
    ensures HasParam(v, "realm")
    ensures ParameterValue(v, "realm") == None
    ensures CorrectedParameterValue(v, "realm") == Some("x")
  {
    RealmPresent(v);
    RealmAbsent(v);
    RealmCorrectedText(v);
    assert Unquote("x") == "x";
  }

  /**
   * The value reader of `getParameter`, from just after the matching name:
   * to `=`, past it and blanks, then cut at the next separating comma by a
   * fresh parser over the cut text, and unquoted.
   */
  method ReadValue(found: Parser) returns (text: string)
    requires found.Valid()
    ensures text == Unquote(ValueText(found))
  {
    var par := found.GoTo('=').SkipChar().SkipWSP();
    assert par == ValueStart(found);
    var comma := par.IndexOfCommaHeaderSeparator();
    if comma.Some? {
      var (cut, _) := par.GetString(comma.value - par.index);
      assert cut == ValueText(found);
      par := Parser(cut, 0);
      assert par.str[par.index..] == cut;
    } else {
      assert par.str[par.index..] == ValueText(found);
    }
    text := par.GetStringUnquoted();
  }

  /**
   * One parameter as written on the wire: the blanks and line breaks that
   * may follow the separating comma (`lead`), the name, blanks, `=`,
   * blanks, and the value text.
   */
  datatype Param = Param(lead: string, name: string, pre: string, post: string, text: string)

  /** Every character of `t` is in `cs`. */
  predicate AllIn(t: string, cs: set<char>) {
    forall k :: 0 <= k < |t| ==> t[k] in cs
  }

  /**
   * A parameter the header reads as meant: blanks and line breaks before a
   * plain name, spaces and tabs around `=`, and a value text that holds no
   * comma outside double quotes, closes every quote it opens, and does not
   * start with a blank.
   */
  predicate WellFormedParam(x: Param) {
    && AllIn(x.lead, WSPCRLF) && PlainName(x.name) && AllIn(x.pre, WSP) && AllIn(x.post, WSP)
    && QuoteStateAfter(x.text, false) == Some(false)
    && (x.text == [] || x.text[0] !in WSP)
  }

  predicate WellFormedParams(ps: seq<Param>) {
    forall j :: 0 <= j < |ps| ==> WellFormedParam(ps[j])
  }

  /** The wire text of one parameter. */
  function Wire(x: Param): string {
    x.lead + (x.name + (x.pre + ("=" + (x.post + x.text))))
  }

  /** The parameters' wire texts, in order. */
  function ParamTexts(ps: seq<Param>): (texts: seq<string>)
    ensures |texts| == |ps|
    decreases |ps|
  {
    if ps == [] then [] else [Wire(ps[0])] + ParamTexts(ps[1..])
  }

  /** The parameters' names, in order. */
  function Names(ps: seq<Param>): (names: seq<string>)
    ensures |names| == |ps|
    decreases |ps|
  {
    if ps == [] then [] else [ps[0].name] + Names(ps[1..])
  }

  /** The unquoted text of the first parameter with this name, if any. */
  function FirstValue(ps: seq<Param>, name: string): Option<string>
    decreases |ps|
  {
    if ps == [] then None
    else if ps[0].name == name then Some(Unquote(ps[0].text))
    else FirstValue(ps[1..], name)
  }

  /** Where the name of parameter `x` written at `i` starts. */
  function NameStart(i: nat, x: Param): nat {
    i + |x.lead|
  }

  /** Where its name ends. */
  function NameEnd(i: nat, x: Param): nat {
    NameStart(i, x) + |x.name|
  }

  /** Where its `=` is. */
  function EqualsAt(i: nat, x: Param): nat {
    NameEnd(i, x) + |x.pre|
  }

  /** Where its value text starts. */
  function TextStart(i: nat, x: Param): nat {
    EqualsAt(i, x) + 1 + |x.post|
  }

  /** Where its wire text ends. */
  function ParamEnd(i: nat, x: Param): nat {
    TextStart(i, x) + |x.text|
  }

  /** Parameter `x` is written at `i`, piece by piece. */
  ghost predicate ParamAt(s: string, i: nat, x: Param) {
    && ParamEnd(i, x) <= |s|
    && s[i..NameStart(i, x)] == x.lead
    && s[NameStart(i, x)..NameEnd(i, x)] == x.name
    && s[NameEnd(i, x)..EqualsAt(i, x)] == x.pre
    && s[EqualsAt(i, x)] == '='
    && s[EqualsAt(i, x) + 1..TextStart(i, x)] == x.post
    && s[TextStart(i, x)..ParamEnd(i, x)] == x.text
  }

  /** A well-formed parameter `x` is written at `i`, followed by the end or by a comma. */
  ghost predicate HeadAt(s: string, i: nat, x: Param) {
    && WellFormedParam(x) && ParamAt(s, i, x)
    && (ParamEnd(i, x) < |s| ==> s[ParamEnd(i, x)] == ',')
  }

  /** Where the text of the parameter after `x` starts: past the comma, or the end. */
  function After(s: string, i: nat, x: Param): nat {
    if ParamEnd(i, x) < |s| then ParamEnd(i, x) + 1 else |s|
  }

  /** A bounded slice that is a concatenation splits into its two parts. */
  lemma SplitSlice(s: string, i: nat, j: nat, x: string, y: string)
    requires i <= j <= |s| && s[i..j] == x + y
    ensures i + |x| <= j && s[i..i + |x|] == x && s[i + |x|..j] == y
  {
    assert s[i..i + |x|] == (x + y)[..|x|];
    assert s[i + |x|..j] == (x + y)[|x|..];
  }

  /** A slice to the end that is a concatenation splits into its two parts. */
  lemma SplitAt(s: string, i: nat, x: string, y: string)
    requires i <= |s| && s[i..] == x + y
    ensures i + |x| <= |s| && s[i..i + |x|] == x && s[i + |x|..] == y
  {
    SplitSlice(s, i, |s|, x, y);
  }

  /** The wire text of `x` written at `i` lays `x` out piece by piece. */
  lemma WirePieces(s: string, i: nat, x: Param)
    requires ParamEnd(i, x) <= |s| && s[i..ParamEnd(i, x)] == Wire(x)
    ensures ParamAt(s, i, x)
  {
    var n, m, e := NameStart(i, x), NameEnd(i, x), ParamEnd(i, x);
    SplitSlice(s, i, e, x.lead, x.name + (x.pre + ("=" + (x.post + x.text))));
    SplitSlice(s, n, e, x.name, x.pre + ("=" + (x.post + x.text)));
    WireTail(s, m, EqualsAt(i, x), e, x);
  }

  /** From the end of the name at `m`: blanks, `=` at `a`, blanks and the value text. */
  lemma WireTail(s: string, m: nat, a: nat, e: nat, x: Param)
    requires a == m + |x.pre| && a + 1 + |x.post| + |x.text| == e <= |s|
    requires s[m..e] == x.pre + ("=" + (x.post + x.text))
    ensures s[m..a] == x.pre && s[a] == '='
    ensures s[a + 1..a + 1 + |x.post|] == x.post && s[a + 1 + |x.post|..e] == x.text
  {
    SplitSlice(s, m, e, x.pre, "=" + (x.post + x.text));
    SplitSlice(s, a, e, "=", x.post + x.text);
    assert s[a] == s[a..a + 1][0];
    SplitSlice(s, a + 1, e, x.post, x.text);
  }

  /** The wire text of a one-parameter list is that parameter's. */
  lemma JoinedOne(ps: seq<Param>)
    requires |ps| == 1
    ensures Join(ParamTexts(ps), ",") == Wire(ps[0]) + ""
  {
    assert ParamTexts(ps) == [Wire(ps[0])];
  }

  /** The wire text of a longer list: its first parameter, `,`, and the others. */
  lemma JoinedMore(ps: seq<Param>)
    requires |ps| > 1
    ensures Join(ParamTexts(ps), ",") == Wire(ps[0]) + ("," + Join(ParamTexts(ps[1..]), ","))
  {
    var texts := ParamTexts(ps);
    assert texts[0] == Wire(ps[0]) && texts[1..] == ParamTexts(ps[1..]);
    var more := Join(ParamTexts(ps[1..]), ",");
    assert Join(texts, ",") == Wire(ps[0]) + "," + more;
  }

  /** A parameter's wire text at `i` lays it out; what follows starts where it ends. */
  lemma WireAt(s: string, i: nat, x: Param, rest: string)
    requires i <= |s| && s[i..] == Wire(x) + rest
    ensures ParamAt(s, i, x) && s[ParamEnd(i, x)..] == rest
  {
    SplitAt(s, i, Wire(x), rest);
    assert i + |Wire(x)| == ParamEnd(i, x);
    WirePieces(s, i, x);
  }

  /** A comma at `e`, and the rest after it. */
  lemma CommaThen(s: string, e: nat, more: string)
    requires e <= |s| && s[e..] == "," + more
    ensures e < |s| && s[e] == ',' && s[e + 1..] == more
  {
    SplitAt(s, e, ",", more);
    assert s[e] == s[e..e + 1][0];
  }

  /**
   * The parameters `ps` are written one after another from `i` to the end
   * of `s`, separated by single commas.
   */
  ghost predicate LaidOut(s: string, i: nat, ps: seq<Param>)
    decreases |ps|
  {
    && ps != [] && HeadAt(s, i, ps[0])
    && (|ps| == 1 <==> ParamEnd(i, ps[0]) == |s|)
    && (|ps| > 1 ==> LaidOut(s, After(s, i, ps[0]), ps[1..]))
  }

  /** A joined list of well-formed parameters is laid out parameter by parameter. */
  lemma {:induction false} JoinedLaidOut(s: string, i: nat, ps: seq<Param>)
    requires ps != [] && WellFormedParams(ps)
    requires i <= |s| && s[i..] == Join(ParamTexts(ps), ",")
    ensures LaidOut(s, i, ps)
    decreases |ps|
  {
    var x := ps[0];
    var more := Join(ParamTexts(ps[1..]), ",");
    assert WellFormedParam(x);
    if |ps| == 1 {
      JoinedOne(ps);
      WireAt(s, i, x, "");
    } else {
      JoinedMore(ps);
      WireAt(s, i, x, "," + more);
      CommaThen(s, ParamEnd(i, x), more);
      JoinedLaidOut(s, After(s, i, x), ps[1..]);
    }
  }

  /** The blanks and line breaks before a laid-out parameter are skipped up to its name. */
  lemma LeadAt(s: string, i: nat, x: Param)
    requires HeadAt(s, i, x)
    ensures SkipIn(s, i, WSPCRLF) == NameStart(i, x) < |s|
  {
    var n := NameStart(i, x);
    assert forall k :: i <= k < n ==> s[k] in WSPCRLF by {
      assert forall k :: i <= k < n ==> s[k] == x.lead[k - i];
    }
    assert s[n] == x.name[0] by {
      assert s[n] == s[n..NameEnd(i, x)][0];
    }
    assert s[n] !in WSPCRLF;
  }

  /** Either name reader reads the name of a laid-out parameter whole. */
  lemma NameAt(s: string, i: nat, x: Param, stops: set<char>)
    requires stops == NameSeparators || stops == PresenceSeparators
    requires HeadAt(s, i, x)
    ensures NameStart(i, x) < |s|
    ensures Parser(s, NameStart(i, x)).GetWord(stops) == (x.name, Parser(s, NameEnd(i, x)))
  {
    var n, m := NameStart(i, x), NameEnd(i, x);
    assert forall k :: n <= k < m ==> s[k] !in stops by {
      assert forall k :: n <= k < m ==> s[k] == x.name[k - n];
    }
    assert s[m] in stops by {
      if x.pre != [] {
        assert s[m] == s[m..EqualsAt(i, x)][0];
      }
    }
    assert ScanTo(s, n, stops) == m;
  }

  /** From the end of the name, the value text starts past `=` and the blanks after it. */
  lemma ValueStartAt(s: string, i: nat, x: Param)
    requires HeadAt(s, i, x)
    ensures NameEnd(i, x) <= |s|
    ensures ValueStart(Parser(s, NameEnd(i, x))) == Parser(s, TextStart(i, x))
  {
    var m, a, b := NameEnd(i, x), EqualsAt(i, x), TextStart(i, x);
    assert ScanTo(s, m, {'='}) == a by {
      assert forall k :: m <= k < a ==> s[k] == x.pre[k - m];
    }
    assert SkipIn(s, a + 1, WSP) == b by {
      assert forall k :: a + 1 <= k < b ==> s[k] == x.post[k - a - 1];
      if b < |s| && x.text != [] {
        assert s[b] == s[b..ParamEnd(i, x)][0];
      }
    }
  }

  /**
   * From the end of the name, the next comma outside quotes is the one
   * after the value text, if any.
   */
  lemma CommaAt(s: string, i: nat, x: Param)
    requires HeadAt(s, i, x)
    ensures NameEnd(i, x) <= TextStart(i, x) <= ParamEnd(i, x) <= |s|
    ensures CommaFrom(s, NameEnd(i, x), false) == CommaFrom(s, TextStart(i, x), false)
    ensures CommaFrom(s, TextStart(i, x), false)
         == if ParamEnd(i, x) == |s| then None else Some(ParamEnd(i, x))
  {
    CommaBeforeText(s, NameEnd(i, x), EqualsAt(i, x), TextStart(i, x), x);
    CommaAfterText(s, i, x);
  }

  /** The blanks and `=` between the name and the value text hold no comma and no quote. */
  lemma CommaBeforeText(s: string, m: nat, a: nat, b: nat, x: Param)
    requires m + |x.pre| == a && a + 1 + |x.post| == b <= |s|
    requires s[m..a] == x.pre && s[a] == '=' && s[a + 1..b] == x.post
    requires AllIn(x.pre, WSP) && AllIn(x.post, WSP)
    ensures CommaFrom(s, m, false) == CommaFrom(s, b, false)
  {
    forall n | m <= n < b
      ensures s[n] != '"' && s[n] != ','
    {
      if n < a {
        assert s[n] == x.pre[n - m];
      } else if a < n {
        assert s[n] == x.post[n - a - 1];
      }
    }
    CommaFromRun(s, m, b, false);
  }

  /** The reader goes through the value text and stops at the comma after it, if any. */
  lemma CommaAfterText(s: string, i: nat, x: Param)
    requires HeadAt(s, i, x)
    ensures TextStart(i, x) <= ParamEnd(i, x) <= |s|
    ensures CommaFrom(s, TextStart(i, x), false)
         == if ParamEnd(i, x) == |s| then None else Some(ParamEnd(i, x))
  {
    var b, e := TextStart(i, x), ParamEnd(i, x);
    CommaFromThrough(s, b, e, x.text, false);
    assert CommaFrom(s, e, false) == if e == |s| then None else Some(e);
  }

  /** The value text read from the end of the name is the parameter's text. */
  lemma ValueAt(s: string, i: nat, x: Param)
    requires HeadAt(s, i, x)
    ensures NameEnd(i, x) <= |s|
    ensures ValueText(Parser(s, NameEnd(i, x))) == x.text
  {
    ValueStartAt(s, i, x);
    CommaAt(s, i, x);
  }

  /**
   * From the end of the name, the walk ends after the last parameter, and
   * otherwise goes past the comma and the blanks and line breaks after it.
   */
  lemma NextAt(s: string, i: nat, x: Param, next: nat)
    requires HeadAt(s, i, x)
    requires next == if ParamEnd(i, x) < |s| then SkipIn(s, ParamEnd(i, x) + 1, WSPCRLF) else |s|
    ensures NameEnd(i, x) <= |s|
    ensures NextParameter(Parser(s, NameEnd(i, x))) == Parser(s, next)
  {
    CommaAt(s, i, x);
  }

  /** Where the walk resumes after a laid-out parameter: the next name, or the end. */
  lemma NextName(s: string, i: nat, ps: seq<Param>, next: nat)
    requires LaidOut(s, i, ps)
    requires next == if |ps| > 1 then NameStart(After(s, i, ps[0]), ps[1]) else |s|
    ensures ParamEnd(i, ps[0]) <= |s|
    ensures next == if ParamEnd(i, ps[0]) < |s| then SkipIn(s, ParamEnd(i, ps[0]) + 1, WSPCRLF) else |s|
  {
    if |ps| > 1 {
      LeadAt(s, After(s, i, ps[0]), ps[1]);
    }
  }

  /** The first name of a laid-out list is where the walk reads it. */
  function Cursor(s: string, i: nat, ps: seq<Param>): nat {
    if ps == [] then |s| else NameStart(i, ps[0])
  }

  /** The walk reads the name of a laid-out parameter, then goes on at the next one. */
  lemma NamesHeadStep(s: string, i: nat, ps: seq<Param>, stops: set<char>)
    requires stops == NameSeparators || stops == PresenceSeparators
    requires LaidOut(s, i, ps)
    ensures Cursor(s, i, ps) <= |s| && Cursor(s, After(s, i, ps[0]), ps[1..]) <= |s|
    ensures NamesFrom(Parser(s, Cursor(s, i, ps)), stops)
         == [ps[0].name] + NamesFrom(Parser(s, Cursor(s, After(s, i, ps[0]), ps[1..])), stops)
  {
    var x := ps[0];
    var next := Cursor(s, After(s, i, x), ps[1..]);
    NextName(s, i, ps, next);
    NameAt(s, i, x, stops);
    NextAt(s, i, x, next);
    WalkStep(Parser(s, NameStart(i, x)), stops, x.name, x.name, Parser(s, NameEnd(i, x)));
  }

  /** The names read at the head, followed by the names of the rest, are all the names. */
  lemma NamesCons(s: string, c: nat, next: nat, ps: seq<Param>, stops: set<char>)
    requires ps != [] && c <= |s| && next <= |s|
    requires NamesFrom(Parser(s, c), stops) == [ps[0].name] + NamesFrom(Parser(s, next), stops)
    requires NamesFrom(Parser(s, next), stops) == Names(ps[1..])
    ensures NamesFrom(Parser(s, c), stops) == Names(ps)
  {
  }

  /** On a laid-out list, the walk lists exactly the parameters' names, in order. */
  lemma {:induction false} RenderedNames(s: string, i: nat, ps: seq<Param>, stops: set<char>)
    requires stops == NameSeparators || stops == PresenceSeparators
    requires LaidOut(s, i, ps)
    ensures Cursor(s, i, ps) <= |s|
    ensures NamesFrom(Parser(s, Cursor(s, i, ps)), stops) == Names(ps)
    decreases |ps|
  {
    var j := After(s, i, ps[0]);
    NamesHeadStep(s, i, ps, stops);
    if |ps| > 1 {
      RenderedNames(s, j, ps[1..], stops);
    } else {
      assert NamesFrom(Parser(s, Cursor(s, j, ps[1..])), stops) == [];
    }
    NamesCons(s, Cursor(s, i, ps), Cursor(s, j, ps[1..]), ps, stops);
  }

  /**
   * The search stops at the head of a laid-out list if it has the name
   * sought, with the head's text as the value; otherwise it goes on at the
   * next parameter.
   */
  lemma FindHeadStep(s: string, i: nat, ps: seq<Param>, stops: set<char>, name: string)
    requires stops == NameSeparators || stops == PresenceSeparators
    requires LaidOut(s, i, ps)
    ensures Cursor(s, i, ps) <= |s| && Cursor(s, After(s, i, ps[0]), ps[1..]) <= |s|
    ensures ps[0].name == name ==> ValueFrom(Parser(s, Cursor(s, i, ps)), stops, name) == Some(Unquote(ps[0].text))
    ensures ps[0].name != name ==>
      ValueFrom(Parser(s, Cursor(s, i, ps)), stops, name)
        == ValueFrom(Parser(s, Cursor(s, After(s, i, ps[0]), ps[1..])), stops, name)
  {
    var next := Cursor(s, After(s, i, ps[0]), ps[1..]);
    NextName(s, i, ps, next);
    if ps[0].name == name {
      FindHit(s, i, ps[0], stops);
    } else {
      FindMiss(s, i, ps[0], next, stops, name);
    }
  }

  /** The search for the name of a laid-out parameter stops there, with its text as the value. */
  lemma FindHit(s: string, i: nat, x: Param, stops: set<char>)
    requires stops == NameSeparators || stops == PresenceSeparators
    requires HeadAt(s, i, x)
    ensures NameStart(i, x) <= |s|
    ensures ValueFrom(Parser(s, NameStart(i, x)), stops, x.name) == Some(Unquote(x.text))
  {
    NameAt(s, i, x, stops);
    ValueAt(s, i, x);
    WalkStep(Parser(s, NameStart(i, x)), stops, x.name, x.name, Parser(s, NameEnd(i, x)));
  }

  /** The search for another name goes past a laid-out parameter to `next`. */
  lemma FindMiss(s: string, i: nat, x: Param, next: nat, stops: set<char>, name: string)
    requires stops == NameSeparators || stops == PresenceSeparators
    requires HeadAt(s, i, x) && x.name != name
    requires next == if ParamEnd(i, x) < |s| then SkipIn(s, ParamEnd(i, x) + 1, WSPCRLF) else |s|
    ensures NameStart(i, x) <= |s| && next <= |s|
    ensures ValueFrom(Parser(s, NameStart(i, x)), stops, name) == ValueFrom(Parser(s, next), stops, name)
  {
    NameAt(s, i, x, stops);
    NextAt(s, i, x, next);
    WalkStep(Parser(s, NameStart(i, x)), stops, name, x.name, Parser(s, NameEnd(i, x)));
  }

  /** On a laid-out list, the value found is the first same-named parameter's, unquoted. */
  lemma {:induction false} RenderedValue(s: string, i: nat, ps: seq<Param>, stops: set<char>, name: string)
    requires stops == NameSeparators || stops == PresenceSeparators
    requires LaidOut(s, i, ps)
    ensures Cursor(s, i, ps) <= |s|
    ensures ValueFrom(Parser(s, Cursor(s, i, ps)), stops, name) == FirstValue(ps, name)
    decreases |ps|
  {
    var j := After(s, i, ps[0]);
    FindHeadStep(s, i, ps, stops, name);
    if ps[0].name != name {
      if |ps| > 1 {
        RenderedValue(s, j, ps[1..], stops, name);
      } else {
        assert FindFrom(Parser(s, Cursor(s, j, ps[1..])), stops, name) == None;
      }
    }
  }

  /**
   * A header value written from well-formed parameters, each after
   * optional blanks and line breaks and with optional blanks around `=`:
   * `getParameters` gives the names in order, `getParameter` the unquoted
   * value of the first parameter with the name, and `hasParameter` holds
   * exactly for the listed names.
   */
  lemma WellFormedValue(ps: seq<Param>, name: string)
    requires ps != [] && WellFormedParams(ps)
    ensures ParameterNames(Join(ParamTexts(ps), ",")) == Names(ps)
    ensures ParameterValue(Join(ParamTexts(ps), ","), name) == FirstValue(ps, name)
    ensures HasParam(Join(ParamTexts(ps), ","), name) <==> name in Names(ps)
  {
    var v := Join(ParamTexts(ps), ",");
    assert v[0..] == v;
    JoinedLaidOut(v, 0, ps);
    LeadAt(v, 0, ps[0]);
    assert Start(v) == Parser(v, Cursor(v, 0, ps));
    RenderedNames(v, 0, ps, NameSeparators);
    RenderedNames(v, 0, ps, PresenceSeparators);
    RenderedValue(v, 0, ps, NameSeparators, name);
  }

  /**
   * A quoted value may hold a comma, and a blank may follow the separating
   * comma: `a="x,y", b=2` lists `a` and `b`, and the value of `a` is `x,y`.
   */
  lemma QuotedCommaValue(v: string)
    requires v == "a=\"x,y\", b=2"
    ensures ParameterNames(v) == ["a", "b"]
    ensures ParameterValue(v, "a") == Some("x,y")
  {
    var ps := QuotedCommaParams();
    WellFormedValue(ps, "a");
  }

  /** The parameters `a="x,y"` and ` b=2`, which written out give `a="x,y", b=2`. */
  lemma QuotedCommaParams() returns (ps: seq<Param>)
    ensures ps != [] && WellFormedParams(ps)
    ensures Join(ParamTexts(ps), ",") == "a=\"x,y\", b=2"
    ensures Names(ps) == ["a", "b"] && FirstValue(ps, "a") == Some("x,y")
  {
    var a := Param("", "a", "", "", "\"x,y\"");
    var b := Param(" ", "b", "", "", "2");
    ps := [a, b];
    QuotedCommaWellFormed(a, b);
    QuotedCommaJoined(a, b);
    assert FirstValue(ps, "a") == Some(Unquote(a.text));
    QuotedCommaUnquote(a.text);
  }

  /** Both parameters of `a="x,y", b=2` are well formed. */
  lemma QuotedCommaWellFormed(a: Param, b: Param)
    requires a == Param("", "a", "", "", "\"x,y\"") && b == Param(" ", "b", "", "", "2")
    ensures WellFormedParam(a) && WellFormedParam(b)
  {
    assert QuoteStateAfter(a.text, false) == Some(false);
  }

  /** Joined with a comma, they give `a="x,y", b=2`. */
  lemma QuotedCommaJoined(a: Param, b: Param)
    requires a == Param("", "a", "", "", "\"x,y\"") && b == Param(" ", "b", "", "", "2")
    ensures Join(ParamTexts([a, b]), ",") == "a=\"x,y\", b=2"
  {
    assert ParamTexts([a, b]) == [Wire(a), Wire(b)];
  }

  /** The quoted text `"x,y"` unquotes to `x,y`. */
  lemma QuotedCommaUnquote(t: string)
    requires t == "\"x,y\""
    ensures Unquote(t) == "x,y"
  {
    UnquoteQuoted("x,y", "");
    assert t == "\"" + "x,y" + "\"" + "";
  }

  /**
   * A parameter without `=` runs into the next one: in `nonce,qop=auth`
   * the only name read is `nonce,qop`, so `qop` is not found.
   */
  lemma NameWithoutEquals(v: string)
    requires v == "nonce,qop=auth"
    ensures ParameterNames(v) == ["nonce,qop"]
    ensures ParameterValue(v, "qop") == None
  {
    assert Start(v) == Parser(v, 0);
    ScanToRun(v, 0, 9, NameSeparators);
    assert v[9] == '=';
    assert ScanTo(v, 9, NameSeparators) == 9;
    assert Parser(v, 0).GetWord(NameSeparators) == (v[0..9], Parser(v, 9));
    assert v[0..9] == "nonce,qop";
    CommaFromRun(v, 9, 14, false);
    assert NextParameter(Parser(v, 9)) == Parser(v, 14);
    assert ParameterNames(v) == ["nonce,qop"];
  }

  class AuthenticationInfoHeader {
    /** The raw header value, re-scanned by every query. */
    var value: string

    constructor ()
      ensures value == ""
    {
      value := "";
    }

    constructor FromValue(hvalue: string)
      ensures value == hvalue
    {
      value := hvalue;
    }

    /** `hasParameter`: does some parameter carry exactly this name. */
    method HasParameter(paramName: string) returns (found: bool)
      ensures found == HasParam(value, paramName)
    {
      var nameSeparators := PresenceSeparators;
      var par := Parser(value, 0);
      par := par.SkipWSPCRLF();
      while par.HasMore()
        invariant par.Valid() && par.str == value
        invariant FindFrom(par, nameSeparators, paramName) == FindFrom(Start(value), nameSeparators, paramName)
        decreases |value| - par.index
      {
        var (name, after) := par.GetWord(nameSeparators);
        par := after;
        if name == paramName {
          return true;
        }
        par := par.GoToCommaHeaderSeparator().SkipChar().SkipWSPCRLF();
      }
      return false;
    }

    /** `getParameter`: the value of the first parameter with this name, quotes removed. */
    method GetParameter(paramName: string) returns (r: Option<string>)
      ensures r == ParameterValue(value, paramName)
    {
      var nameSeparators := NameSeparators;
      var par := Parser(value, 0);
      par := par.SkipWSPCRLF();
      while par.HasMore()
        invariant par.Valid() && par.str == value
        invariant FindFrom(par, nameSeparators, paramName) == FindFrom(Start(value), nameSeparators, paramName)
        decreases |value| - par.index
      {
        var (name, after) := par.GetWord(nameSeparators);
        par := after;
        if name == paramName {
          var text := ReadValue(par);
          return Some(text);
        } else {
          par := par.GoToCommaHeaderSeparator().SkipChar().SkipWSPCRLF();
        }
      }
      return None;
    }

    /** `getParameters`: every parameter name, left to right. */
    method GetParameters() returns (names: seq<string>)
      ensures names == ParameterNames(value)
    {
      var nameSeparators := NameSeparators;
      var par := Parser(value, 0);
      par := par.SkipWSPCRLF();
      names := [];
      while par.HasMore()
        invariant par.Valid() && par.str == value
        invariant names + NamesFrom(par, nameSeparators) == ParameterNames(value)
        decreases |value| - par.index
      {
        var (name, after) := par.GetWord(nameSeparators);
        WalkStep(par, nameSeparators, name, name, after);
        Shift(names, name, NamesFrom(NextParameter(after), nameSeparators));
        names := names + [name];
        par := after.GoToCommaHeaderSeparator().SkipChar().SkipWSPCRLF();
        assert par == NextParameter(after);
      }
    }

    /** `getAuthScheme`: this header carries no scheme. */
    function GetAuthScheme(): (scheme: Option<string>)
      ensures scheme == None
    {
      None
    }
  }
}

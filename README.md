# SIP/SDP field objects: parameter list, Authentication-Info header, connection address

This project models three classes of a Java SIP/SDP stack. It proves
properties of each model in Dafny.

- **`NameValueList`** is the generic parameter container. A map files each
  name/value record under its lower-cased name. The map's values are
  encoded with a configurable separator, `;` by default.
  `NameValues.NameValueList` is a class with the same two fields, `hmap` and
  `separator`. Each method states the new map through one of the
  specification functions on `map<string, NameValue>`: `Lookup`, `Assign`,
  `Erase` and `Store`. Those functions carry the properties that matter:
  - case-insensitive lookup;
  - the other keys are untouched;
  - the size grows by one exactly when the key was new, and drops by one exactly when it was present;
  - the *well-keyed* invariant is preserved: every record is filed under its own lower-cased name.
  
  The Java map is a `HashMap`, whose iteration order is unspecified. The
  walks in `encode`, `equals` and `clone` therefore pick the next key
  nondeterministically. `encode` and `clone` return the order they took as a
  ghost value, and their contracts are stated against that order.
- **`AuthenticationInfoHeader`** holds only the raw header value
  (RFC 3261, section 20.6). Every query re-scans that value with the
  header-value parser.
  - Module `SipScanner` gives the parser's primitives by the behaviour these
    callers rely on: skip blanks, read a word, go to a character, find the
    next comma outside double quotes, and unquote.
  - Module `AuthenticationInfo` states what `hasParameter`, `getParameter`
    and `getParameters` compute as recursive walks: `FindFrom`, `NamesFrom`
    and `ValueText`.
  - The class methods keep the source's `while` loops and are proved equal to those walks.
- **`ConnectionAddress`** is the address part of the SDP `c=` field
  (RFC 4566, section 5.7): a host, a ttl and a third number that the source
  calls `port`. `Encode` is proved to read back through an independent
  reader, `ParseConnectionAddress`, which splits on `/` and parses decimal
  integers:
  - the host and the ttl always come back;
  - the port comes back only when the ttl is non-zero.
  
  `Clone` is proved to produce a fresh copy whose host is a fresh object
  and whose encoding is unchanged.

The javadoc of `equals` (src/main/java/gov/nist/core/NameValueList.java:130-135)
says only "Compare if two NameValue lists are equal"; equal size and the
same record under every key is the evident intent. The code compares each
key of one list with the other list's record under that key, but looks the
key up lower-cased on its own side only. The model follows the code and
logs the difference under "## Findings".

The getters `ConnectionAddress.getAddress`, `getTtl` and `getPort` are the
functions `GetAddress`, `GetTtl` and `GetPort`. `hasNameValue` and
`containsKey` are the predicate `NameValueList.HasNameValue`. These members
only read a field, so they carry no contract of their own.

## Model

| member | source | states |
|---|---|---|
| NameValues.Lookup | src/main/java/gov/nist/core/NameValueList.java:181-183 | a record is found exactly when the lower-cased name is a key; in a well-keyed list the record found has the queried name up to case |
| NameValues.Assign | src/main/java/gov/nist/core/NameValueList.java:114-116 | after `set`, every spelling of the name that lower-cases alike finds the new record; every other key keeps its record; the size grows by one exactly when the name was new; the well-keyed invariant is kept |
| NameValues.Erase | src/main/java/gov/nist/core/NameValueList.java:204-213 | after removal, no spelling of the name finds a record; the other keys are untouched; the size drops by one exactly when the name was present; the well-keyed invariant is kept |
| NameValues.Store | src/main/java/gov/nist/core/NameValueList.java:328-330 | `put` files the record under the key exactly as given and leaves the other keys alone; the size grows by one exactly when the key was new; the list stays well-keyed if and only if that key is the record's lower-cased name, and keeps lower-case keys if and only if the key is lower-case |
| NameValues.SameEntriesIsEquality | src/main/java/gov/nist/core/NameValueList.java:136-157 | the intended comparison (same size, same record under each key) holds exactly when the two maps are equal |
| NameValues.EqualsAsWrittenOnLowerCaseKeys | src/main/java/gov/nist/core/NameValueList.java:146-153 | when all keys are lower-case, the source's comparison holds exactly when the two maps are equal |
| NameValues.EqualsAsWrittenReflexiveWhenWellKeyed | src/main/java/gov/nist/core/NameValueList.java:146-153 | a list filled only by `set` is equal to itself under the source's comparison |
| NameValues.EqualsAsWrittenNotReflexive | src/main/java/gov/nist/core/NameValueList.java:146-153 | a list holding a record under the key `Foo` (possible through `put`) is not equal to itself under the source's comparison |
| NameValues.Reinsert | src/main/java/gov/nist/core/NameValueList.java:215-222 | the map `clone` builds is well-keyed, holds only records of the original, and has no more entries than keys were walked |
| NameValues.ReinsertKeys | src/main/java/gov/nist/core/NameValueList.java:218-220 | the copy's keys are exactly the lower-cased names of the walked records |
| NameValues.ReinsertWellKeyed | src/main/java/gov/nist/core/NameValueList.java:215-222 | walking each key of a well-keyed map once copies it exactly |
| NameValues.NameValueList.constructor | src/main/java/gov/nist/core/NameValueList.java:53-56 | a new list is empty with separator `;` |
| NameValues.NameValueList.Synchronized | src/main/java/gov/nist/core/NameValueList.java:58-65 | the thread-safe variant also starts empty with separator `;` |
| NameValues.NameValueList.SetSeparator | src/main/java/gov/nist/core/NameValueList.java:67-69 | only the separator changes |
| NameValues.NameValueList.Set | src/main/java/gov/nist/core/NameValueList.java:114-116 | the map becomes `Assign` of the old map and the record; the separator is kept |
| NameValues.NameValueList.SetValue | src/main/java/gov/nist/core/NameValueList.java:124-127 | as `Set`, with a new record built from the name and the value |
| NameValues.NameValueList.GetNameValue | src/main/java/gov/nist/core/NameValueList.java:181-183 | the result is null exactly when there is no record under the lower-cased name; otherwise it is that record |
| NameValues.NameValueList.GetValue | src/main/java/gov/nist/core/NameValueList.java:165-172 | the result is null exactly when there is no record; otherwise it is that record's value |
| NameValues.NameValueList.GetParameter | src/main/java/gov/nist/core/NameValueList.java:263-273 | the result is null exactly when there is no record; otherwise it is the value's text |
| NameValues.NameValueList.Get | src/main/java/gov/nist/core/NameValueList.java:312-314 | the record under the lower-cased key, if there is one |
| NameValues.NameValueList.Delete | src/main/java/gov/nist/core/NameValueList.java:204-213 | reports whether a record was present; the map becomes `Erase` of the old one; afterwards the name is absent |
| NameValues.NameValueList.Remove | src/main/java/gov/nist/core/NameValueList.java:340-342 | returns the previous record under the lower-cased key; the map becomes `Erase` of the old one |
| NameValues.NameValueList.Put | src/main/java/gov/nist/core/NameValueList.java:328-330 | returns the previous record under the exact key; the map becomes `Store` of the old one |
| NameValues.NameValueList.Encode | src/main/java/gov/nist/core/NameValueList.java:77-102 | visits every key exactly once, in some order; the text is the records' encodings in that order, with one separator between each two neighbours |
| NameValues.NameValueList.Equals | src/main/java/gov/nist/core/NameValueList.java:136-157 | the loop's answer is the source's comparison `EqualsAsWritten` |
| NameValues.NameValueList.Clone | src/main/java/gov/nist/core/NameValueList.java:215-222 | the copy is a fresh object with the same separator; its map is the walked records set again; a well-keyed map is copied exactly |
| NameValues.NameValueList.Clear | src/main/java/gov/nist/core/NameValueList.java:280-282 | the map becomes empty and the separator is kept |
| NameValues.NameValueList.Size | src/main/java/gov/nist/core/NameValueList.java:227-229 | the size is 0 exactly when the map is empty |
| NameValues.NameValueList.IsEmpty | src/main/java/gov/nist/core/NameValueList.java:234-236 | empty exactly when the size is 0 |
| SipScanner.CommaFrom | src/main/java/org/zoolu/sip/header/AuthenticationInfoHeader.java:107 | the separating comma found lies outside double quotes, and every earlier comma lies inside them |
| SipScanner.Unquote | src/main/java/org/zoolu/sip/header/AuthenticationInfoHeader.java:111 | an unquoted or unterminated text comes back unchanged; a quoted text gives a quote-free text that was between its first two quotes |
| SipScanner.UnquoteQuoted | src/main/java/org/zoolu/sip/header/AuthenticationInfoHeader.java:111 | unquoting `"x"` followed by anything gives `x` when `x` holds no quote |
| SipScanner.Parser.GetWord | src/main/java/org/zoolu/sip/header/AuthenticationInfoHeader.java:86 | the word is the longest run from the cursor without a stop character, and the cursor ends on a stop character or at the end |
| SipScanner.Parser.SkipWSPCRLF | src/main/java/org/zoolu/sip/header/AuthenticationInfoHeader.java:84 | the cursor moves forward over blanks and line breaks only, and stops on the first character that is neither, or at the end |
| SipScanner.Parser.SkipChar | src/main/java/org/zoolu/sip/header/AuthenticationInfoHeader.java:90 | the cursor moves one character forward, or stays at the end |
| SipScanner.Parser.SkipWSP | src/main/java/org/zoolu/sip/header/AuthenticationInfoHeader.java:106 | the cursor moves forward over spaces and tabs only, and stops on the first character that is neither, or at the end |
| SipScanner.Parser.GoTo | src/main/java/org/zoolu/sip/header/AuthenticationInfoHeader.java:106 | the cursor moves to the first occurrence of the character at or after it, passing none, or to the end |
| SipScanner.Parser.IndexOfCommaHeaderSeparator | src/main/java/org/zoolu/sip/header/AuthenticationInfoHeader.java:107 | the position found holds a comma outside double quotes, and every comma before it is inside them; no position means no such comma is left |
| SipScanner.Parser.GetString | src/main/java/org/zoolu/sip/header/AuthenticationInfoHeader.java:109 | the text is the next `len` characters and the cursor lands just after them |
| SipScanner.Parser.GoToCommaHeaderSeparator | src/main/java/org/zoolu/sip/header/AuthenticationInfoHeader.java:90 | the cursor moves to the first comma outside double quotes, or to the end, passing only commas inside quotes |
| SipScanner.Parser.GetStringUnquoted | src/main/java/org/zoolu/sip/header/AuthenticationInfoHeader.java:111 | the rest of the text comes back unchanged unless it starts with a closed pair of double quotes; then the result is the quote-free text between them |
| AuthenticationInfo.Start | src/main/java/org/zoolu/sip/header/AuthenticationInfoHeader.java:82-84 | the walk starts on the first character that is neither a blank nor a line break, with only blanks and line breaks before it |
| AuthenticationInfo.NextParameter | src/main/java/org/zoolu/sip/header/AuthenticationInfoHeader.java:90 | the walk resumes past the next comma outside double quotes and the blanks and line breaks after it, on a character that is neither; without such a comma it ends |
| AuthenticationInfo.NamesFrom | src/main/java/org/zoolu/sip/header/AuthenticationInfoHeader.java:124-136 | no name holds a stop character; the list is empty exactly when there is nothing left to read |
| AuthenticationInfo.FindFrom | src/main/java/org/zoolu/sip/header/AuthenticationInfoHeader.java:85-91 | a hit leaves the cursor just after an occurrence of the name, on a stop character or at the end |
| AuthenticationInfo.FindFromFirst | src/main/java/org/zoolu/sip/header/AuthenticationInfoHeader.java:85-91 | the hit is the first listed name equal to the one sought: every name listed before it differs, and the walk of names goes on from the cursor it returns |
| AuthenticationInfo.FindFromListed | src/main/java/org/zoolu/sip/header/AuthenticationInfoHeader.java:98-136 | the search finds a name exactly when the walk of names lists it |
| AuthenticationInfo.ValueStart | src/main/java/org/zoolu/sip/header/AuthenticationInfoHeader.java:106 | the value starts after the first `=` at or after the cursor and the spaces and tabs that follow it; without an `=` it starts at the end |
| AuthenticationInfo.ValueText | src/main/java/org/zoolu/sip/header/AuthenticationInfoHeader.java:106-110 | the value is the slice from its start to the next separating comma or to the end, and it holds no separating comma |
| AuthenticationInfo.ParameterNames | src/main/java/org/zoolu/sip/header/AuthenticationInfoHeader.java:124-136 | there are no names exactly when the value is all blanks and line breaks |
| AuthenticationInfo.ParameterValue | src/main/java/org/zoolu/sip/header/AuthenticationInfoHeader.java:98-117 | `getParameter(n)` is non-null exactly when `n` is among the names `getParameters()` lists |
| AuthenticationInfo.HasParam | src/main/java/org/zoolu/sip/header/AuthenticationInfoHeader.java:80-93 | `hasParameter(n)` holds exactly when the walk that also ends names at line breaks lists `n` |
| SipScanner.CommaFromThrough | src/main/java/org/zoolu/sip/header/AuthenticationInfoHeader.java:107 | the search for a separating comma passes over a text that holds no comma outside quotes, ending in the quote state that text leaves |
| AuthenticationInfo.JoinedLaidOut | src/main/java/org/zoolu/sip/header/AuthenticationInfoHeader.java:90 | the comma-joined wire texts of well-formed parameters lay out each parameter in turn, piece by piece: each but the last is followed by a single comma, and the last ends the value |
| AuthenticationInfo.RenderedNames | src/main/java/org/zoolu/sip/header/AuthenticationInfoHeader.java:124-136 | from the first name of a laid-out list of well-formed parameters, the walk lists exactly their names in order, with either set of name separators |
| AuthenticationInfo.RenderedValue | src/main/java/org/zoolu/sip/header/AuthenticationInfoHeader.java:98-117 | from the first name of such a list, the value found for a name is the unquoted text of the first parameter with that name, and none when no parameter has it |
| AuthenticationInfo.WellFormedValue | src/main/java/org/zoolu/sip/header/AuthenticationInfoHeader.java:80-136 | for a header value written as `n1=v1,...,nk=vk` from well-formed parameters (blanks and line breaks allowed before each name, spaces and tabs around each `=`, commas allowed inside a quoted value), `getParameters()` is `n1`, ..., `nk` in order, `getParameter(n)` is the unquoted value of the first parameter named `n` (null if none), and `hasParameter(n)` holds exactly for the listed names |
| AuthenticationInfo.QuotedCommaValue | src/main/java/org/zoolu/sip/header/AuthenticationInfoHeader.java:98-136 | in `a="x,y", b=2`, the names listed are `a` and `b`, and `getParameter("a")` gives `x,y`: a comma inside quotes does not end the value, and a blank after the separating comma is skipped |
| AuthenticationInfo.NameWithoutEquals | src/main/java/org/zoolu/sip/header/AuthenticationInfoHeader.java:124-136 | a parameter without `=` merges with the next name: in `nonce,qop=auth` the only name is `nonce,qop`, and `getParameter("qop")` is null |
| AuthenticationInfo.FindWithoutLineBreaks | src/main/java/org/zoolu/sip/header/AuthenticationInfoHeader.java:80-104 | without CR or LF in the value, the two name-separator sets find the same parameter |
| AuthenticationInfo.HasParamIffValue | src/main/java/org/zoolu/sip/header/AuthenticationInfoHeader.java:80-117 | without CR or LF in the value, `hasParameter(n)` holds exactly when `getParameter(n)` is non-null |
| AuthenticationInfo.QuotedFirstParameter | src/main/java/org/zoolu/sip/header/AuthenticationInfoHeader.java:98-117 | for a leading `name="x"` followed by the end or a comma, `getParameter(name)` gives back `x`, and so does the corrected reader |
| AuthenticationInfo.GetParameterCrossesComma | src/main/java/org/zoolu/sip/header/AuthenticationInfoHeader.java:104-111 | in `nonce ,qop=auth`, the value of `nonce` is read as `auth`; the corrected reader gives the empty value |
| AuthenticationInfo.LineBreakAfterName | src/main/java/org/zoolu/sip/header/AuthenticationInfoHeader.java:80-117 | in `realm` CR LF ` =x`, `hasParameter("realm")` holds while `getParameter("realm")` is null; the corrected reader gives `x` |
| AuthenticationInfo.SegmentEnd | src/main/java/org/zoolu/sip/header/AuthenticationInfoHeader.java:90 | a parameter's segment ends at a comma outside quotes or at the end, and it holds no such comma |
| AuthenticationInfo.CorrectedValueText | src/main/java/org/zoolu/sip/header/AuthenticationInfoHeader.java:106-110 | the corrected value is a slice that ends at the parameter's own segment end; it is empty when the segment has no `=` |
| AuthenticationInfo.CorrectedAgreesWhenEqualsPresent | src/main/java/org/zoolu/sip/header/AuthenticationInfoHeader.java:106-110 | when the parameter's own segment holds an `=` and no double quote comes before its value, the corrected value text is the one the source reads; a quoted value is covered |
| AuthenticationInfo.CorrectedParameterNames | src/main/java/org/zoolu/sip/header/AuthenticationInfoHeader.java:124-136 | the corrected names hold none of the characters at which `hasParameter` ends a name |
| AuthenticationInfo.CorrectedQueriesAgree | src/main/java/org/zoolu/sip/header/AuthenticationInfoHeader.java:80-136 | with the corrected reading, on every value, a parameter is present exactly when it has a value and exactly when it is listed |
| AuthenticationInfo.ReadValue | src/main/java/org/zoolu/sip/header/AuthenticationInfoHeader.java:106-111 | the goTo / cut / new-parser / unquote steps give the unquoted `ValueText` |
| AuthenticationInfo.AuthenticationInfoHeader.constructor | src/main/java/org/zoolu/sip/header/AuthenticationInfoHeader.java:44-46 | a new header has the empty value |
| AuthenticationInfo.AuthenticationInfoHeader.FromValue | src/main/java/org/zoolu/sip/header/AuthenticationInfoHeader.java:53-55 | the header keeps the value it was given |
| AuthenticationInfo.AuthenticationInfoHeader.HasParameter | src/main/java/org/zoolu/sip/header/AuthenticationInfoHeader.java:80-93 | the loop answers whether the walk that ends names at `=`, blanks and line breaks meets the name |
| AuthenticationInfo.AuthenticationInfoHeader.GetParameter | src/main/java/org/zoolu/sip/header/AuthenticationInfoHeader.java:98-117 | the loop returns the unquoted value of the first parameter with that name, or null |
| AuthenticationInfo.AuthenticationInfoHeader.GetParameters | src/main/java/org/zoolu/sip/header/AuthenticationInfoHeader.java:124-136 | the loop returns exactly the names of the walk `ParameterNames`: for a well-formed value, every parameter name in order |
| AuthenticationInfo.AuthenticationInfoHeader.GetAuthScheme | src/main/java/org/zoolu/sip/header/AuthenticationInfoHeader.java:141-143 | this header never has a scheme |
| Decimal.IntToDecimal | src/main/java/javax/sdp/fields/ConnectionAddress.java:94-96 | the decimal form of an int is non-empty, holds no `/`, starts with `-` exactly for negative numbers, and is otherwise all digits with no leading zero (`0` alone for zero) |
| Decimal.IntDecimalRoundTrip | src/main/java/javax/sdp/fields/ConnectionAddress.java:94-96 | reading the decimal form of an int gives back that int |
| SdpConnection.EncodeFields | src/main/java/javax/sdp/fields/ConnectionAddress.java:90-97 | the encoding starts with the host text; it is the host text alone exactly when the ttl is 0, and otherwise a `/` follows the host |
| SdpConnection.EncodeFieldsRoundTrip | src/main/java/javax/sdp/fields/ConnectionAddress.java:87-99 | for a host without `/`, the encoding reads back to the host and the ttl, and to the port when the ttl is non-zero (0 otherwise); it has one piece when the ttl is 0, two when only the port is 0, and three otherwise |
| SdpConnection.ConnectionAddress.constructor | src/main/java/javax/sdp/fields/ConnectionAddress.java:38-41 | a new connection address has no host, ttl 0 and port 0 |
| SdpConnection.ConnectionAddress.SetAddress | src/main/java/javax/sdp/fields/ConnectionAddress.java:60-62 | only the host changes |
| SdpConnection.ConnectionAddress.SetTtl | src/main/java/javax/sdp/fields/ConnectionAddress.java:69-71 | only the ttl changes |
| SdpConnection.ConnectionAddress.SetPort | src/main/java/javax/sdp/fields/ConnectionAddress.java:78-80 | only the port changes |
| SdpConnection.ConnectionAddress.Encode | src/main/java/javax/sdp/fields/ConnectionAddress.java:87-99 | the wire form starts with the host's text; for a host text without `/`, it reads back to host and ttl, to the port exactly when the ttl is non-zero, and has one, two or three `/`-separated pieces as the ttl and port require |
| SdpConnection.ConnectionAddress.Clone | src/main/java/javax/sdp/fields/ConnectionAddress.java:101-107 | a fresh object with the same ttl and port; its host is null exactly when the original's is, and otherwise a fresh copy with the same text; the encoding is unchanged |

## Left out

- Java's `String.toLowerCase` is modelled for ASCII letters only; locale rules and non-ASCII case mappings are not modelled.
- The thread-safe map that `NameValueList(true)` selects is the same map here; concurrency is not modelled.
- Record values are opaque strings. A value's own `encode` (`GenericObject.encode` or `toString`) is the parameter `entryText` of `NameValueList.Encode`. Null values and flag parameters are not modelled.
- `NameValueList.Equals`: the check that the other object has the same class is not modelled, because the argument is already a `NameValueList`.
- `NameValueList.Clone`: the per-record `clone()` is not modelled separately, because records are immutable values here.
- `NameValueList.iterator`, `getNames`, `entrySet`, `keySet`, `values`, `containsValue`, `putAll`, `toString` and the `encode(StringBuffer)` overload are not modelled. They hand out the Java map or its views, or only delegate.
- HashMap iteration order is not modelled as a fixed order: each walk chooses the next key arbitrarily.
- The parser class of the SIP stack is not part of this model. Its primitives are assumed from how the header uses them:
  - `indexOfCommaHeaderSeparator` toggles the quote state at each double quote, starting outside quotes at the cursor;
  - `getStringUnquoted` strips one pair of enclosing quotes and otherwise returns the rest unchanged.
- The `AuthenticationInfoHeader(Header)` and `AuthenticationInfoHeader(List)` constructors are not modelled. The header-name constants and the `AuthenticationHeader` superclass are not part of this model.
- The `Host` class is not part of this model: a host is an opaque text whose encoding is that text and whose clone copies it.
- `ConnectionAddress.Clone`: `SDPObject.clone` is taken to be a field-by-field copy.
- `SdpConnection.EncodeFieldsRoundTrip` states nothing for a host text containing `/`, because such a text cannot be read back.
- `ProxyAuthenticateHeader` and `URI` are context only and are not modelled.

## Findings

| source | as written | input that shows it | evidently intended | confidence | as-written member | corrected member |
|---|---|---|---|---|---|---|
| src/main/java/gov/nist/core/NameValueList.java:146-153 | `equals` looks up each key of this list lower-cased on this side, but exactly as given in the other list | a list after `put("Foo", nv)` is not equal to itself | equal size and the same record under every key | not executed; follows directly from the code | NameValues.EqualsAsWrittenNotReflexive | NameValues.SameEntriesIsEquality |
| src/main/java/org/zoolu/sip/header/AuthenticationInfoHeader.java:106 | after a matching name, `goTo('=')` searches the whole rest of the value, past the parameter's own comma | `nonce ,qop=auth`: `getParameter("nonce")` returns `auth` | a parameter without `=` has no value of its own; the value is never taken from the next parameter | not executed; medium | AuthenticationInfo.GetParameterCrossesComma | AuthenticationInfo.CorrectedValueText |
| src/main/java/org/zoolu/sip/header/AuthenticationInfoHeader.java:81-99 | `hasParameter` ends names at CR and LF, but `getParameter` does not | `realm` CR LF ` =x`: `hasParameter("realm")` is true and `getParameter("realm")` is null | both end names at the same characters, so a present parameter has a value | not executed; low (needs a folded value that still holds its line break) | AuthenticationInfo.LineBreakAfterName | AuthenticationInfo.CorrectedQueriesAgree |

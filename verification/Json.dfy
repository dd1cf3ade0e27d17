/** The small part of JSON that a scan filter is written in, with a printer and a reference parser. */
module Json {
  import opened Wrappers

  datatype Json = Object(members: Members) | String(text: string) | Number(token: string) | Boolean(truth: bool)
  datatype Members = End | Member(key: string, value: Json, rest: Members)

  // ---- Printing ----

  function EscapeChar(c: char): (r: string) {
    if c == '"' then "\\\""
    else if c == '\\' then "\\\\"
    else if c == '\n' then "\\n"
    else if c == '\r' then "\\r"
    else if c == '\t' then "\\t"
    else [c]
  }

  function Escape(s: string): (r: string) {
    if s == "" then "" else EscapeChar(s[0]) + Escape(s[1..])
  }

  function Quote(s: string): (r: string) {
    "\"" + Escape(s) + "\""
  }

  lemma {:induction false} EscapeSnoc(s: string, c: char)
    ensures Escape(s + [c]) == Escape(s) + EscapeChar(c)
  {
    if s == "" {
      assert Escape([c]) == EscapeChar(c) + Escape([c][1..]);
    } else {
      assert (s + [c])[0] == s[0] && (s + [c])[1..] == s[1..] + [c];
      EscapeSnoc(s[1..], c);
    }
  }

  function PrintJson(j: Json): (r: string) {
    match j
    case Object(members) => "{" + PrintMembers(members) + "}"
    case String(text) => Quote(text)
    case Number(token) => token
    case Boolean(truth) => if truth then "true" else "false"
  }

  function PrintMembers(m: Members): (r: string) {
    match m
    case End => ""
    case Member(key, value, rest) =>
      Quote(key) + ":" + PrintJson(value) + (if rest.End? then "" else "," + PrintMembers(rest))
  }

  // ---- Parsing ----

  predicate NumberChar(c: char) {
    '0' <= c <= '9' || c == '-' || c == '+' || c == '.' || c == 'e' || c == 'E'
  }

  predicate NumberToken(s: string) {
    s != "" && forall i :: 0 <= i < |s| ==> NumberChar(s[i])
  }

  /** Section 7 of RFC 8259 requires control characters to be escaped; a strict parser insists. */
  predicate Raw(c: char, strict: bool) {
    c != '"' && c != '\\' && (strict ==> c >= ' ')
  }

  /** What the letter after a backslash stands for; nothing, for a letter that is not an escape. */
  function Unescape(e: char): (r: string) {
    if e == '"' then ['"'] else if e == '\\' then ['\\']
    else if e == 'n' then ['\n'] else if e == 'r' then ['\r'] else if e == 't' then ['\t'] else ""
  }

  /** The reader takes these escapes as section 7 of RFC 8259 does. */
  lemma EscapesRead(rest: string, strict: bool)
    ensures ParseString(['"', '\\', 'n', '"'] + rest, strict) == Some((['\n'], rest))
    ensures ParseString(['"', '\\', 't', '"'] + rest, strict) == Some((['\t'], rest))
    ensures ParseString(['"', '\\', 'r', '"'] + rest, strict) == Some((['\r'], rest))
    ensures ParseString(['"', '\\', '"', '"'] + rest, strict) == Some((['"'], rest))
    ensures ParseString(['"', '\\', '\\', '"'] + rest, strict) == Some((['\\'], rest))
  {
    hide ParseString;
    OneEscape('n', rest, strict);
    OneEscape('t', rest, strict);
    OneEscape('r', rest, strict);
    OneEscape('"', rest, strict);
    OneEscape('\\', rest, strict);
  }

  lemma OneEscape(e: char, rest: string, strict: bool)
    requires Unescape(e) != ""
    ensures ParseString(['"', '\\', e, '"'] + rest, strict) == Some((Unescape(e), rest))
  {
    hide Unescape, ParseContent;
    var s := ['"', '\\', e, '"'] + rest;
    CloseReadsBack(rest, strict);
    assert s[1..] == ['\\', e] + ("\"" + rest);
    EscapedStep(e, "\"" + rest, strict);
    assert Unescape(e) + "" == Unescape(e);
  }

  /** The content of a string after its opening quote, and what follows the closing one. */
  function ParseContent(s: string, strict: bool): (r: Option<(string, string)>)
    ensures r.Some? ==> |r.value.1| < |s|
    decreases |s|
  {
    if s == "" then None
    else if s[0] == '"' then Some(("", s[1..]))
    else if s[0] == '\\' then
      if |s| < 2 then None
      else
        var c := Unescape(s[1]);
        var rest := ParseContent(s[2..], strict);
        if c == "" || rest.None? then None else Some((c + rest.value.0, rest.value.1))
    else if !Raw(s[0], strict) then None
    else
      var rest := ParseContent(s[1..], strict);
      if rest.None? then None else Some(([s[0]] + rest.value.0, rest.value.1))
  }

  function ParseString(s: string, strict: bool): (r: Option<(string, string)>)
    ensures r.Some? ==> |r.value.1| < |s|
  {
    if s == "" || s[0] != '"' then None else ParseContent(s[1..], strict)
  }

  /** How many leading characters may belong to a number. */
  function NumberLength(s: string): (r: nat)
    ensures r <= |s|
  {
    if s == "" || !NumberChar(s[0]) then 0 else 1 + NumberLength(s[1..])
  }

  function ParseJson(s: string, strict: bool): (r: Option<(Json, string)>)
    ensures r.Some? ==> |r.value.1| < |s|
    decreases |s|, 1
  {
    if s == "" then None
    else if s[0] == '{' then
      if |s| > 1 && s[1] == '}' then Some((Object(End), s[2..]))
      else
        var members := ParseMembers(s[1..], strict);
        if members.None? || members.value.1 == "" || members.value.1[0] != '}' then None
        else Some((Object(members.value.0), members.value.1[1..]))
    else if s[0] == '"' then
      var text := ParseString(s, strict);
      if text.None? then None else Some((String(text.value.0), text.value.1))
    else if "true" <= s then Some((Boolean(true), s[4..]))
    else if "false" <= s then Some((Boolean(false), s[5..]))
    else
      var n := NumberLength(s);
      if n == 0 then None else Some((Number(s[..n]), s[n..]))
  }

  function ParseMembers(s: string, strict: bool): (r: Option<(Members, string)>)
    ensures r.Some? ==> |r.value.1| < |s|
    decreases |s|, 0
  {
    var key := ParseString(s, strict);
    if key.None? || key.value.1 == "" || key.value.1[0] != ':' then None
    else
      var value := ParseJson(key.value.1[1..], strict);
      if value.None? then None
      else if value.value.1 != "" && value.value.1[0] == ',' then
        var rest := ParseMembers(value.value.1[1..], strict);
        if rest.None? then None else Some((Member(key.value.0, value.value.0, rest.value.0), rest.value.1))
      else Some((Member(key.value.0, value.value.0, End), value.value.1))
  }

  // ---- Parsing what was printed ----

  /** No control character other than the three that are escaped. */
  predicate Clean(s: string) {
    forall i :: 0 <= i < |s| ==> CleanChar(s[i])
  }

  predicate CleanJson(j: Json) {
    match j
    case Object(members) => CleanMembers(members)
    case String(text) => Clean(text)
    case Number(_) => true
    case Boolean(_) => true
  }

  predicate CleanMembers(m: Members) {
    m.Member? ==> Clean(m.key) && CleanJson(m.value) && CleanMembers(m.rest)
  }

  /** Number leaves are number tokens. */
  predicate Printable(j: Json) {
    match j
    case Object(members) => PrintableMembers(members)
    case String(_) => true
    case Number(token) => NumberToken(token)
    case Boolean(_) => true
  }

  predicate PrintableMembers(m: Members) {
    m.Member? ==> Printable(m.value) && PrintableMembers(m.rest)
  }

  lemma CloseReadsBack(rest: string, strict: bool)
    ensures ParseContent("\"" + rest, strict) == Some(("", rest))
  {
    assert ("\"" + rest)[1..] == rest;
  }

  predicate CleanChar(c: char) {
    c >= ' ' || c == '\n' || c == '\r' || c == '\t'
  }

  lemma RawStep(c: char, tail: string, strict: bool)
    requires c != '"' && c != '\\'
    ensures var more := ParseContent(tail, strict);
      ParseContent([c] + tail, strict) ==
      if more.None? || (strict && c < ' ') then None else Some(([c] + more.value.0, more.value.1))
  {
    assert ([c] + tail)[1..] == tail;
  }

  lemma EscapedStep(e: char, tail: string, strict: bool)
    ensures var more := ParseContent(tail, strict);
      ParseContent(['\\', e] + tail, strict) ==
      if more.None? || Unescape(e) == "" then None else Some((Unescape(e) + more.value.0, more.value.1))
  {
    hide Unescape;
    assert (['\\', e] + tail)[2..] == tail;
  }

  lemma EscapeForm(c: char)
    ensures EscapeChar(c) == [c] ==> c != '"' && c != '\\' && (CleanChar(c) <==> c >= ' ')
    ensures EscapeChar(c) != [c] ==>
      CleanChar(c) && |EscapeChar(c)| == 2 && EscapeChar(c) == ['\\', EscapeChar(c)[1]]
      && Unescape(EscapeChar(c)[1]) == [c]
  {
  }

  /** One escaped character, then whatever the rest parses to. */
  lemma CharReadsBack(c: char, tail: string, strict: bool)
    ensures var more := ParseContent(tail, strict);
      ParseContent(EscapeChar(c) + tail, strict) ==
      if more.None? || (strict && !CleanChar(c)) then None else Some(([c] + more.value.0, more.value.1))
  {
    hide ParseContent, EscapeChar, CleanChar, Unescape;
    EscapeForm(c);
    if EscapeChar(c) == [c] {
      RawStep(c, tail, strict);
    } else {
      EscapedStep(EscapeChar(c)[1], tail, strict);
    }
  }

  lemma {:induction false} EscapeReadsBack(s: string, rest: string, strict: bool)
    ensures ParseContent(Escape(s) + "\"" + rest, strict) ==
            if !strict || Clean(s) then Some((s, rest)) else None
  {
    hide ParseContent, EscapeChar;
    if s == "" {
      CloseReadsBack(rest, strict);
      assert Escape(s) + "\"" + rest == "\"" + rest;
    } else {
      var tail := Escape(s[1..]) + "\"" + rest;
      EscapeReadsBack(s[1..], rest, strict);
      CharReadsBack(s[0], tail, strict);
      assert Escape(s) + "\"" + rest == EscapeChar(s[0]) + tail;
      assert s == [s[0]] + s[1..];
      CleanConcat([s[0]], s[1..]);
      assert Clean([s[0]]) <==> CleanChar([s[0]][0]);
    }
  }

  lemma CleanConcat(a: string, b: string)
    ensures Clean(a + b) <==> Clean(a) && Clean(b)
  {
    if Clean(a + b) {
      forall i | 0 <= i < |a| ensures a[i] == (a + b)[i] {
      }
      forall i | 0 <= i < |b| ensures b[i] == (a + b)[|a| + i] {
      }
    }
  }

  lemma QuoteReadsBack(s: string, rest: string, strict: bool)
    ensures ParseString(Quote(s) + rest, strict) == if !strict || Clean(s) then Some((s, rest)) else None
  {
    hide Escape, ParseContent, Clean;
    EscapeReadsBack(s, rest, strict);
    assert (Quote(s) + rest)[1..] == Escape(s) + "\"" + rest;
  }

  lemma {:induction false} NumberReadsBack(token: string, rest: string)
    requires forall i :: 0 <= i < |token| ==> NumberChar(token[i])
    requires rest == "" || !NumberChar(rest[0])
    ensures NumberLength(token + rest) == |token|
  {
    if token == "" {
      assert token + rest == rest;
    } else {
      assert (token + rest)[1..] == token[1..] + rest;
      NumberReadsBack(token[1..], rest);
    }
  }

  /** What may follow a value inside an object, or nothing. */
  predicate Stops(rest: string) {
    rest == "" || !NumberChar(rest[0])
  }

  /** How an object's text is taken apart. */
  lemma ObjectStep(inner: string, strict: bool)
    requires inner != "" && inner[0] != '}'
    ensures var members := ParseMembers(inner, strict);
      ParseJson("{" + inner, strict) ==
      if members.None? || members.value.1 == "" || members.value.1[0] != '}' then None
      else Some((Object(members.value.0), members.value.1[1..]))
  {
    hide ParseMembers;
    assert ("{" + inner)[1..] == inner;
  }

  lemma EmptyObjectStep(rest: string, strict: bool)
    ensures ParseJson("{" + "}" + rest, strict) == Some((Object(End), rest))
  {
    var s := "{" + "}" + rest;
    assert s[0] == '{' && s[1] == '}' && s[2..] == rest;
  }

  /** How any other text is taken apart. */
  lemma LeafStep(s: string, strict: bool)
    requires s != "" && s[0] != '{'
    ensures s[0] == '"' ==> var text := ParseString(s, strict);
      ParseJson(s, strict) == if text.None? then None else Some((String(text.value.0), text.value.1))
    ensures "true" <= s ==> ParseJson(s, strict) == Some((Boolean(true), s[4..]))
    ensures "false" <= s ==> ParseJson(s, strict) == Some((Boolean(false), s[5..]))
    ensures s[0] != '"' && !("true" <= s) && !("false" <= s) && NumberLength(s) > 0 ==>
      ParseJson(s, strict) == Some((Number(s[..NumberLength(s)]), s[NumberLength(s)..]))
  {
    hide ParseString, NumberLength;
  }

  lemma {:induction false} PrintReadsBack(j: Json, rest: string, strict: bool)
    requires Printable(j) && Stops(rest)
    ensures ParseJson(PrintJson(j) + rest, strict) == if !strict || CleanJson(j) then Some((j, rest)) else None
    decreases j, 1
  {
    hide Quote, ParseString, Clean, Stops, NumberLength, ParseJson, NumberToken;
    var s := PrintJson(j) + rest;
    match j
    case Object(members) =>
      if members.End? {
        EmptyObjectStep(rest, strict);
        assert s == "{" + "}" + rest;
      } else {
        var after := "}" + rest;
        var inner := PrintMembers(members) + after;
        assert s == "{" + inner;
        MembersReadBack(members, after, strict);
        MembersStart(members, after);
        ObjectStep(inner, strict);
        assert after[1..] == rest;
      }
    case String(text) =>
      QuoteStarts(text);
      assert s[0] == Quote(text)[0];
      QuoteReadsBack(text, rest, strict);
      LeafStep(s, strict);
    case Number(token) =>
      NumberFirst(token, rest);
      LeafStep(s, strict);
      assert s[..|token|] == token && s[|token|..] == rest;
    case Boolean(truth) =>
      if truth {
        assert "true" <= s && s[4..] == rest;
      } else {
        assert "false" <= s && s[5..] == rest;
      }
      assert s[0] != '{';
      LeafStep(s, strict);
  }

  lemma MembersStart(m: Members, rest: string)
    requires m.Member?
    ensures var s := PrintMembers(m) + rest; s != "" && s[0] == '"'
  {
    hide Escape, PrintJson;
  }

  lemma NumberFirst(token: string, rest: string)
    requires NumberToken(token) && Stops(rest)
    ensures var s := token + rest;
      NumberLength(s) == |token| > 0 && s[0] != '{' && s[0] != '"' && !("true" <= s) && !("false" <= s)
  {
    NumberReadsBack(token, rest);
    assert (token + rest)[0] == token[0];
  }

  lemma QuoteStarts(s: string)
    ensures Quote(s) != "" && Quote(s)[0] == '"'
  {
  }

  /** How a member's text is taken apart. */
  lemma MemberStep(key: string, valueText: string, value: Json, after: string, strict: bool)
    requires ParseJson(valueText + after, strict) == Some((value, after)) || ParseJson(valueText + after, strict).None?
    ensures var parsed := ParseMembers(Quote(key) + (":" + (valueText + after)), strict);
      if (strict && !Clean(key)) || ParseJson(valueText + after, strict).None? then parsed.None?
      else if after != "" && after[0] == ',' then
        var more := ParseMembers(after[1..], strict);
        parsed == if more.None? then None else Some((Member(key, value, more.value.0), more.value.1))
      else parsed == Some((Member(key, value, End), after))
  {
    hide Quote, ParseString, Clean, ParseJson;
    QuoteReadsBack(key, ":" + (valueText + after), strict);
    assert (":" + (valueText + after))[1..] == valueText + after;
  }

  lemma {:induction false} MembersReadBack(m: Members, rest: string, strict: bool)
    requires m.Member? && PrintableMembers(m) && rest != "" && rest[0] == '}'
    ensures ParseMembers(PrintMembers(m) + rest, strict) ==
            if !strict || CleanMembers(m) then Some((m, rest)) else None
    decreases m, 0
  {
    hide Quote, ParseString, Clean, PrintJson, ParseMembers, ParseJson, CleanJson, Printable, PrintMembers;
    var value := PrintJson(m.value);
    if m.rest.End? {
      assert "" + rest == rest;
      MemberText(m, "", rest);
      PrintReadsBack(m.value, rest, strict);
      MemberStep(m.key, value, m.value, rest, strict);
    } else {
      var tail := PrintMembers(m.rest) + rest;
      var after := "," + PrintMembers(m.rest) + rest;
      assert after == "," + tail && after[0] == ',' && after[1..] == tail;
      MemberText(m, "," + PrintMembers(m.rest), rest);
      PrintReadsBack(m.value, after, strict);
      MemberStep(m.key, value, m.value, after, strict);
      MembersReadBack(m.rest, rest, strict);
    }
  }

  lemma MemberText(m: Members, more: string, rest: string)
    requires m.Member? && more == if m.rest.End? then "" else "," + PrintMembers(m.rest)
    ensures PrintMembers(m) + rest == Quote(m.key) + (":" + (PrintJson(m.value) + (more + rest)))
  {
    hide Quote, PrintJson;
    Reassociate(Quote(m.key), PrintJson(m.value), more, rest);
  }

  lemma Reassociate(a: string, b: string, c: string, d: string)
    ensures (a + ":" + b + c) + d == a + (":" + (b + (c + d)))
  {
  }
}

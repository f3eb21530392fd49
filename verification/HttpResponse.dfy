/** The HTTP response printer and parser of internal/relay/proxy.go, as used on the tunnel. */
module HttpResponse {
  import opened Bytes
  import opened Text

  const CR: byte := 13
  const LF: byte := 10
  const SPACE: byte := 32
  const COLON: byte := 58
  const DASH: byte := 45
  const CRLF: bytes := [13, 10]
  const COLON_SPACE: bytes := [58, 32]
  /** "HTTP/1.1 ", the fixed start of every printed status line. */
  const PREFIX: bytes := [72, 84, 84, 80, 47, 49, 46, 49, 32]

  type Pair = (bytes, bytes)

  // ---- Printing ----

  function StatusText(status: int, reason: bytes): bytes { PREFIX + Decimal(status) + [SPACE] + reason + [CR] }

  function StatusLine(status: int, reason: bytes): bytes { StatusText(status, reason) + [LF] }

  function HeaderText(h: Pair): bytes { h.0 + COLON_SPACE + h.1 + [CR] }

  function HeaderLine(h: Pair): bytes { HeaderText(h) + [LF] }

  function HeaderLines(hs: seq<Pair>): bytes {
    if hs == [] then [] else HeaderLine(hs[0]) + HeaderLines(hs[1..])
  }

  /** `reason` is the standard phrase for the status, looked up by `http.StatusText`. */
  function Serialize(status: int, reason: bytes, hs: seq<Pair>, body: bytes): bytes {
    StatusLine(status, reason) + (HeaderLines(hs) + (CRLF + body))
  }

  /** An `http.Header` in the order its iteration visits it: each key with its values. */
  type Header = seq<(bytes, seq<bytes>)>

  function Flatten(h: Header): seq<Pair> {
    if h == [] then [] else Flatten(h[..|h| - 1]) + Values(h[|h| - 1].0, h[|h| - 1].1)
  }

  function Values(key: bytes, vals: seq<bytes>): seq<Pair> {
    seq(|vals|, i requires 0 <= i < |vals| => (key, vals[i]))
  }

  lemma FlattenStep(h: Header, i: nat)
    requires i < |h|
    ensures Flatten(h[..i + 1]) == Flatten(h[..i]) + Values(h[i].0, h[i].1)
  {
    assert h[..i + 1][..i] == h[..i];
  }

  lemma {:induction false} HeaderLinesConcat(a: seq<Pair>, b: seq<Pair>)
    ensures HeaderLines(a + b) == HeaderLines(a) + HeaderLines(b)
  {
    if a == [] {
      assert a + b == b;
    } else {
      HeaderLinesConcat(a[1..], b);
      assert (a + b)[1..] == a[1..] + b;
      Assoc(HeaderLine(a[0]), HeaderLines(a[1..]), HeaderLines(b));
    }
  }

  /** The inner loop: one line per value of a key. */
  method PrintValues(key: bytes, vals: seq<bytes>) returns (lines: bytes)
    ensures lines == HeaderLines(Values(key, vals))
  {
    lines := [];
    ghost var all := Values(key, vals);
    for j := 0 to |vals|
      invariant lines == HeaderLines(all[..j])
    {
      lines := lines + HeaderLine((key, vals[j]));
      HeaderLinesConcat(all[..j], [all[j]]);
      assert HeaderLines([all[j]]) == HeaderLine(all[j]) + HeaderLines([]);
      assert all[..j + 1] == all[..j] + [all[j]];
    }
    assert all[..|vals|] == all;
  }

  method SerializeHTTPResponse(status: int, reason: bytes, h: Header, body: bytes) returns (out: bytes)
    ensures out == Serialize(status, reason, Flatten(h), body)
  {
    var first := StatusLine(status, reason);
    var lines := [];
    for i := 0 to |h|
      invariant lines == HeaderLines(Flatten(h[..i]))
    {
      var printed := PrintValues(h[i].0, h[i].1);
      FlattenStep(h, i);
      HeaderLinesConcat(Flatten(h[..i]), Values(h[i].0, h[i].1));
      lines := lines + printed;
    }
    assert h[..|h|] == h;
    out := first + (lines + (CRLF + body));
  }

  // ---- Parsing ----

  datatype Line = EndOfInput | Line(text: bytes, rest: bytes)

  /** `reader.ReadString('\n')` with the newline dropped. */
  function ReadLine(s: bytes): (l: Line)
    ensures l.Line? ==> |l.rest| < |s| && s == l.text + [LF] + l.rest && LF !in l.text
    ensures l.EndOfInput? <==> LF !in s
  {
    var k := FirstFrom(s, LF, 0);
    if k == |s| then EndOfInput else Line(s[..k], s[k + 1..])
  }

  /** `strconv.Atoi` on a short string. */
  function Atoi(s: bytes): Option<int> {
    var signed := s != [] && (s[0] == 43 || s[0] == 45);
    var d := if signed then s[1..] else s;
    if d == [] || !AllDigits(d) then None
    else
      var v: int := Value(d);
      Some(if signed && s[0] == 45 then -v else v)
  }

  /** The status the deserializer takes from the status line (given without its newline). */
  function ReadStatus(line: bytes): int {
    if |line| >= 12 && line[..5] == PREFIX[..5] && Atoi(line[9..12]).Some? then Atoi(line[9..12]).value else 200
  }

  predicate TokenByte(b: byte) {
    || 48 <= b <= 57 || 65 <= b <= 90 || 97 <= b <= 122
    || b == 33 || 35 <= b <= 39 || b == 42 || b == 43 || b == 45 || b == 46 || 94 <= b <= 96 || b == 124 || b == 126
  }

  function TitleCase(s: bytes, upper: bool): (t: bytes)
    ensures |t| == |s|
  {
    if s == [] then []
    else
      var c: byte := if upper && 97 <= s[0] <= 122 then s[0] - 32
                     else if !upper && 65 <= s[0] <= 90 then s[0] + 32 else s[0];
      [c] + TitleCase(s[1..], c == DASH)
  }

  /** `CanonicalMIMEHeaderKey`: title case, or unchanged when some byte cannot be in a header name. */
  function Canonical(key: bytes): bytes {
    if forall i | 0 <= i < |key| :: TokenByte(key[i]) then TitleCase(key, true) else key
  }

  /** The key and value of a header line (given without its newline), if it has a key. */
  function ParseLine(line: bytes): Option<Pair> {
    var l := if |line| > 1 && line[|line| - 1] == CR then line[..|line| - 1] else line;
    var k := FirstFrom(l, COLON, 0);
    if k == |l| || k == 0 then None
    else
      var val := l[k + 1..];
      Some((l[..k], if val != [] && val[0] == SPACE then val[1..] else val))
  }

  datatype Parsed = Malformed | Response(status: int, headers: map<bytes, bytes>, body: bytes)

  function ParseHeaders(s: bytes, status: int, acc: map<bytes, bytes>): Parsed
    decreases |s|
  {
    match ReadLine(s)
    case EndOfInput => Malformed
    case Line(text, rest) =>
      if text == [CR] || text == [] then Response(status, acc, rest)
      else
        var h := ParseLine(text);
        ParseHeaders(rest, status, if h.Some? then acc[Canonical(h.value.0) := h.value.1] else acc)
  }

  function Deserialize(payload: bytes): Parsed {
    match ReadLine(payload)
    case EndOfInput => Malformed
    case Line(text, rest) => ParseHeaders(rest, ReadStatus(text), map[])
  }

  method DeserializeHTTPResponse(payload: bytes) returns (r: Parsed)
    ensures r == Deserialize(payload)
  {
    var first := ReadLine(payload);
    if first.EndOfInput? {
      return Malformed;
    }
    var status := ReadStatus(first.text);
    var headers: map<bytes, bytes>, rest := map[], first.rest;
    ghost var answer := ParseHeaders(rest, status, headers);
    while true
      invariant ParseHeaders(rest, status, headers) == answer
      decreases |rest|
    {
      var l := ReadLine(rest);
      if l.EndOfInput? {
        return Malformed;
      }
      rest := l.rest;
      if l.text == [CR] || l.text == [] {
        return Response(status, headers, rest);
      }
      var h := ParseLine(l.text);
      if h.Some? {
        headers := headers[Canonical(h.value.0) := h.value.1];
      }
    }
  }

  /** `parseResponseStatusCode`, which the traffic log uses. */
  function LoggedStatus(payload: bytes): int {
    if |payload| < 12 || payload[..5] != PREFIX[..5] then 0
    else
      var space := FirstFrom(payload, SPACE, 5);
      if space == |payload| || space + 4 > |payload| then 0
      else
        var code := Atoi(payload[space + 1..space + 4]);
        if code.Some? then code.value else 0
  }

  method ParseResponseStatusCode(payload: bytes) returns (code: int)
    ensures code == LoggedStatus(payload)
  {
    if |payload| < 12 || payload[..5] != PREFIX[..5] {
      return 0;
    }
    var spaceIdx, i := -1, 5;
    while i < |payload|
      invariant 5 <= i <= |payload| && spaceIdx == -1
      invariant FirstFrom(payload, SPACE, i) == FirstFrom(payload, SPACE, 5)
    {
      if payload[i] == SPACE {
        spaceIdx := i;
        break;
      }
      i := i + 1;
    }
    if spaceIdx < 0 || spaceIdx + 4 > |payload| {
      return 0;
    }
    var parsed := Atoi(payload[spaceIdx + 1..spaceIdx + 4]);
    return if parsed.Some? then parsed.value else 0;
  }

  // ---- Round trip ----

  /** Headers that survive the line format: a name without colon or newline, a value without newline. */
  predicate Printable(h: Pair) { h.0 != [] && COLON !in h.0 && LF !in h.0 && LF !in h.1 }

  /** `headers.Set` for each pair in turn: the last value of a name wins. */
  function SetAll(acc: map<bytes, bytes>, hs: seq<Pair>): map<bytes, bytes>
    decreases |hs|
  {
    if hs == [] then acc else SetAll(acc[Canonical(hs[0].0) := hs[0].1], hs[1..])
  }

  lemma ReadLineOfJoin(text: bytes, rest: bytes)
    requires LF !in text
    ensures ReadLine(text + [LF] + rest) == Line(text, rest)
  {
    FirstIsJoin(text, LF, rest);
  }

  lemma HeaderTextParses(h: Pair)
    requires Printable(h)
    ensures ParseLine(HeaderText(h)) == Some(h)
  {
    var text := HeaderText(h);
    var l := h.0 + COLON_SPACE + h.1;
    assert text[..|text| - 1] == l && text[|text| - 1] == CR;
    FirstIsJoin(h.0, COLON, [SPACE] + h.1);
    assert l == h.0 + [COLON] + ([SPACE] + h.1);
    assert ([SPACE] + h.1)[1..] == h.1;
  }

  lemma HeaderLineParses(h: Pair, rest: bytes)
    requires Printable(h)
    ensures ReadLine(HeaderLine(h) + rest) == Line(HeaderText(h), rest)
    ensures ParseLine(HeaderText(h)) == Some(h)
  {
    ReadLineOfJoin(HeaderText(h), rest);
    HeaderTextParses(h);
  }

  lemma {:induction false} HeadersRoundTrip(hs: seq<Pair>, body: bytes, status: int, acc: map<bytes, bytes>)
    requires forall i | 0 <= i < |hs| :: Printable(hs[i])
    ensures ParseHeaders(HeaderLines(hs) + (CRLF + body), status, acc) == Response(status, SetAll(acc, hs), body)
    decreases |hs|
  {
    if hs == [] {
      ReadLineOfJoin([CR], body);
      assert HeaderLines(hs) + (CRLF + body) == [CR] + [LF] + body;
    } else {
      var rest := HeaderLines(hs[1..]) + (CRLF + body);
      Assoc(HeaderLine(hs[0]), HeaderLines(hs[1..]), CRLF + body);
      HeaderLineParses(hs[0], rest);
      HeadersRoundTrip(hs[1..], body, status, acc[Canonical(hs[0].0) := hs[0].1]);
    }
  }

  lemma StatusHasNoNewline(status: int, reason: bytes)
    requires LF !in reason
    ensures LF !in StatusText(status, reason)
  {
  }

  /**
   * Parsing what was printed, for any status, any printable headers in any order and with repeats, and any
   * body bytes: the body is intact and the headers are the printed ones with the last value of each name.
   */
  lemma ResponseRoundTrip(status: int, reason: bytes, hs: seq<Pair>, body: bytes)
    requires LF !in reason && forall i | 0 <= i < |hs| :: Printable(hs[i])
    ensures Deserialize(Serialize(status, reason, hs, body))
            == Response(ReadStatus(StatusText(status, reason)), SetAll(map[], hs), body)
  {
    var text, rest := StatusText(status, reason), HeaderLines(hs) + (CRLF + body);
    StatusHasNoNewline(status, reason);
    ReadLineOfJoin(text, rest);
    HeadersRoundTrip(hs, body, ReadStatus(text), map[]);
  }

  /** A single-valued header map in any iteration order comes back unchanged when its names are canonical. */
  lemma {:induction false} SetAllOfMap(m: map<bytes, bytes>, hs: seq<Pair>, acc: map<bytes, bytes>)
    requires forall i | 0 <= i < |hs| :: Canonical(hs[i].0) == hs[i].0 && hs[i].0 in m && m[hs[i].0] == hs[i].1
    requires forall k | k in acc :: k in m && m[k] == acc[k]
    requires forall k | k in m :: k in acc || exists i | 0 <= i < |hs| :: hs[i].0 == k
    ensures SetAll(acc, hs) == m
    decreases |hs|
  {
    if hs == [] {
      assert acc == m;
    } else {
      var next := acc[Canonical(hs[0].0) := hs[0].1];
      forall k | k in m && k !in next ensures exists i | 0 <= i < |hs[1..]| :: hs[1..][i].0 == k {
        var i :| 0 <= i < |hs| && hs[i].0 == k;
        assert hs[1..][i - 1].0 == k;
      }
      SetAllOfMap(m, hs[1..], next);
    }
  }

  /** The round trip promised to callers: status, header map and body all come back. */
  lemma MapRoundTrip(status: int, reason: bytes, m: map<bytes, bytes>, order: seq<bytes>, body: bytes)
    requires 100 <= status <= 999 && LF !in reason
    requires forall k | k in m :: Printable((k, m[k])) && Canonical(k) == k
    requires forall k :: k in order <==> k in m
    ensures var hs := seq(|order|, i requires 0 <= i < |order| => (order[i], if order[i] in m then m[order[i]] else []));
            Deserialize(Serialize(status, reason, hs, body)) == Response(status, m, body)
  {
    var hs := seq(|order|, i requires 0 <= i < |order| => (order[i], if order[i] in m then m[order[i]] else []));
    forall k | k in m ensures exists i | 0 <= i < |hs| :: hs[i].0 == k {
      var i :| 0 <= i < |order| && order[i] == k;
      assert hs[i].0 == k;
    }
    ResponseRoundTrip(status, reason, hs, body);
    SetAllOfMap(m, hs, map[]);
    StatusSurvivesIff(status, reason);
  }

  // ---- Which statuses survive ----

  /** The three bytes both readers take as the status code. */
  function CodeBytes(status: int, reason: bytes): bytes { (Decimal(status) + [SPACE] + reason + CRLF)[..3] }

  lemma {:induction false} DigitCount(n: nat)
    ensures |Digits(n)| >= 1
    ensures |Digits(n)| == 1 <==> n < 10
    ensures |Digits(n)| == 2 <==> 10 <= n < 100
    ensures |Digits(n)| == 3 <==> 100 <= n < 1000
  {
    if n >= 10 {
      DigitCount(n / 10);
    }
  }

  lemma {:induction false} LeadingDigits(n: nat, k: nat)
    requires 1 <= k <= |Digits(n)|
    ensures AllDigits(Digits(n)[..k]) && Value(Digits(n)[..k]) <= n
    ensures k < |Digits(n)| ==> Value(Digits(n)[..k]) < n
  {
    ValueOfDigits(n);
    var d := Digits(n);
    if k == |d| {
      assert d[..k] == d;
    } else {
      LeadingDigits(n / 10, k);
      assert d[..k] == Digits(n / 10)[..k];
    }
  }

  /** Where the code is printed: exactly the three-character decimals are read back, everything else is not. */
  lemma CodeIsReadIff(status: int, reason: bytes)
    ensures Atoi(CodeBytes(status, reason)) == Some(status) <==> 100 <= status <= 999 || -99 <= status <= -10
  {
    var n: nat := if status < 0 then -status else status;
    var d := Decimal(status);
    var code := CodeBytes(status, reason);
    DigitCount(n);
    if |d| < 3 {
      assert code[|d|] == SPACE;
      NotANumber(code, |d|);
    } else {
      assert code == d[..3];
      if status >= 0 {
        LeadingDigits(n, 3);
        if n < 1000 {
          ValueOfDigits(n);
          assert d[..3] == d;
        }
      } else {
        assert d[1..] == Digits(n);
        LeadingDigits(n, 2);
        assert d[..3][1..] == Digits(n)[..2];
        if n < 100 {
          ValueOfDigits(n);
          assert Digits(n)[..2] == Digits(n);
        }
      }
    }
  }

  lemma NotANumber(s: bytes, k: nat)
    requires 1 <= k < |s| && s[k] == SPACE
    ensures Atoi(s) == None
  {
  }

  lemma StatusFields(status: int, reason: bytes)
    ensures var text := StatusText(status, reason);
            |text| >= 12 && text[..5] == PREFIX[..5] && text[9..12] == CodeBytes(status, reason)
  {
  }

  /** A printed status comes back from the deserializer exactly when it is one of the three-character decimals. */
  lemma StatusSurvivesIff(status: int, reason: bytes)
    ensures ReadStatus(StatusText(status, reason)) == status <==> 100 <= status <= 999 || -99 <= status <= -10
  {
    StatusFields(status, reason);
    CodeIsReadIff(status, reason);
    CodeIsReadIff(200, reason);
  }

  lemma PrintedFields(status: int, reason: bytes, rest: bytes)
    ensures var p := StatusLine(status, reason) + rest;
            && |p| >= 12 && p[..5] == PREFIX[..5] && p[8] == SPACE && p[9..12] == CodeBytes(status, reason)
            && forall k | 5 <= k < 8 :: p[k] != SPACE
  {
    var tail := Decimal(status) + [SPACE] + reason + CRLF;
    var p := StatusLine(status, reason) + rest;
    assert StatusLine(status, reason) == PREFIX + tail;
    assert p[..9] == PREFIX;
    assert p[..5] == p[..9][..5];
    assert forall k | 0 <= k < 9 :: p[k] == PREFIX[k];
    assert p[9..12] == tail[..3];
  }

  /** On printed responses the traffic log and the deserializer read the same code, when there is one to read. */
  lemma ReadersAgree(status: int, reason: bytes, hs: seq<Pair>, body: bytes)
    ensures var code := Atoi(CodeBytes(status, reason));
            && LoggedStatus(Serialize(status, reason, hs, body)) == (if code.Some? then code.value else 0)
            && ReadStatus(StatusText(status, reason)) == (if code.Some? then code.value else 200)
  {
    StatusFields(status, reason);
    PrintedFields(status, reason, HeaderLines(hs) + (CRLF + body));
    assert FirstFrom(Serialize(status, reason, hs, body), SPACE, 5) == 8;
  }

  // ---- Responses that others print ----

  function DigitOf(c: byte): Option<nat> { if '0' as int <= c <= '9' as int then Some(c - '0' as int) else None }

  /** The number that three bytes denote: three digits, or a sign and two. */
  function Denoted(c: bytes): Option<int>
    requires |c| == 3
  {
    match (DigitOf(c[0]), DigitOf(c[1]), DigitOf(c[2]))
    case (Some(x), Some(y), Some(z)) => Some(100 * x + 10 * y + z)
    case (None, Some(y), Some(z)) =>
      var n: int := 10 * y + z;
      if c[0] == '+' as int then Some(n) else if c[0] == '-' as int then Some(-n) else None
    case _ => None
  }

  lemma ValueOfTwo(a: byte, b: byte)
    requires AllDigits([a, b])
    ensures Value([a, b]) == 10 * (a - 48) + (b - 48)
  {
    assert [a, b][..1] == [a] && [a][..0] == [];
    assert Value([a]) == a - 48;
  }

  lemma ValueOfThree(a: byte, b: byte, c: byte)
    requires AllDigits([a, b, c])
    ensures Value([a, b, c]) == 100 * (a - 48) + 10 * (b - 48) + (c - 48)
  {
    assert [a, b, c][..2] == [a, b];
    assert AllDigits([a, b]) by { assert [a, b, c][0] == a && [a, b, c][1] == b; }
    ValueOfTwo(a, b);
  }

  lemma AtoiOfThree(c: bytes)
    requires |c| == 3
    ensures Atoi(c) == Denoted(c)
  {
    assert c == [c[0], c[1], c[2]] && c[1..] == [c[1], c[2]];
    if AllDigits(c) {
      ValueOfThree(c[0], c[1], c[2]);
    }
    TwoDigitsIff(c[1..]);
    if AllDigits(c[1..]) {
      ValueOfTwo(c[1], c[2]);
    }
  }

  lemma TwoDigitsIff(d: bytes)
    requires |d| == 2
    ensures AllDigits(d) <==> DigitOf(d[0]).Some? && DigitOf(d[1]).Some?
  {
  }

  const HTTP: bytes := Ascii("HTTP/")

  lemma HttpBytes()
    ensures HTTP == [72, 84, 84, 80, 47] && PREFIX == Ascii("HTTP/1.1 ") && PREFIX[..5] == HTTP
  {
    assert |HTTP| == 5;
  }

  /**
   * The status of any status line, of whatever HTTP version: the number denoted by the three bytes from the tenth on, and
   * 200 when they denote none, when the line is shorter than twelve bytes, or when it does not start with "HTTP/".
   */
  lemma StatusOfAnyLine(line: bytes)
    ensures ReadStatus(line)
            == if |line| >= 12 && HTTP <= line && Denoted(line[9..12]).Some? then Denoted(line[9..12]).value else 200
  {
    HttpBytes();
    if |line| >= 12 {
      AtoiOfThree(line[9..12]);
      assert HTTP <= line <==> line[..5] == HTTP;
    }
  }

  /** A response whose first line is `HTTP/`, three version bytes, a space, three code bytes and anything up to the newline. */
  lemma ForeignStatusIsRead(version: bytes, code: bytes, more: bytes, body: bytes)
    requires |version| == 3 && |code| == 3 && LF !in version && LF !in code && LF !in more
    ensures var payload := HTTP + version + [SPACE] + code + more + [LF] + (CRLF + body);
            && Deserialize(payload) == Response(if Denoted(code).Some? then Denoted(code).value else 200, map[], body)
            && (SPACE !in version ==> LoggedStatus(payload) == if Denoted(code).Some? then Denoted(code).value else 0)
  {
    var line, rest := HTTP + version + [SPACE] + code + more, CRLF + body;
    ForeignLine(version, code, more);
    ReadLineOfJoin(line, rest);
    HeadersRoundTrip([], body, ReadStatus(line), map[]);
    assert HeaderLines([]) + rest == rest;
    if SPACE !in version {
      ForeignIsLogged(version, code, more + [LF] + rest);
      Assoc(HTTP + version + [SPACE] + code, more, [LF]);
      Assoc(HTTP + version + [SPACE] + code, more + [LF], rest);
    }
  }

  lemma ForeignLine(version: bytes, code: bytes, more: bytes)
    requires |version| == 3 && |code| == 3 && LF !in version && LF !in code && LF !in more
    ensures var line := HTTP + version + [SPACE] + code + more;
            LF !in line && ReadStatus(line) == if Denoted(code).Some? then Denoted(code).value else 200
  {
    HttpBytes();
    var line := HTTP + version + [SPACE] + code + more;
    assert line[9..12] == code && HTTP <= line;
    StatusOfAnyLine(line);
  }

  lemma ForeignIsLogged(version: bytes, code: bytes, more: bytes)
    requires |version| == 3 && |code| == 3 && SPACE !in version
    ensures LoggedStatus(HTTP + version + [SPACE] + code + more) == if Denoted(code).Some? then Denoted(code).value else 0
  {
    HttpBytes();
    var p := HTTP + version + [SPACE] + code + more;
    assert p[8] == SPACE && p[..5] == HTTP;
    assert forall k | 5 <= k < 8 :: p[k] == version[k - 5];
    LoggedReads(p, 8);
    assert p[9..12] == code;
  }

  /** The traffic log reads the three bytes behind the first space after "HTTP/", wherever that is. */
  lemma LoggedReads(p: bytes, space: nat)
    requires 5 <= space < |p| && p[space] == SPACE && forall k | 5 <= k < space :: p[k] != SPACE
    ensures LoggedStatus(p)
            == if |p| >= 12 && HTTP <= p && space + 4 <= |p| && Denoted(p[space + 1..space + 4]).Some?
               then Denoted(p[space + 1..space + 4]).value else 0
  {
    HttpBytes();
    if |p| >= 12 && space + 4 <= |p| {
      AtoiOfThree(p[space + 1..space + 4]);
      assert HTTP <= p <==> p[..5] == HTTP;
      assert FirstFrom(p, SPACE, 5) == space;
    }
  }

  /**
   * Header lines that others print, with or without a carriage return at the end: the name is what precedes the first
   * colon, the value what follows it, less one space in front.
   */
  lemma ForeignHeaderIsRead(name: bytes, value: bytes)
    requires name != [] && COLON !in name && (value != [] ==> value[|value| - 1] != CR)
    ensures ParseLine(name + [COLON, SPACE] + value) == Some((name, value))
    ensures ParseLine(name + [COLON, SPACE] + value + [CR]) == Some((name, value))
    ensures value == [] || value[0] != SPACE ==> ParseLine(name + [COLON] + value) == Some((name, value))
    ensures value == [] || value[0] != SPACE ==> ParseLine(name + [COLON] + value + [CR]) == Some((name, value))
  {
    var spaced := [SPACE] + value;
    assert name + [COLON, SPACE] + value == name + [COLON] + spaced;
    assert spaced[1..] == value && spaced[|spaced| - 1] == if value == [] then SPACE else value[|value| - 1];
    ColonIsCut(name, spaced);
    ColonIsCut(name, value);
  }

  lemma ColonIsCut(name: bytes, rest: bytes)
    requires name != [] && COLON !in name && (rest != [] ==> rest[|rest| - 1] != CR)
    ensures var value := if rest != [] && rest[0] == SPACE then rest[1..] else rest;
            && ParseLine(name + [COLON] + rest) == Some((name, value))
            && ParseLine(name + [COLON] + rest + [CR]) == Some((name, value))
  {
    var l := name + [COLON] + rest;
    assert l[|l| - 1] == if rest == [] then COLON else rest[|rest| - 1];
    assert (l + [CR])[..|l|] == l;
    FirstIsJoin(name, COLON, rest);
  }

  /** Lines without a name are skipped: those without a colon, and those that start with one. */
  lemma NamelessIsSkipped(line: bytes)
    requires COLON !in line || line[0] == COLON
    ensures ParseLine(line) == None
  {
  }

  // ---- Canonical names ----

  function Upper(c: byte): byte { if 'a' as int <= c <= 'z' as int then c - 32 else c }
  function Lower(c: byte): byte { if 'A' as int <= c <= 'Z' as int then c + 32 else c }

  /** The bytes a header name may hold: letters, digits and the signs that section 3.2.6 of RFC 7230 lists. */
  predicate NameByte(c: byte) {
    || 'a' as int <= c <= 'z' as int || 'A' as int <= c <= 'Z' as int || '0' as int <= c <= '9' as int
    || c in Ascii("!#$%&'*+-.^_`|~")
  }

  lemma NameSigns()
    ensures Ascii("!#$%&'*+-.^_`|~") == [33, 35, 36, 37, 38, 39, 42, 43, 45, 46, 94, 95, 96, 124, 126]
  {
    assert |Ascii("!#$%&'*+-.^_`|~")| == 15;
  }

  /**
   * The canonical form of a name has a capital in front and behind each dash and small letters elsewhere; a name with
   * any byte that names cannot hold is left as it is.
   */
  lemma CanonicalIs(name: bytes)
    ensures |Canonical(name)| == |name|
    ensures (exists i | 0 <= i < |name| :: !NameByte(name[i])) ==> Canonical(name) == name
    ensures (forall i | 0 <= i < |name| :: NameByte(name[i])) ==>
              forall i | 0 <= i < |name| ::
                Canonical(name)[i] == if i == 0 || name[i - 1] == DASH then Upper(name[i]) else Lower(name[i])
  {
    forall i | 0 <= i < |name|
      ensures NameByte(name[i]) == TokenByte(name[i])
      ensures TitleCase(name, true)[i] == if i == 0 || name[i - 1] == DASH then Upper(name[i]) else Lower(name[i])
    {
      NameByteIs(name[i]);
      TitleCaseAt(name, true, i);
    }
  }

  lemma NameByteIs(c: byte)
    ensures NameByte(c) == TokenByte(c)
  {
    NameSigns();
  }

  lemma {:induction false} TitleCaseAt(s: bytes, upper: bool, i: nat)
    requires i < |s|
    ensures TitleCase(s, upper)[i]
            == if (i == 0 && upper) || (i > 0 && s[i - 1] == DASH) then Upper(s[i]) else Lower(s[i])
  {
    if i > 0 {
      TitleCaseAt(s[1..], s[0] == DASH, i - 1);
    }
  }

  /** Names that differ in case alone have one canonical form, so they share an entry of the header map. */
  lemma CanonicalIgnoresCase(a: bytes, b: bytes)
    requires |a| == |b| && IsName(a) && IsName(b) && forall i | 0 <= i < |a| :: Lower(a[i]) == Lower(b[i])
    ensures Canonical(a) == Canonical(b)
  {
    CanonicalIs(a);
    CanonicalIs(b);
    forall i | 0 <= i < |a| ensures Canonical(a)[i] == Canonical(b)[i] {
      CanonicalAt(a, i);
      CanonicalAt(b, i);
      CaseIsAllThatDiffers(a[i], b[i]);
      if i > 0 {
        CaseIsAllThatDiffers(a[i - 1], b[i - 1]);
      }
    }
  }

  predicate IsName(name: bytes) { forall i | 0 <= i < |name| :: NameByte(name[i]) }

  lemma CanonicalAt(name: bytes, i: nat)
    requires IsName(name) && i < |name|
    ensures |Canonical(name)| == |name|
    ensures Canonical(name)[i] == if i == 0 || name[i - 1] == DASH then Upper(name[i]) else Lower(name[i])
  {
    CanonicalIs(name);
  }

  lemma CaseIsAllThatDiffers(x: byte, y: byte)
    requires Lower(x) == Lower(y)
    ensures Upper(x) == Upper(y) && (x == DASH <==> y == DASH)
  {
  }

  // ---- The bytes printed ----

  /** What is put on the wire for one header and a body. */
  lemma PrintedBytes(status: int, reason: bytes, name: bytes, value: bytes, body: bytes)
    ensures Serialize(status, reason, [(name, value)], body)
            == Ascii("HTTP/1.1 ") + Decimal(status) + [32] + reason + [13, 10]
               + (name + [58, 32] + value + [13, 10]) + [13, 10] + body
  {
    HttpBytes();
    assert HeaderLines([(name, value)]) == HeaderLine((name, value)) + HeaderLines([]);
    assert HeaderLine((name, value)) == name + [58, 32] + value + [13, 10];
    assert StatusLine(status, reason) == Ascii("HTTP/1.1 ") + Decimal(status) + [32] + reason + [13, 10];
    Assoc(StatusLine(status, reason) + HeaderLine((name, value)), CRLF, body);
    Assoc(StatusLine(status, reason), HeaderLine((name, value)), CRLF + body);
  }
}

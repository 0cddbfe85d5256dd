/** The grammar of libdank/utils/rfc2396.c, which reads RFC 2396 URIs with the bracketed IPv6
    literals of RFC 2732. */
module UriGrammar {
  import opened Ctype
  import opened Lexers
  import opened Numerals
  import opened Options
  import opened Powers

  predicate Reserved(c: char) {
    c == ';' || c == '/' || c == '?' || c == ':' || c == '@' || c == '&' || c == '=' || c == '+' || c == '$' || c == ','
  }

  predicate Unreserved(c: char) {
    IsAlnum(c) || c == '-' || c == '_' || c == '.' || c == '!' || c == '~' || c == '*' || c == '\'' || c == '(' || c == ')'
  }

  predicate Unwise(c: char) {
    c == '{' || c == '}' || c == '|' || c == '\\' || c == '^' || c == '[' || c == ']' || c == '`'
  }

  predicate TwoXDigits(text: string, i: nat) { IsXDigit(At(text, i)) && IsXDigit(At(text, i + 1)) }

  /** The length of the escape sequence at i, 0 if there is none: %XX, or the extension %uXXXX. */
  function EscapeLength(text: string, i: nat): (l: nat)
    ensures l > 0 ==> i + l <= |text|
  {
    if At(text, i) != '%' then 0
    else if At(text, i + 1) == 'u' then if TwoXDigits(text, i + 2) && TwoXDigits(text, i + 4) then 6 else 0
    else if TwoXDigits(text, i + 1) then 3 else 0
  }

  /** The components made of runs of characters and escapes. */
  datatype Part = UserInfo | HostName | PathChars | QueryChars

  predicate Plain(part: Part, c: char) {
    match part
    case UserInfo => Unreserved(c) || c == ':'
    case HostName => Unreserved(c)
    case PathChars => Unreserved(c) || Unwise(c) || (Reserved(c) && c != '?')
    case QueryChars => Unreserved(c) || Reserved(c) || Unwise(c)
  }

  /** How much of the text at i belongs to one element of the component; 0 ends it. */
  function ElementLength(part: Part, text: string, i: nat): (l: nat)
    ensures l > 0 ==> i + l <= |text|
  {
    if Plain(part, At(text, i)) then 1 else EscapeLength(text, i)
  }

  /** Where the longest run of elements that starts at i ends. */
  function PartEnd(part: Part, text: string, i: nat): (e: nat)
    requires i <= |text|
    ensures i <= e <= |text| && ElementLength(part, text, e) == 0
    decreases |text| - i
  {
    var l := ElementLength(part, text, i);
    if l == 0 then i else PartEnd(part, text, i + l)
  }

  // ----- components

  datatype Host = NoHost | HostTo(end: nat)
  /** The ':' before a port and the end of the port. */
  datatype Span = Span(colon: nat, end: nat)
  datatype Authority = BadAuthority | Authority(userinfo: Option<string>, host: string, port: nat, span: Option<Span>, end: nat)

  const INET6_ADDRSTRLEN: nat := 46

  /** '[', an IPv6 address and ']'; i stands at the bracket. */
  function LiteralAt(literals: set<string>, text: string, i: nat): (r: Host)
    requires i < |text|
    ensures r.HostTo? ==> i < r.end <= |text|
  {
    var e := RunEnd(LiteralChar, text, i + 1);
    if At(text, e) != ']' || e == i + 1 || e - (i + 1) >= INET6_ADDRSTRLEN || text[i + 1..e] !in literals then NoHost
    else HostTo(e + 1)
  }

  /** A host after userinfo and '@'. */
  function HostAt(literals: set<string>, text: string, i: nat): (r: Host)
    requires i <= |text|
    ensures r.HostTo? ==> i < r.end <= |text|
  {
    if At(text, i) == '[' then LiteralAt(literals, text, i)
    else
      var e := PartEnd(HostName, text, i);
      if e == i then NoHost else HostTo(e)
  }

  /** The rest of an authority whose host is text[i..e]: ':' and a number, or nothing. */
  function PortAt(userinfo: Option<string>, text: string, i: nat, e: nat): (r: Authority)
    requires i <= e <= |text|
    ensures r.Authority? ==> e <= r.end <= |text|
  {
    if At(text, e) != ':' then Authority(userinfo, text[i..e], 0, None, e)
    else match UintAt(16, text, e + 1)
      case Rejected => BadAuthority
      case Number(p, q) => Authority(userinfo, text[i..e], p, Some(Span(e, q)), q)
  }

  function PortAfter(userinfo: Option<string>, h: Host, text: string, i: nat): (r: Authority)
    requires h.HostTo? ==> i < h.end <= |text|
    ensures r.Authority? ==> i < r.end <= |text|
  {
    match h
    case NoHost => BadAuthority
    case HostTo(e) => PortAt(userinfo, text, i, e)
  }

  /** text[i..e] is the longest run that could be userinfo; it was a host unless '@' follows, and
      without userinfo a ':' belongs to the host. */
  function UserOrHost(literals: set<string>, text: string, i: nat, e: nat): (r: Authority)
    requires i <= e <= |text|
    ensures r.Authority? ==> i < r.end <= |text|
  {
    if e == i then BadAuthority
    else if At(text, e) != '@' then PortAt(None, text, i, e)
    else PortAfter(Some(text[i..e]), HostAt(literals, text, e + 1), text, e + 1)
  }

  function AuthorityAt(literals: set<string>, text: string, i: nat): (r: Authority)
    requires i <= |text|
    ensures r.Authority? ==> i < r.end <= |text|
  {
    if At(text, i) == '[' then PortAfter(None, LiteralAt(literals, text, i), text, i)
    else UserOrHost(literals, text, i, PartEnd(UserInfo, text, i))
  }

  datatype Hierarchy = Hierarchy(path: Option<string>, query: Option<string>, fragment: Option<string>, end: nat)

  /** mark and a run of elements, or nothing. */
  function MarkedAt(mark: char, part: Part, text: string, i: nat): (r: (Option<string>, nat))
    requires i <= |text| && mark != NUL
    ensures i <= r.1 <= |text|
  {
    if At(text, i) != mark then (None, i)
    else
      var e := PartEnd(part, text, i + 1);
      (Some(text[i + 1..e]), e)
  }

  function QueryAndFragment(path: Option<string>, text: string, i: nat): (r: Hierarchy)
    requires i <= |text|
    ensures i <= r.end <= |text|
  {
    var query := MarkedAt('?', QueryChars, text, i);
    var fragment := MarkedAt('#', PathChars, text, query.1);
    Hierarchy(path, query.0, fragment.0, fragment.1)
  }

  function PathAt(text: string, i: nat): (r: Hierarchy)
    requires i <= |text|
    ensures i <= r.end <= |text|
  {
    var e := PartEnd(PathChars, text, i);
    QueryAndFragment(if e == i then None else Some(text[i..e]), text, e)
  }

  // ----- whole URIs

  /** The fields of struct uri. */
  datatype Parts = Parts(scheme: Option<string>, userinfo: Option<string>, host: Option<string>, port: nat,
                         path: Option<string>, query: Option<string>, fragment: Option<string>,
                         opaquePart: Option<string>)

  const NO_PARTS: Parts := Parts(None, None, None, 0, None, None, None, None)

  /** What is read, where reading stops, and where a port stands. */
  datatype Parsed = Invalid | Valid(parts: Parts, end: nat, span: Option<Span>)

  function ToLower(c: char): char { if 'A' <= c <= 'Z' then c - 'A' + 'a' else c }

  /** strncasecmp over the length of the wanted scheme: a prefix is enough. */
  predicate SchemeMatches(wanted: Option<string>, text: string, i: nat) {
    wanted.Some? ==> forall k :: 0 <= k < |wanted.value| ==> ToLower(At(text, i + k)) == ToLower(wanted.value[k])
  }

  function AfterAuthority(a: Authority, scheme: Option<string>, text: string): (r: Parsed)
    requires a.Authority? ==> a.end <= |text|
    ensures r.Valid? ==> a.Authority? && a.end <= r.end <= |text|
  {
    match a
    case BadAuthority => Invalid
    case Authority(userinfo, host, port, span, e) =>
      var h := PathAt(text, e);
      Valid(Parts(scheme, userinfo, Some(host), port, h.path, h.query, h.fragment, None), h.end, span)
  }

  /** The part after the scheme: a hierarchy with or without authority, or an opaque string. */
  function AfterScheme(literals: set<string>, scheme: Option<string>, text: string, i: nat): (r: Parsed)
    requires i <= |text|
    ensures r.Valid? ==> i <= r.end <= |text|
  {
    if At(text, i) != '/' then
      var e := RunEnd(NonSpace, text, i);
      Valid(NO_PARTS.(scheme := scheme, opaquePart := Some(text[i..e])), e, None)
    else if At(text, i + 1) != '/' then
      var h := PathAt(text, i);
      Valid(NO_PARTS.(scheme := scheme, path := h.path, query := h.query, fragment := h.fragment), h.end, None)
    else
      AfterAuthority(AuthorityAt(literals, text, i + 2), scheme, text)
  }

  /** text[s..e] is the longest run of scheme characters; ':' must follow for it to be a scheme. */
  function FromScheme(literals: set<string>, wanted: Option<string>, text: string, s: nat, e: nat): (r: Parsed)
    requires s <= e <= |text|
    ensures r.Valid? ==> s <= r.end <= |text|
  {
    if e == s || At(text, e) != ':' then AfterScheme(literals, None, text, s)
    else if !SchemeMatches(wanted, text, s) then Invalid
    else AfterScheme(literals, Some(text[s..e]), text, e + 1)
  }

  function UriAt(literals: set<string>, wanted: Option<string>, text: string, pos: nat): (r: Parsed)
    requires pos <= |text|
    ensures r.Valid? ==> pos <= r.end <= |text|
  {
    var s := RunEnd(Space, text, pos);
    FromScheme(literals, wanted, text, s, RunEnd(SchemeChar, text, s))
  }

  // ----- printing

  function Prefixed(mark: string, s: Option<string>): string { if s.Some? then mark + s.value else "" }

  function Suffixed(s: Option<string>, mark: string): string { if s.Some? then s.value + mark else "" }

  function Printed(s: Option<string>): string { if s.Some? then s.value else "" }

  /** %hu takes the port modulo 2^16, which matters for a port set by hand only. */
  function PrintedPort(port: nat): string { if port != 0 then ":" + Decimal(port % 0x10000) else "" }

  predicate HasAuthority(u: Parts) { u.host.Some? || u.userinfo.Some? || u.port != 0 }

  function StringizeAuthority(u: Parts): string {
    if HasAuthority(u) then
      "//" + Suffixed(u.userinfo, "@") + Printed(u.host) + PrintedPort(u.port)
    else ""
  }

  function StringizePath(u: Parts): string {
    Printed(u.path) + Prefixed("?", u.query) + Prefixed("#", u.fragment)
  }

  /** Section 5.2 step 7 of RFC 2396. */
  function Stringize(u: Parts): string {
    Suffixed(u.scheme, ":") + if u.opaquePart.Some? then u.opaquePart.value else StringizeAuthority(u) + StringizePath(u)
  }

  // ----- which texts are rejected

  /** The host stands in brackets or after "userinfo@"; any other host takes in every ':'. */
  predicate Delimited(text: string, i: nat)
    requires i <= |text|
  {
    At(text, i) == '[' || At(text, PartEnd(UserInfo, text, i)) == '@'
  }

  /** The host of the authority at i: what is in brackets, what follows "userinfo@", or else the
      run that could have been userinfo; never the ':' and number after a delimited host. */
  function HostOf(literals: set<string>, text: string, i: nat): (h: Host)
    requires i <= |text|
    ensures h.HostTo? ==> i < h.end <= |text|
  {
    var e := PartEnd(UserInfo, text, i);
    if At(text, i) == '[' then LiteralAt(literals, text, i)
    else if e == i then NoHost
    else if At(text, e) == '@' then HostAt(literals, text, e + 1)
    else HostTo(e)
  }

  /** A ':' follows a delimited host, and behind it, whitespace aside, no number below 2^16. */
  predicate PortMissing(literals: set<string>, text: string, i: nat)
    requires i <= |text|
  {
    var h := HostOf(literals, text, i);
    Delimited(text, i) && h.HostTo? && At(text, h.end) == ':' && UintAt(16, text, h.end + 1).Rejected?
  }

  /** Exactly the authorities without a host, and those whose delimited host has a ':' without a
      port behind it, are unacceptable; and a port is read after a delimited host only. */
  lemma AuthorityRejected(literals: set<string>, text: string, i: nat)
    requires i <= |text|
    ensures var a, h := AuthorityAt(literals, text, i), HostOf(literals, text, i);
      && (a.BadAuthority? <==> h.NoHost? || PortMissing(literals, text, i))
      && (a.Authority? ==> (a.span.Some? <==> Delimited(text, i) && At(text, h.end) == ':'))
  {
    hide UintAt, LiteralAt, PartEnd, RunEnd, EscapeLength;
    var e := PartEnd(UserInfo, text, i);
    assert ElementLength(UserInfo, text, e) == 0;
    if e == i && At(text, i) != '[' { assert HostOf(literals, text, i).NoHost?; }
  }

  /** A host that is not delimited is never rejected: ':' and the port after it become part of it. */
  lemma ColonInHost(literals: set<string>, text: string, i: nat)
    requires i <= |text| && !Delimited(text, i)
    ensures var e := PartEnd(UserInfo, text, i);
      AuthorityAt(literals, text, i) == (if e == i then BadAuthority else Authority(None, text[i..e], 0, None, e))
      && At(text, e) != ':'
  {
    assert ElementLength(UserInfo, text, PartEnd(UserInfo, text, i)) == 0;
  }

  /** Exactly three kinds of texts are no URI: one with another scheme than the one wanted, and one
      with an authority that lacks a host, or the port that the ':' after a delimited host announces. */
  lemma UriRejected(literals: set<string>, wanted: Option<string>, text: string, pos: nat)
    requires pos <= |text|
    ensures var s := RunEnd(Space, text, pos);
      var e := RunEnd(SchemeChar, text, s);
      var schemed := e > s && At(text, e) == ':';
      var i := if schemed then e + 1 else s;
      UriAt(literals, wanted, text, pos).Invalid? <==>
        || (schemed && !SchemeMatches(wanted, text, s))
        || (At(text, i) == '/' && At(text, i + 1) == '/'
            && (HostOf(literals, text, i + 2).NoHost? || PortMissing(literals, text, i + 2)))
  {
    hide AuthorityAt, HostOf, PortMissing, SchemeMatches, PathAt;
    var s := RunEnd(Space, text, pos);
    var e := RunEnd(SchemeChar, text, s);
    var i := if e > s && At(text, e) == ':' then e + 1 else s;
    if At(text, i) == '/' && At(text, i + 1) == '/' { AuthorityRejected(literals, text, i + 2); }
  }

  /** A run of plain characters and no element behind it. */
  lemma {:induction false} PlainRun(part: Part, text: string, i: nat, e: nat)
    requires i <= e <= |text| && (forall k :: i <= k < e ==> Plain(part, text[k])) && ElementLength(part, text, e) == 0
    ensures PartEnd(part, text, i) == e
    decreases e - i
  {
    if i < e { PlainRun(part, text, i + 1, e); }
  }

  lemma AfterSlashes(text: string)
    requires |text| >= 2 && text[0] == '/'
    ensures RunEnd(Space, text, 0) == 0 && RunEnd(SchemeChar, text, 0) == 0
  {
  }

  /** A text that starts with "//" starts with an authority. */
  lemma AuthorityFirst(literals: set<string>, text: string)
    requires |text| >= 2 && text[0] == text[1] == '/'
    ensures UriAt(literals, None, text, 0) == AfterAuthority(AuthorityAt(literals, text, 2), None, text)
  {
    hide AuthorityAt;
    AfterSlashes(text);
  }

  lemma NoPathAtEnd(text: string)
    ensures PathAt(text, |text|) == Hierarchy(None, None, None, |text|)
  {
  }

  /** What appendix G.3 of RFC 2396 allows, a ':' with nothing behind it, is rejected after
      userinfo and '@', and after a bracketed literal. */
  lemma BareColonRejected(text: string)
    requires text == "//u@h:/"
    ensures UriAt({}, None, text, 0).Invalid?
  {
    hide UriAt;
    AfterSlashes(text);
    PlainRun(UserInfo, text, 2, 3);
    PlainRun(HostName, text, 4, 5);
    UriRejected({}, None, text, 0);
  }

  lemma BareColonRejectedInBrackets(text: string)
    requires text == "//[::1]:/"
    ensures UriAt({"::1"}, None, text, 0).Invalid?
  {
    hide UriAt;
    AfterSlashes(text);
    RunEndIs(LiteralChar, text, 3, 6);
    assert text[3..6] == "::1";
    UriRejected({"::1"}, None, text, 0);
  }

  /** Without userinfo and brackets it is accepted, and with a port as well: both are in the host. */
  lemma BareColonSwallowed(text: string)
    requires text == "//h:/p"
    ensures UriAt({}, None, text, 0) == Valid(NO_PARTS.(host := Some("h:"), path := Some("/p")), 6, None)
  {
    AfterSlashes(text);
    PlainRun(UserInfo, text, 2, 4);
    ColonInHost({}, text, 2);
    PlainRun(PathChars, text, 4, 6);
    assert text[2..4] == "h:" && text[4..6] == "/p";
  }

  lemma PortSwallowed(text: string)
    requires text == "//h:80/p"
    ensures UriAt({}, None, text, 0) == Valid(NO_PARTS.(host := Some("h:80"), path := Some("/p")), 8, None)
  {
    AfterSlashes(text);
    PlainRun(UserInfo, text, 2, 6);
    ColonInHost({}, text, 2);
    PlainRun(PathChars, text, 6, 8);
    assert text[2..6] == "h:80" && text[6..8] == "/p";
  }

  // ----- printing gives back what was read

  lemma Joins(text: string, a: nat, b: nat, c: nat)
    requires a <= b <= c <= |text|
    ensures text[a..b] + text[b..c] == text[a..c]
  {
  }

  lemma Regroup(a: string, b: string, p: string, t: string)
    ensures a + (b + p + t) == (a + b) + p + t
    ensures a + (b + p) == (a + b) + p
  {
  }

  lemma MarkedPrints(mark: char, part: Part, text: string, i: nat)
    requires i <= |text| && mark != NUL
    ensures var (s, e) := MarkedAt(mark, part, text, i); Prefixed([mark], s) == text[i..e]
  {
    var (s, e) := MarkedAt(mark, part, text, i);
    if s.Some? { assert text[i..e] == [mark] + text[i + 1..e]; }
  }

  lemma PathPrints(text: string, i: nat, u: Parts)
    requires i <= |text|
    requires var h := PathAt(text, i); u.path == h.path && u.query == h.query && u.fragment == h.fragment
    ensures StringizePath(u) == text[i..PathAt(text, i).end]
  {
    var e := PartEnd(PathChars, text, i);
    var q := MarkedAt('?', QueryChars, text, e).1;
    var f := MarkedAt('#', PathChars, text, q).1;
    MarkedPrints('?', QueryChars, text, e);
    MarkedPrints('#', PathChars, text, q);
    assert Printed(u.path) == text[i..e];
    Joins(text, i, e, q);
    Joins(text, i, q, f);
  }

  // The port is the one part that may be printed differently.

  /** A port that starts with a digit other than 0 is printed as it was written. */
  predicate PlainPort(text: string, span: Option<Span>) {
    span.Some? ==> '1' <= At(text, span.value.colon + 1) <= '9'
  }

  /** The port is the number between ':' and the end of the span, or there is none. */
  predicate PortRead(text: string, port: nat, span: Option<Span>) {
    match span
    case None => port == 0
    case Some(Span(c, q)) => c < |text| && text[c] == ':' && UintAt(16, text, c + 1) == Number(port, q)
  }

  /** A port written with a leading digit 1 to 9 prints as it was written, any other differently. */
  lemma PortPrints(text: string, port: nat, i: nat, q: nat)
    requires 1 <= i < |text| && text[i - 1] == ':' && UintAt(16, text, i) == Number(port, q)
    ensures i < q <= |text| && port < 0x10000
    ensures if '1' <= text[i] <= '9' then PrintedPort(port) == text[i - 1..q]
            else PrintedPort(port) == "" || (|PrintedPort(port)| > 1 && PrintedPort(port)[1] != text[i])
  {
    hide UintAt, Decimal;
    PortFits(text, port, i, q);
    if '1' <= text[i] <= '9' {
      PlainPortPrints(text, port, i, q);
      PortPrinted(port);
      assert text[i - 1..q] == ":" + text[i..q];
    } else {
      FirstDigit(port);
    }
  }

  lemma PortFits(text: string, port: nat, i: nat, q: nat)
    requires i <= |text| && UintAt(16, text, i) == Number(port, q)
    ensures port < 0x10000
  {
    UintFits(16, text, i);
    assert Pow2(4) == 16 && Pow2(8) == 256 && Pow2(12) == 4096 && Pow2(16) == 0x10000;
  }

  lemma PortPrinted(port: nat)
    requires 0 < port < 0x10000
    ensures PrintedPort(port) == ":" + Decimal(port)
  {
    assert port % 0x10000 == port;
  }

  lemma FirstDigit(port: nat)
    requires port < 0x10000
    ensures PrintedPort(port) == "" || (|PrintedPort(port)| > 1 && '1' <= PrintedPort(port)[1] <= '9')
  {
    if port > 0 {
      PortPrinted(port);
      DecimalHasValue(port);
    }
  }

  lemma PlainPortPrints(text: string, port: nat, i: nat, q: nat)
    requires i < |text| && '1' <= text[i] <= '9' && UintAt(16, text, i) == Number(port, q)
    ensures i < q <= |text| && Decimal(port) == text[i..q] && port != 0
  {
    DecimalTokenIsItsNumeral(16, text, i);
    DecimalHasValue(port);
  }

  /** What is printed is what was read between from and v.end, but for the port. */
  predicate PrintsAround(text: string, from: nat, v: Parsed, printed: string)
    requires v.Valid?
  {
    match v.span
    case None => from <= v.end <= |text| && printed == text[from..v.end]
    case Some(Span(c, q)) =>
      from < c < q <= v.end <= |text| && printed == text[from..c] + PrintedPort(v.parts.port) + text[q..v.end]
  }

  lemma PortFollows(userinfo: Option<string>, text: string, i: nat, e: nat)
    requires i <= e <= |text| && PortAt(userinfo, text, i, e).Authority?
    ensures var a := PortAt(userinfo, text, i, e);
      && PortRead(text, a.port, a.span) && a.userinfo == userinfo && a.host == text[i..e]
      && match a.span
         case None => e == a.end
         case Some(Span(c, q)) => c == e && q == a.end
  {
  }

  /** user "@" host, or host alone, is text[i..e]. */
  predicate UserHostIs(text: string, i: nat, e: nat, a: Authority)
    requires a.Authority?
  {
    i < e <= a.end <= |text| && Suffixed(a.userinfo, "@") + a.host == text[i..e]
    && match a.span
       case None => e == a.end
       case Some(Span(c, q)) => c == e && c < q == a.end
  }

  lemma HostReads(text: string, i: nat, e: nat)
    requires i < e <= |text| && PortAt(None, text, i, e).Authority?
    ensures var a := PortAt(None, text, i, e); PortRead(text, a.port, a.span) && UserHostIs(text, i, e, a)
  {
    PortFollows(None, text, i, e);
    assert "" + text[i..e] == text[i..e];
  }

  lemma UserReads(text: string, i: nat, m: nat, e: nat)
    requires i < m < e <= |text| && m + 1 < e && text[m] == '@' && PortAt(Some(text[i..m]), text, m + 1, e).Authority?
    ensures var a := PortAt(Some(text[i..m]), text, m + 1, e); PortRead(text, a.port, a.span) && UserHostIs(text, i, e, a)
  {
    PortFollows(Some(text[i..m]), text, m + 1, e);
    AtBetween(text, i, m, e);
  }

  lemma UserOrHostReads(literals: set<string>, text: string, i: nat, m: nat) returns (e: nat)
    requires i <= m <= |text| && UserOrHost(literals, text, i, m).Authority?
    ensures var a := UserOrHost(literals, text, i, m); PortRead(text, a.port, a.span) && UserHostIs(text, i, e, a)
  {
    if At(text, m) != '@' {
      e := m;
      HostReads(text, i, e);
    } else {
      e := HostAt(literals, text, m + 1).end;
      UserReads(text, i, m, e);
    }
  }

  lemma AuthorityReads(literals: set<string>, text: string, i: nat) returns (e: nat)
    requires i <= |text| && AuthorityAt(literals, text, i).Authority?
    ensures var a := AuthorityAt(literals, text, i); PortRead(text, a.port, a.span) && UserHostIs(text, i, e, a)
  {
    if At(text, i) == '[' {
      e := LiteralAt(literals, text, i).end;
      HostReads(text, i, e);
    } else {
      e := UserOrHostReads(literals, text, i, PartEnd(UserInfo, text, i));
    }
  }

  lemma AtBetween(text: string, i: nat, m: nat, e: nat)
    requires i <= m < e <= |text| && text[m] == '@'
    ensures (text[i..m] + "@") + text[m + 1..e] == text[i..e]
  {
  }

  lemma AuthorityPrints(text: string, i: nat, e: nat, a: Authority, u: Parts)
    requires a.Authority? && 2 <= i <= |text| && text[i - 2..i] == "//" && UserHostIs(text, i, e, a)
    requires u.userinfo == a.userinfo && u.host == Some(a.host) && u.port == a.port
    ensures StringizeAuthority(u) == text[i - 2..e] + PrintedPort(a.port)
  {
    Regroup("//", Suffixed(u.userinfo, "@"), a.host, "");
    assert "//" + text[i..e] == text[i - 2..e];
  }

  lemma HierarchyPrints(text: string, i: nat, e: nat, a: Authority, v: Parsed, u: Parts)
    requires v.Valid? && a.Authority? && 2 <= i <= |text| && text[i - 2..i] == "//" && UserHostIs(text, i, e, a)
    requires a.end <= v.end <= |text| && v.span == a.span && (a.span.None? ==> a.port == 0) && v.parts.port == a.port
    requires u.userinfo == a.userinfo && u.host == Some(a.host) && u.port == a.port && u.opaquePart.None? && u.scheme.None?
    requires StringizePath(u) == text[a.end..v.end]
    ensures PrintsAround(text, i - 2, v, Stringize(u))
  {
    AuthorityPrints(text, i, e, a, u);
    var front, rest := StringizeAuthority(u), StringizePath(u);
    assert "" + (front + rest) == front + rest;
    if a.span.None? {
      assert front == text[i - 2..e] + "" == text[i - 2..e];
      Joins(text, i - 2, e, v.end);
    }
  }

  lemma OpaquePrints(u: Parts)
    requires u.opaquePart.Some? && u.scheme.None?
    ensures Stringize(u) == u.opaquePart.value
  {
    assert "" + u.opaquePart.value == u.opaquePart.value;
  }

  lemma PathAlonePrints(u: Parts)
    requires u.opaquePart.None? && u.scheme.None? && !HasAuthority(u)
    ensures Stringize(u) == StringizePath(u)
  {
    assert "" + ("" + StringizePath(u)) == StringizePath(u);
  }

  lemma AfterAuthorityPrints(literals: set<string>, scheme: Option<string>, text: string, i: nat)
    requires 2 <= i <= |text| && text[i - 2..i] == "//"
    requires AfterAuthority(AuthorityAt(literals, text, i), scheme, text).Valid?
    ensures var v := AfterAuthority(AuthorityAt(literals, text, i), scheme, text);
      && v.parts.scheme == scheme && PortRead(text, v.parts.port, v.span)
      && PrintsAround(text, i - 2, v, Stringize(v.parts.(scheme := None)))
  {
    var a := AuthorityAt(literals, text, i);
    var v := AfterAuthority(a, scheme, text);
    var e := AuthorityReads(literals, text, i);
    PathPrints(text, a.end, v.parts.(scheme := None));
    HierarchyPrints(text, i, e, a, v, v.parts.(scheme := None));
  }

  lemma OpaqueReads(literals: set<string>, scheme: Option<string>, text: string, i: nat)
    requires i <= |text| && At(text, i) != '/'
    ensures var v := AfterScheme(literals, scheme, text, i);
      && v.Valid? && v.parts.scheme == scheme && PortRead(text, v.parts.port, v.span)
      && PrintsAround(text, i, v, Stringize(v.parts.(scheme := None)))
  {
    OpaquePrints(AfterScheme(literals, scheme, text, i).parts.(scheme := None));
  }

  lemma PathAloneReads(literals: set<string>, scheme: Option<string>, text: string, i: nat)
    requires i <= |text| && At(text, i) == '/' && At(text, i + 1) != '/'
    ensures var v := AfterScheme(literals, scheme, text, i);
      && v.Valid? && v.parts.scheme == scheme && PortRead(text, v.parts.port, v.span)
      && PrintsAround(text, i, v, Stringize(v.parts.(scheme := None)))
  {
    hide Stringize, StringizePath;
    var u := AfterScheme(literals, scheme, text, i).parts.(scheme := None);
    PathPrints(text, i, u);
    PathAlonePrints(u);
  }

  lemma AfterSchemePrints(literals: set<string>, scheme: Option<string>, text: string, i: nat)
    requires i <= |text| && AfterScheme(literals, scheme, text, i).Valid?
    ensures var v := AfterScheme(literals, scheme, text, i);
      && v.parts.scheme == scheme && PortRead(text, v.parts.port, v.span)
      && PrintsAround(text, i, v, Stringize(v.parts.(scheme := None)))
  {
    hide AfterAuthority, PrintsAround, PortRead, Stringize, PathAt;
    if At(text, i) != '/' {
      OpaqueReads(literals, scheme, text, i);
    } else if At(text, i + 1) != '/' {
      PathAloneReads(literals, scheme, text, i);
    } else {
      AfterAuthorityPrints(literals, scheme, text, i + 2);
    }
  }

  lemma SchemePrints(text: string, s: nat, e: nat, v: Parsed)
    requires s < e < |text| && text[e] == ':' && v.Valid? && v.parts.scheme == Some(text[s..e])
    requires PrintsAround(text, e + 1, v, Stringize(v.parts.(scheme := None)))
    ensures PrintsAround(text, s, v, Stringize(v.parts))
  {
    hide Stringize, PrintedPort;
    SchemePrinted(v.parts);
    assert text[s..e] + ":" == text[s..e + 1];
    match v.span
    case None => Joins(text, s, e + 1, v.end);
    case Some(Span(c, q)) =>
      Joins(text, s, e + 1, c);
      Regroup(text[s..e + 1], text[e + 1..c], PrintedPort(v.parts.port), text[q..v.end]);
  }

  lemma SchemePrinted(u: Parts)
    ensures Stringize(u) == Suffixed(u.scheme, ":") + Stringize(u.(scheme := None))
  {
    var u' := u.(scheme := None);
    assert StringizeAuthority(u') == StringizeAuthority(u) && StringizePath(u') == StringizePath(u);
    var rest := if u.opaquePart.Some? then u.opaquePart.value else StringizeAuthority(u) + StringizePath(u);
    assert "" + rest == rest;
  }

  lemma FromSchemePrints(literals: set<string>, wanted: Option<string>, text: string, s: nat, e: nat)
    requires s <= e <= |text| && FromScheme(literals, wanted, text, s, e).Valid?
    ensures var v := FromScheme(literals, wanted, text, s, e);
      PortRead(text, v.parts.port, v.span) && PrintsAround(text, s, v, Stringize(v.parts))
  {
    hide AfterScheme, PrintsAround, PortRead, Stringize;
    var v := FromScheme(literals, wanted, text, s, e);
    if e == s || At(text, e) != ':' {
      AfterSchemePrints(literals, None, text, s);
      assert v.parts.(scheme := None) == v.parts;
    } else {
      AfterSchemePrints(literals, Some(text[s..e]), text, e + 1);
      SchemePrints(text, s, e, v);
    }
  }

  /** The printed URI, up to the port and after it, is the text after the leading whitespace. */
  lemma UriPrints(literals: set<string>, wanted: Option<string>, text: string, pos: nat)
    requires pos <= |text| && UriAt(literals, wanted, text, pos).Valid?
    ensures var v := UriAt(literals, wanted, text, pos);
      PortRead(text, v.parts.port, v.span) && PrintsAround(text, RunEnd(Space, text, pos), v, Stringize(v.parts))
  {
    var s := RunEnd(Space, text, pos);
    FromSchemePrints(literals, wanted, text, s, RunEnd(SchemeChar, text, s));
  }

  /** Printing a parsed URI gives back exactly the characters consumed just when there was no
      whitespace in front and any port began with a digit other than 0. */
  lemma PrintsWhatWasRead(literals: set<string>, wanted: Option<string>, text: string, pos: nat)
    requires pos <= |text| && UriAt(literals, wanted, text, pos).Valid?
    ensures var v := UriAt(literals, wanted, text, pos);
      Stringize(v.parts) == text[pos..v.end] <==> !IsSpace(At(text, pos)) && PlainPort(text, v.span)
  {
    var v, s := UriAt(literals, wanted, text, pos), RunEnd(Space, text, pos);
    UriPrints(literals, wanted, text, pos);
    if s > pos {
      SpaceInFront(text, pos, s, v, Stringize(v.parts));
    } else {
      PortDecides(text, pos, v, Stringize(v.parts));
    }
  }

  lemma OctalPort(text: string)
    requires text == "//u@h:010"
    ensures AuthorityAt({}, text, 2) == Authority(Some(text[2..3]), text[4..5], 8, Some(Span(5, 9)), 9)
  {
    hide UintAt, PartEnd, LiteralAt;
    OctalEight(text, 6);
    PlainRun(UserInfo, text, 2, 3);
    PlainRun(HostName, text, 4, 5);
  }

  /** Both happen: a port in octal, and whitespace in front. */
  lemma PortPrintsDifferently(text: string)
    requires text == "//u@h:010"
    ensures var v := UriAt({}, None, text, 0);
      v.Valid? && v.parts.port == 8 && v.end == |text| && !PlainPort(text, v.span) && Stringize(v.parts) != text
  {
    hide AuthorityAt, Stringize, UriAt, PathAt;
    OctalPort(text);
    AuthorityFirst({}, text);
    NoPathAtEnd(text);
    assert text[0..9] == text;
    PrintsWhatWasRead({}, None, text, 0);
  }

  lemma OctalEight(text: string, i: nat)
    requires i + 3 == |text| && text[i..] == "010"
    ensures UintAt(16, text, i) == Number(8, i + 3)
  {
    assert text[i] == text[i..][0] && text[i + 1] == text[i..][1] && text[i + 2] == text[i..][2];
    var ds := text[i + 1..i + 3];
    assert ds == "10";
    TenIsEight(ds);
    hide Value, Max, RunEnd;
    RunEndIs(Space, text, i, i);
    RunEndIs(Digit, text, i + 1, i + 3);
  }

  lemma TenIsEight(ds: string)
    requires ds == "10"
    ensures Value(8, ds) == 8 <= Max(16)
  {
    assert ds[..1] == "1" && ds[..1][..0] == "";
    assert Value(8, ds[..1]) == 1;
    assert Pow2(4) == 16;
    Pow2Monotone(4, 16);
  }

  lemma SpacePrintsDifferently(text: string)
    requires text == " x"
    ensures var v := UriAt({}, None, text, 0);
      v.Valid? && v.parts == NO_PARTS.(opaquePart := Some("x")) && v.end == |text| && Stringize(v.parts) != text
  {
    RunEndIs(Space, text, 0, 1);
    RunEndIs(SchemeChar, text, 1, 2);
    RunEndIs(NonSpace, text, 1, 2);
    assert text[1..2] == "x" && text[0..2] == text;
    PrintsWhatWasRead({}, None, text, 0);
  }

  lemma SpaceInFront(text: string, pos: nat, s: nat, v: Parsed, printed: string)
    requires v.Valid? && pos < s && IsSpace(At(text, pos)) && !IsSpace(At(text, s)) && PrintsAround(text, s, v, printed)
    ensures pos < v.end <= |text| && printed != text[pos..v.end]
  {
    if printed != [] { assert printed[0] == text[s]; }
  }

  lemma PortDecides(text: string, pos: nat, v: Parsed, printed: string)
    requires v.Valid? && PrintsAround(text, pos, v, printed) && PortRead(text, v.parts.port, v.span)
    ensures pos <= v.end <= |text| && (printed == text[pos..v.end] <==> PlainPort(text, v.span))
  {
    hide UintAt, PrintedPort;
    if v.span.Some? {
      var Span(c, q) := v.span.value;
      PortPrints(text, v.parts.port, c + 1, q);
      PortInside(text, pos, c, q, v.end, PrintedPort(v.parts.port));
    }
  }

  lemma PortInside(text: string, pos: nat, c: nat, q: nat, end: nat, p: string)
    requires pos < c && c + 1 < q <= end <= |text|
    ensures p == text[c..q] ==> text[pos..c] + p + text[q..end] == text[pos..end]
    ensures p == "" || (|p| > 1 && p[1] != text[c + 1]) ==> text[pos..c] + p + text[q..end] != text[pos..end]
  {
    var r := text[pos..c] + p + text[q..end];
    if p == text[c..q] { Joins(text, pos, c, q); Joins(text, pos, q, end); }
    if |p| > 1 && p[1] != text[c + 1] { assert r[c - pos + 1] == p[1] && text[pos..end][c - pos + 1] == text[c + 1]; }
    assert |r| == (c - pos) + |p| + (end - q);
  }

  // ----- what was printed reads back as the same URI

  /** part is the stretch of the text that starts at a; reading inside it gives the same results. */
  predicate Clip(text: string, part: string, a: nat) {
    a + |part| <= |text| && SameUpTo(text, part, a, |part|)
  }

  predicate SameUpTo(text: string, part: string, a: nat, n: nat)
    requires n <= |part| && a + n <= |text|
  {
    n == 0 || (SameUpTo(text, part, a, n - 1) && part[n - 1] == text[a + n - 1])
  }

  lemma {:induction false} SameAt(text: string, part: string, a: nat, n: nat, k: nat)
    requires k < n <= |part| && a + n <= |text| && SameUpTo(text, part, a, n)
    ensures part[k] == text[a + k]
  {
    if k < n - 1 { SameAt(text, part, a, n - 1, k); }
  }

  lemma {:induction false} SliceIsSame(text: string, a: nat, b: nat, n: nat)
    requires a <= b <= |text| && n <= b - a
    ensures SameUpTo(text, text[a..b], a, n)
  {
    if n > 0 { SliceIsSame(text, a, b, n - 1); }
  }

  lemma SubClip(text: string, part: string, a: nat, p: nat, q: nat)
    requires Clip(text, part, a) && p <= q <= |part|
    ensures part[p..q] == text[a + p..a + q]
  {
    forall k | p <= k < q ensures part[k] == text[a + k] { AtClip(text, part, a, k); }
  }

  lemma ElementClip(kind: Part, text: string, part: string, a: nat, i: nat)
    requires Clip(text, part, a) && i <= |part|
    requires i + ElementLength(kind, text, a + i) <= |part|
    ensures ElementLength(kind, part, i) == ElementLength(kind, text, a + i)
  {
    if i < |part| {
      AtClip(text, part, a, i);
      EscapeClip(text, part, a, i);
    }
  }

  lemma EscapeClip(text: string, part: string, a: nat, i: nat)
    requires Clip(text, part, a) && i < |part|
    requires EscapeLength(text, a + i) == 0 || i + EscapeLength(text, a + i) <= |part|
    ensures EscapeLength(part, i) == EscapeLength(text, a + i)
  {
    AtClip(text, part, a, i);
    AtClip(text, part, a, i + 1);
    AtClip(text, part, a, i + 2);
    AtClip(text, part, a, i + 3);
    AtClip(text, part, a, i + 4);
    AtClip(text, part, a, i + 5);
  }

  lemma AtClip(text: string, part: string, a: nat, i: nat)
    requires Clip(text, part, a)
    ensures At(part, i) == if i < |part| then At(text, a + i) else NUL
  {
    if i < |part| { SameAt(text, part, a, |part|, i); }
  }

  lemma {:induction false} PartClip(kind: Part, text: string, part: string, a: nat, i: nat)
    requires Clip(text, part, a) && i <= |part| && PartEnd(kind, text, a + i) <= a + |part|
    ensures PartEnd(kind, part, i) == PartEnd(kind, text, a + i) - a
    decreases |part| - i
  {
    hide ElementLength, Clip;
    var l := ElementLength(kind, text, a + i);
    ClipFits(text, part, a);
    ElementClip(kind, text, part, a, i);
    if l > 0 {
      assert PartEnd(kind, text, a + i) == PartEnd(kind, text, a + (i + l));
      PartClip(kind, text, part, a, i + l);
    }
  }

  lemma RunClip(cl: Class, text: string, part: string, a: nat, i: nat)
    requires Clip(text, part, a) && i <= |part| && RunEnd(cl, text, a + i) <= a + |part|
    ensures RunEnd(cl, part, i) == RunEnd(cl, text, a + i) - a
  {
    var e := RunEnd(cl, text, a + i) - a;
    forall k | i <= k < e ensures In(cl, part[k]) { AtClip(text, part, a, k); assert In(cl, text[a + k]); }
    AtClip(text, part, a, e);
    assert !In(cl, At(part, e));
    RunEndIs(cl, part, i, e);
  }

  lemma PartTextClip(kind: Part, text: string, part: string, a: nat, i: nat)
    requires Clip(text, part, a) && i <= |part| && PartEnd(kind, text, a + i) <= a + |part|
    ensures PartEnd(kind, part, i) == PartEnd(kind, text, a + i) - a
    ensures part[i..PartEnd(kind, part, i)] == text[a + i..PartEnd(kind, text, a + i)]
  {
    PartClip(kind, text, part, a, i);
    SubClip(text, part, a, i, PartEnd(kind, part, i));
  }

  lemma MarkedClip(mark: char, kind: Part, text: string, part: string, a: nat, i: nat)
    requires Clip(text, part, a) && i <= |part| && mark != NUL && MarkedAt(mark, kind, text, a + i).1 <= a + |part|
    ensures MarkedAt(mark, kind, part, i) == (MarkedAt(mark, kind, text, a + i).0, MarkedAt(mark, kind, text, a + i).1 - a)
  {
    hide PartEnd, Clip;
    ClipFits(text, part, a);
    AtClip(text, part, a, i);
    if At(text, a + i) == mark { PartTextClip(kind, text, part, a, i + 1); }
  }

  lemma QueryClip(path: Option<string>, text: string, part: string, a: nat, i: nat)
    requires Clip(text, part, a) && i <= |part| && QueryAndFragment(path, text, a + i).end <= a + |part|
    ensures var h := QueryAndFragment(path, text, a + i); QueryAndFragment(path, part, i) == h.(end := h.end - a)
  {
    hide MarkedAt, Clip, PartEnd;
    var q := MarkedAt('?', QueryChars, text, a + i).1;
    ClipFits(text, part, a);
    MarkedClip('?', QueryChars, text, part, a, i);
    MarkedClip('#', PathChars, text, part, a, q - a);
  }

  lemma PathClip(text: string, part: string, a: nat, i: nat)
    requires Clip(text, part, a) && i <= |part| && PathAt(text, a + i).end <= a + |part|
    ensures var h := PathAt(text, a + i); PathAt(part, i) == h.(end := h.end - a)
  {
    hide QueryAndFragment, PartEnd, Clip;
    var e := PartEnd(PathChars, text, a + i);
    PartTextClip(PathChars, text, part, a, i);
    QueryClip(if e == a + i then None else Some(text[a + i..e]), text, part, a, e - a);
  }

  lemma LiteralClip(literals: set<string>, text: string, part: string, a: nat, i: nat)
    requires Clip(text, part, a) && i < |part|
    requires LiteralAt(literals, text, a + i).HostTo? && LiteralAt(literals, text, a + i).end <= a + |part|
    ensures LiteralAt(literals, part, i) == HostTo(LiteralAt(literals, text, a + i).end - a)
  {
    RunClip(LiteralChar, text, part, a, i + 1);
    var e := RunEnd(LiteralChar, part, i + 1);
    SubClip(text, part, a, i + 1, e);
    AtClip(text, part, a, e);
  }

  /** The same authority, read a characters further on. */
  predicate Shifted(r: Authority, r': Authority, a: nat) {
    && r.Authority? && r'.Authority? && r'.userinfo == r.userinfo && r'.host == r.host && r'.port == r.port
    && r.end == r'.end + a
  }

  lemma PortClip(user: Option<string>, text: string, part: string, a: nat, i: nat, e: nat)
    requires Clip(text, part, a) && i < e <= |part| && PortAt(user, text, a + i, a + e).Authority?
    requires var r := PortAt(user, text, a + i, a + e); r.end <= a + |part| && PlainPort(text, r.span)
    ensures Shifted(PortAt(user, text, a + i, a + e), PortAt(user, part, i, e), a)
  {
    hide UintAt, Clip;
    SubClip(text, part, a, i, e);
    AtClip(text, part, a, e);
    if At(text, a + e) == ':' {
      PlainClip(text, part, a, e + 1);
    }
  }

  lemma PlainClip(text: string, part: string, a: nat, i: nat)
    requires Clip(text, part, a) && a + i < |text| && '1' <= text[a + i] <= '9'
    requires UintAt(16, text, a + i).Number? && UintAt(16, text, a + i).end <= a + |part|
    ensures i <= |part| && UintAt(16, part, i) == Number(UintAt(16, text, a + i).value, UintAt(16, text, a + i).end - a)
  {
    hide UintAt, Decimal, Value, Clip;
    DecimalTokenIsItsNumeral(16, text, a + i);
    AtClip(text, part, a, i);
    DecimalTokenIsItsNumeral(16, part, i);
    DigitsClip(text, part, a, i);
  }

  lemma DigitsClip(text: string, part: string, a: nat, i: nat)
    requires Clip(text, part, a) && i <= |part| && RunEnd(Digit, text, a + i) <= a + |part|
    ensures RunEnd(Digit, part, i) == RunEnd(Digit, text, a + i) - a
    ensures Value(10, part[i..RunEnd(Digit, part, i)]) == Value(10, text[a + i..RunEnd(Digit, text, a + i)])
  {
    RunClip(Digit, text, part, a, i);
    SubClip(text, part, a, i, RunEnd(Digit, part, i));
  }

  lemma HostClip(literals: set<string>, text: string, part: string, a: nat, i: nat)
    requires Clip(text, part, a) && i <= |part|
    requires HostAt(literals, text, a + i).HostTo? && HostAt(literals, text, a + i).end <= a + |part|
    ensures HostAt(literals, part, i) == HostTo(HostAt(literals, text, a + i).end - a)
  {
    AtClip(text, part, a, i);
    if At(text, a + i) == '[' {
      LiteralClip(literals, text, part, a, i);
    } else {
      PartClip(HostName, text, part, a, i);
    }
  }

  lemma UserOrHostClip(literals: set<string>, text: string, part: string, a: nat, i: nat, e: nat)
    requires Clip(text, part, a) && i <= e <= |part| && UserOrHost(literals, text, a + i, a + e).Authority?
    requires var r := UserOrHost(literals, text, a + i, a + e); r.end <= a + |part| && PlainPort(text, r.span)
    ensures Shifted(UserOrHost(literals, text, a + i, a + e), UserOrHost(literals, part, i, e), a)
  {
    hide PortAt, HostAt, Clip, Shifted;
    AtClip(text, part, a, e);
    if At(text, a + e) == '@' {
      SubClip(text, part, a, i, e);
      HostClip(literals, text, part, a, e + 1);
      PortClip(Some(part[i..e]), text, part, a, e + 1, HostAt(literals, part, e + 1).end);
    } else {
      PortClip(None, text, part, a, i, e);
    }
  }

  lemma LiteralPortClip(literals: set<string>, text: string, part: string, a: nat, i: nat)
    requires Clip(text, part, a) && i < |part| && PortAfter(None, LiteralAt(literals, text, a + i), text, a + i).Authority?
    requires var r := PortAfter(None, LiteralAt(literals, text, a + i), text, a + i); r.end <= a + |part| && PlainPort(text, r.span)
    ensures Shifted(PortAfter(None, LiteralAt(literals, text, a + i), text, a + i),
                    PortAfter(None, LiteralAt(literals, part, i), part, i), a)
  {
    hide LiteralAt, PortAt, PlainPort, Shifted, Clip;
    LiteralClip(literals, text, part, a, i);
    PortClip(None, text, part, a, i, LiteralAt(literals, part, i).end);
  }

  lemma AuthorityClip(literals: set<string>, text: string, part: string, a: nat, i: nat)
    requires Clip(text, part, a) && i <= |part| && AuthorityAt(literals, text, a + i).Authority?
    requires var r := AuthorityAt(literals, text, a + i); r.end <= a + |part| && PlainPort(text, r.span)
    ensures Shifted(AuthorityAt(literals, text, a + i), AuthorityAt(literals, part, i), a)
  {
    hide LiteralAt, Shifted, Clip;
    AtClip(text, part, a, i);
    if At(text, a + i) == '[' {
      LiteralPortClip(literals, text, part, a, i);
    } else {
      PartClip(UserInfo, text, part, a, i);
      UserOrHostClip(literals, text, part, a, i, PartEnd(UserInfo, part, i));
    }
  }

  lemma HierarchyClip(r: Authority, r': Authority, scheme: Option<string>, text: string, part: string, a: nat)
    requires Clip(text, part, a) && Shifted(r, r', a) && r.end <= a + |part|
    requires AfterAuthority(r, scheme, text).Valid? && AfterAuthority(r, scheme, text).end == a + |part|
    ensures SameUri(AfterAuthority(r, scheme, text), AfterAuthority(r', scheme, part), part)
  {
    PathClip(text, part, a, r'.end);
  }

  lemma AfterSchemeClip(literals: set<string>, scheme: Option<string>, text: string, part: string, a: nat, i: nat)
    requires Clip(text, part, a) && i <= |part| && AfterScheme(literals, scheme, text, a + i).Valid?
    requires var v := AfterScheme(literals, scheme, text, a + i); v.end == a + |part| && PlainPort(text, v.span)
    ensures SameUri(AfterScheme(literals, scheme, text, a + i), AfterScheme(literals, scheme, part, i), part)
  {
    AtClip(text, part, a, i);
    if At(text, a + i) != '/' {
      RunClip(NonSpace, text, part, a, i);
      SubClip(text, part, a, i, |part|);
    } else {
      AtClip(text, part, a, i + 1);
      if At(text, a + i + 1) != '/' {
        PathClip(text, part, a, i);
      } else {
        AuthorityClip(literals, text, part, a, i + 2);
        HierarchyClip(AuthorityAt(literals, text, a + i + 2), AuthorityAt(literals, part, i + 2), scheme, text, part, a);
      }
    }
  }

  lemma PlainPrints(literals: set<string>, wanted: Option<string>, text: string, pos: nat)
    requires pos <= |text| && UriAt(literals, wanted, text, pos).Valid?
    requires PlainPort(text, UriAt(literals, wanted, text, pos).span)
    ensures var v, s := UriAt(literals, wanted, text, pos), RunEnd(Space, text, pos);
      s + |Stringize(v.parts)| == v.end && Clip(text, Stringize(v.parts), s)
  {
    hide FromScheme, Stringize, PrintsAround, PortRead, PlainPort, Clip;
    var v, s := UriAt(literals, wanted, text, pos), RunEnd(Space, text, pos);
    UriPrints(literals, wanted, text, pos);
    PortDecides(text, s, v, Stringize(v.parts));
    SliceClips(text, s, v.end);
  }

  lemma SliceClips(text: string, a: nat, b: nat)
    requires a <= b <= |text|
    ensures Clip(text, text[a..b], a)
  {
    SliceIsSame(text, a, b, b - a);
  }

  /** With a plain port or none, what is printed is the text itself. */
  lemma PlainReadsBack(literals: set<string>, wanted: Option<string>, text: string, pos: nat)
    requires pos <= |text| && UriAt(literals, wanted, text, pos).Valid?
    requires PlainPort(text, UriAt(literals, wanted, text, pos).span)
    ensures var v := UriAt(literals, wanted, text, pos);
      SameUri(v, UriAt(literals, None, Stringize(v.parts), 0), Stringize(v.parts))
  {
    hide FromScheme, SameUri, Clip, Stringize, PlainPort;
    var v, s := UriAt(literals, wanted, text, pos), RunEnd(Space, text, pos);
    var printed := Stringize(v.parts);
    PlainPrints(literals, wanted, text, pos);
    SchemeRunInside(literals, wanted, text, s, v);
    var e := RunEnd(SchemeChar, text, s) - s;
    AtStart(text, printed, s, e);
    FromSchemeClip(literals, wanted, text, printed, s, e);
  }

  lemma AtStart(text: string, part: string, s: nat, e: nat)
    requires Clip(text, part, s) && !IsSpace(At(text, s)) && RunEnd(SchemeChar, text, s) == s + e && e <= |part|
    ensures RunEnd(Space, part, 0) == 0 && RunEnd(SchemeChar, part, 0) == e
  {
    AtClip(text, part, s, 0);
    RunEndIs(Space, part, 0, 0);
    RunClip(SchemeChar, text, part, s, 0);
  }

  /** The same URI, read to the end of the shorter text. */
  predicate SameUri(v: Parsed, v': Parsed, part: string) {
    v.Valid? && v'.Valid? && v'.parts == v.parts && v'.end == |part|
  }

  lemma NoSchemeClip(literals: set<string>, wanted: Option<string>, text: string, part: string, s: nat, e: nat)
    requires Clip(text, part, s) && e <= |part| && FromScheme(literals, wanted, text, s, s + e).Valid?
    requires var v := FromScheme(literals, wanted, text, s, s + e); s + |part| == v.end && PlainPort(text, v.span)
    requires e == 0 || At(text, s + e) != ':'
    ensures SameUri(FromScheme(literals, wanted, text, s, s + e), FromScheme(literals, None, part, 0, e), part)
  {
    hide AfterScheme, Clip, SameUri;
    AtClip(text, part, s, e);
    AfterSchemeClip(literals, None, text, part, s, 0);
  }

  lemma SchemeClip(literals: set<string>, wanted: Option<string>, text: string, part: string, s: nat, e: nat)
    requires Clip(text, part, s) && e <= |part| && FromScheme(literals, wanted, text, s, s + e).Valid?
    requires var v := FromScheme(literals, wanted, text, s, s + e); s + |part| == v.end && PlainPort(text, v.span)
    requires e > 0 && At(text, s + e) == ':'
    ensures SameUri(FromScheme(literals, wanted, text, s, s + e), FromScheme(literals, None, part, 0, e), part)
  {
    hide AfterScheme, Clip, SameUri;
    AtClip(text, part, s, e);
    var scheme := part[0..e];
    assert scheme == text[s..s + e] by { SubClip(text, part, s, 0, e); }
    AfterSchemeClip(literals, Some(scheme), text, part, s, e + 1);
  }

  lemma FromSchemeClip(literals: set<string>, wanted: Option<string>, text: string, part: string, s: nat, e: nat)
    requires Clip(text, part, s) && e <= |part| && FromScheme(literals, wanted, text, s, s + e).Valid?
    requires var v := FromScheme(literals, wanted, text, s, s + e); s + |part| == v.end && PlainPort(text, v.span)
    ensures SameUri(FromScheme(literals, wanted, text, s, s + e), FromScheme(literals, None, part, 0, e), part)
  {
    hide FromScheme, Clip, SameUri;
    if e == 0 || At(text, s + e) != ':' {
      NoSchemeClip(literals, wanted, text, part, s, e);
    } else {
      SchemeClip(literals, wanted, text, part, s, e);
    }
  }

  /** The run of scheme characters ends no later than the URI, scheme or not. */
  lemma SchemeRunInside(literals: set<string>, wanted: Option<string>, text: string, s: nat, v: Parsed)
    requires s <= |text| && v == FromScheme(literals, wanted, text, s, RunEnd(SchemeChar, text, s)) && v.Valid?
    ensures RunEnd(SchemeChar, text, s) <= v.end
  {
    var e := RunEnd(SchemeChar, text, s);
    if At(text, s) != '/' {
      forall k | s <= k < e ensures In(NonSpace, text[k]) { assert In(SchemeChar, text[k]); }
      if e > s { PastTheRun(NonSpace, text, s, e - 1); }
    }
  }

  // ----- any port: printed = front + PrintedPort(port) + rest

  lemma ElementUnclip(kind: Part, text: string, part: string, a: nat, i: nat)
    requires Clip(text, part, a) && i <= |part| && ElementLength(kind, part, i) > 0
    ensures ElementLength(kind, text, a + i) == ElementLength(kind, part, i)
  {
    AtClip(text, part, a, i);
    AtClip(text, part, a, i + 1);
    AtClip(text, part, a, i + 2);
    AtClip(text, part, a, i + 3);
    AtClip(text, part, a, i + 4);
    AtClip(text, part, a, i + 5);
  }

  lemma ClipFits(text: string, part: string, a: nat)
    requires Clip(text, part, a)
    ensures a + |part| <= |text|
  {
  }

  /** A run that reaches the end of the part goes on with what follows. */
  lemma {:induction false} PartThrough(kind: Part, text: string, part: string, i: nat)
    requires Clip(text, part, 0) && i <= |part|
    requires PartEnd(kind, part, i) == |part| || ElementLength(kind, text, PartEnd(kind, part, i)) == 0
    ensures PartEnd(kind, text, i) == PartEnd(kind, text, PartEnd(kind, part, i))
    decreases |part| - i
  {
    hide ElementLength, Clip;
    var l := ElementLength(kind, part, i);
    ClipFits(text, part, 0);
    if l > 0 {
      ElementUnclip(kind, text, part, 0, i);
      PartThrough(kind, text, part, i + l);
    }
  }

  lemma RunUnclip(cl: Class, text: string, part: string, i: nat)
    requires Clip(text, part, 0) && i <= |part| && RunEnd(cl, part, i) < |part|
    ensures RunEnd(cl, text, i) == RunEnd(cl, part, i)
  {
    var e := RunEnd(cl, part, i);
    forall k | i <= k < e ensures In(cl, text[k]) { AtClip(text, part, 0, k); assert In(cl, part[k]); }
    AtClip(text, part, 0, e);
    RunEndIs(cl, text, i, e);
  }

  /** A literal that ends with the part. */
  lemma LiteralAgain(literals: set<string>, text: string, part: string, printed: string, a: nat, i: nat)
    requires Clip(text, part, a) && Clip(printed, part, 0) && i < |part|
    requires LiteralAt(literals, text, a + i) == HostTo(a + |part|)
    ensures LiteralAt(literals, printed, i) == HostTo(|part|)
  {
    LiteralClip(literals, text, part, a, i);
    var e := RunEnd(LiteralChar, part, i + 1);
    RunUnclip(LiteralChar, printed, part, i + 1);
    AtClip(printed, part, 0, e);
    SubClip(printed, part, 0, i + 1, e);
  }

  /** Whether the host that ends at c is a literal. */
  predicate Bracketed(text: string, c: nat) { c > 0 && At(text, c - 1) == ']' }

  /** The host at h in what is printed: a literal as it was, any other as far as it goes now. */
  function HostAgain(text: string, c: nat, printed: string, n: nat, h: nat): nat
    requires h <= |printed|
  {
    if Bracketed(text, c) then n else PartEnd(HostName, printed, h)
  }

  lemma HostReadAgain(literals: set<string>, text: string, part: string, printed: string, a: nat, h: nat)
    requires Clip(text, part, a) && Clip(printed, part, 0) && h < |part| && HostAt(literals, text, a + h) == HostTo(a + |part|)
    ensures h <= |printed| && HostAt(literals, printed, h) == HostTo(HostAgain(text, a + |part|, printed, |part|, h))
    ensures !Bracketed(text, a + |part|) ==> PartEnd(HostName, part, h) == |part|
  {
    hide ElementLength, Clip, LiteralAt, PartEnd;
    ClipFits(printed, part, 0);
    AtClip(text, part, a, h);
    AtClip(printed, part, 0, h);
    if At(text, a + h) == '[' {
      LiteralAgain(literals, text, part, printed, a, h);
      BracketAtEnd(literals, text, a + h);
    } else {
      PartClip(HostName, text, part, a, h);
      NameHasNoBracket(text, a + h);
      PartThrough(HostName, printed, part, h);
    }
  }

  lemma {:induction false} NameHasNoBracket(text: string, i: nat)
    requires i <= |text| && PartEnd(HostName, text, i) > i
    ensures !Bracketed(text, PartEnd(HostName, text, i))
    decreases |text| - i
  {
    var l := ElementLength(HostName, text, i);
    if PartEnd(HostName, text, i + l) > i + l { NameHasNoBracket(text, i + l); }
  }

  /** The same host once more, but for what now follows it. */
  lemma AuthorityAgain(literals: set<string>, text: string, part: string, printed: string, a: nat, i: nat) returns (h: nat)
    requires Clip(text, part, a) && Clip(printed, part, 0) && i <= |part| && AuthorityAt(literals, text, a + i).Authority?
    requires var r := AuthorityAt(literals, text, a + i); r.span.Some? && r.span.value.colon == a + |part|
    ensures i <= h < |part| && part[h..] == AuthorityAt(literals, text, a + i).host
    ensures h <= |printed|
    ensures var e := HostAgain(text, a + |part|, printed, |part|, h);
      h < e <= |printed| && AuthorityAt(literals, printed, i) == PortAt(AuthorityAt(literals, text, a + i).userinfo, printed, h, e)
    ensures !Bracketed(text, a + |part|) ==> PartEnd(HostName, part, h) == |part|
  {
    hide PortAt, LiteralAt, HostAgain, Clip, HostAt, PartEnd, UserOrHost, UintAt;
    AtClip(text, part, a, i);
    AtClip(printed, part, 0, i);
    ClipFits(printed, part, 0);
    h := SpanAfterHost(literals, text, a, i, |part|);
    SubClip(text, part, a, h, |part|);
    if At(text, a + i) == '[' {
      LiteralAgain(literals, text, part, printed, a, i);
      BracketAtEnd(literals, text, a + i);
      BracketedAgain(text, a + |part|, printed, |part|, h);
    } else {
      UserAgain(text, part, printed, a, i, h);
      HostReadAgain(literals, text, part, printed, a, h);
      UserThenHost(literals, printed, i, h);
    }
  }

  lemma UserThenHost(literals: set<string>, text: string, i: nat, h: nat)
    requires i < h - 1 < h <= |text| && At(text, i) != '['
    requires PartEnd(UserInfo, text, i) == h - 1 && At(text, h - 1) == '@' && HostAt(literals, text, h).HostTo?
    ensures AuthorityAt(literals, text, i) == PortAt(Some(text[i..h - 1]), text, h, HostAt(literals, text, h).end)
  {
    hide PortAt, HostAt, PartEnd;
  }

  lemma BracketedAgain(text: string, c: nat, printed: string, n: nat, h: nat)
    requires Bracketed(text, c) && h <= |printed|
    ensures HostAgain(text, c, printed, n, h) == n
  {
  }

  lemma BracketAtEnd(literals: set<string>, text: string, i: nat)
    requires i < |text| && LiteralAt(literals, text, i).HostTo?
    ensures Bracketed(text, LiteralAt(literals, text, i).end)
  {
  }

  lemma SpanAfterHost(literals: set<string>, text: string, a: nat, i: nat, n: nat) returns (h: nat)
    requires a + i <= |text| && AuthorityAt(literals, text, a + i).Authority?
    requires var r := AuthorityAt(literals, text, a + i); r.span.Some? && r.span.value.colon == a + n
    ensures i <= h < n && a + n <= |text| && AuthorityAt(literals, text, a + i).host == text[a + h..a + n]
    ensures if At(text, a + i) == '[' then h == i && LiteralAt(literals, text, a + i) == HostTo(a + n)
                                           && AuthorityAt(literals, text, a + i).userinfo == None
            else var e := PartEnd(UserInfo, text, a + i);
              && a + h == e + 1 && e > a + i && At(text, e) == '@' && HostAt(literals, text, a + h) == HostTo(a + n)
              && AuthorityAt(literals, text, a + i).userinfo == Some(text[a + i..e])
  {
    hide UintAt, LiteralAt, HostAt, PartEnd;
    UserEndsAt(text, a + i);
    h := if At(text, a + i) == '[' then i else PartEnd(UserInfo, text, a + i) + 1 - a;
  }

  lemma UserEndsAt(text: string, i: nat)
    requires i <= |text|
    ensures At(text, PartEnd(UserInfo, text, i)) != ':'
  {
    assert ElementLength(UserInfo, text, PartEnd(UserInfo, text, i)) == 0;
  }

  lemma UserAgain(text: string, part: string, printed: string, a: nat, i: nat, h: nat)
    requires Clip(text, part, a) && Clip(printed, part, 0) && i < h < |part|
    requires PartEnd(UserInfo, text, a + i) == a + h - 1 && At(text, a + h - 1) == '@'
    ensures PartEnd(UserInfo, printed, i) == h - 1 && At(printed, h - 1) == '@' && printed[i..h - 1] == text[a + i..a + h - 1]
  {
    PartClip(UserInfo, text, part, a, i);
    AtClip(text, part, a, h - 1);
    AtClip(printed, part, 0, h - 1);
    PartThrough(UserInfo, printed, part, i);
    SubClip(text, part, a, i, h - 1);
    SubClip(printed, part, 0, i, h - 1);
  }

  /** Where the authority starts, counted from the end of the whitespace, in the text and in what is
      printed. */
  lemma AuthorityStart(literals: set<string>, wanted: Option<string>, text: string, pos: nat, part: string, printed: string)
    returns (scheme: Option<string>, i: nat)
    requires pos <= |text| && UriAt(literals, wanted, text, pos).Valid?
    requires var v, s := UriAt(literals, wanted, text, pos), RunEnd(Space, text, pos);
      v.span.Some? && s + |part| == v.span.value.colon
      && Clip(text, part, s) && Clip(printed, part, 0)
    ensures var v, s := UriAt(literals, wanted, text, pos), RunEnd(Space, text, pos);
      && 2 <= i < |part| && v == AfterAuthority(AuthorityAt(literals, text, s + i), scheme, text)
      && UriAt(literals, None, printed, 0) == AfterAuthority(AuthorityAt(literals, printed, i), scheme, printed)
  {
    hide AuthorityAt, Clip, AfterAuthority, RunEnd;
    var s := RunEnd(Space, text, pos);
    var e := RunEnd(SchemeChar, text, s);
    if e > s && At(text, e) == ':' {
      scheme, i := Some(text[s..e]), e + 3 - s;
      SpanInside(literals, scheme, text, e + 1);
      SchemeAgain(text, part, printed, s, e);
      SlashesAgain(text, part, printed, s, e + 1 - s);
    } else {
      scheme, i := None, 2;
      SpanInside(literals, scheme, text, s);
      SlashesAgain(text, part, printed, s, 0);
      RunEndIs(Space, printed, 0, 0);
      RunEndIs(SchemeChar, printed, 0, 0);
    }
  }

  /** A port is there only with an authority, and in it. */
  lemma SpanInside(literals: set<string>, scheme: Option<string>, text: string, j: nat)
    requires j <= |text|
    ensures var v := AfterScheme(literals, scheme, text, j);
      v.Valid? && v.span.Some? ==> At(text, j) == '/' && At(text, j + 1) == '/' && j + 2 < v.span.value.colon
  {
    hide AuthorityAt, PathAt;
    if At(text, j) == '/' && At(text, j + 1) == '/' && AuthorityAt(literals, text, j + 2).Authority? {
      var _ := AuthorityReads(literals, text, j + 2);
    }
  }

  lemma SlashesAgain(text: string, part: string, printed: string, a: nat, j: nat)
    requires Clip(text, part, a) && Clip(printed, part, 0) && j + 1 < |part|
    ensures At(printed, j) == At(text, a + j) && At(printed, j + 1) == At(text, a + j + 1) && |part| <= |printed|
  {
    AtClip(text, part, a, j);
    AtClip(printed, part, 0, j);
    AtClip(text, part, a, j + 1);
    AtClip(printed, part, 0, j + 1);
  }

  lemma SchemeAgain(text: string, part: string, printed: string, s: nat, e: nat)
    requires s <= |text| && s < e == RunEnd(SchemeChar, text, s) && Clip(text, part, s) && Clip(printed, part, 0) && e - s < |part|
    requires At(text, e) == ':'
    ensures RunEnd(Space, printed, 0) == 0 && RunEnd(SchemeChar, printed, 0) == e - s && At(printed, e - s) == ':'
    ensures e <= |text| && |part| <= |printed| && printed[0..e - s] == text[s..e]
  {
    hide Clip, RunEnd;
    ClipFits(printed, part, 0);
    AtClip(text, part, s, 0);
    AtClip(printed, part, 0, 0);
    RunEndIs(Space, printed, 0, 0);
    RunClip(SchemeChar, text, part, s, 0);
    RunUnclip(SchemeChar, printed, part, 0);
    AtClip(text, part, s, e - s);
    AtClip(printed, part, 0, e - s);
    SubClip(text, part, s, 0, e - s);
    SubClip(printed, part, 0, 0, e - s);
  }

  lemma PathAgain(text: string, q: nat, printed: string, q': nat)
    requires q <= |text| && q' <= |printed| && printed[q'..] == text[q..PathAt(text, q).end]
    ensures PathAt(printed, q') == PathAt(text, q).(end := |printed|)
  {
    hide PathAt;
    var rest := printed[q'..];
    assert rest == printed[q'..|printed|];
    SliceClips(text, q, PathAt(text, q).end);
    SliceClips(printed, q', |printed|);
    PathClip(text, rest, q, 0);
    PathClip(printed, rest, q', 0);
  }

  /** What belongs to a host or is ':' belongs to a path as well. */
  lemma PathTakesHostChars(text: string, q: nat)
    requires q <= |text|
    ensures q + ElementLength(HostName, text, q) <= PathAt(text, q).end
    ensures At(text, q) == ':' ==> q < PathAt(text, q).end
  {
  }

  lemma NextAgain(text: string, q: nat, printed: string, n: nat)
    requires q <= |text| && n <= |printed| && printed[n..] == text[q..PathAt(text, q).end]
    ensures ElementLength(HostName, printed, n) == ElementLength(HostName, text, q)
    ensures At(printed, n) == ':' <==> At(text, q) == ':'
  {
    hide PathAt, ElementLength;
    var rest := printed[n..];
    assert rest == printed[n..|printed|];
    SliceClips(text, q, PathAt(text, q).end);
    SliceClips(printed, n, |printed|);
    PathTakesHostChars(text, q);
    AtClip(text, rest, q, 0);
    AtClip(printed, rest, n, 0);
    ElementClip(HostName, text, rest, q, 0);
    ElementInside(HostName, printed, n);
    ElementClip(HostName, printed, rest, n, 0);
  }

  lemma ElementInside(kind: Part, text: string, i: nat)
    requires i <= |text|
    ensures i + ElementLength(kind, text, i) <= |text|
  {
  }

  lemma NoDigitAfter(text: string, i: nat)
    requires i <= |text| && UintAt(16, text, i).Number? && UintAt(16, text, i).value > 0
    ensures !IsDigit(At(text, UintAt(16, text, i).end))
  {
  }

  /** A port other than 0 is read again after the same host. */
  lemma PortAgain(text: string, c: nat, q: nat, port: nat, front: string, rest: string)
    requires c < q <= |text| && UintAt(16, text, c + 1) == Number(port, q) && port > 0
    requires q + |rest| <= |text| && rest == text[q..q + |rest|]
    ensures var printed := front + PrintedPort(port) + rest;
      && At(printed, |front|) == ':' && |front| + |PrintedPort(port)| + |rest| == |printed|
      && UintAt(16, printed, |front| + 1) == Number(port, |front| + |PrintedPort(port)|)
  {
    hide UintAt, Decimal, PrintedPort;
    PortFits(text, port, c + 1, q);
    PortPrinted(port);
    NoDigitAfter(text, c + 1);
    FitsIn16(port);
    LexesDecimal(16, front + ":", port, rest);
    assert front + (":" + Decimal(port)) + rest == (front + ":") + Decimal(port) + rest;
  }

  lemma FitsIn16(port: nat)
    requires port < 0x10000
    ensures port <= Max(16)
  {
    assert Pow2(4) == 16 && Pow2(8) == 256 && Pow2(12) == 4096 && Pow2(16) == 0x10000;
  }

  /** Where a port that is not printed has stood, what follows it goes on as part of the host, or is
      a ':'. */
  predicate Reattaches(text: string, c: nat, q: nat) {
    At(text, q) == ':' || (!Bracketed(text, c) && ElementLength(HostName, text, q) > 0)
  }

  predicate PortKept(text: string, v: Parsed)
    requires v.Valid?
  {
    match v.span
    case None => true
    case Some(Span(c, q)) => v.parts.port != 0 || !Reattaches(text, c, q)
  }

  /** How a host at h that ended with front is read again. */
  predicate HostStays(text: string, c: nat, front: string, printed: string, h: nat)
    requires h <= |printed|
  {
    HostAgain(text, c, printed, |front|, h) == |front|
  }

  lemma HostStaysBeforeColon(text: string, c: nat, front: string, printed: string, h: nat)
    requires Clip(printed, front, 0) && h <= |front| && (!Bracketed(text, c) ==> PartEnd(HostName, front, h) == |front|)
    ensures h <= |printed| && |front| <= |printed|
    ensures HostStays(text, c, front, printed, h) <==> Bracketed(text, c) || ElementLength(HostName, printed, |front|) == 0
    ensures !HostStays(text, c, front, printed, h) ==> HostAgain(text, c, printed, |front|, h) > |front|
  {
    hide Clip, ElementLength;
    ClipFits(printed, front, 0);
    if !Bracketed(text, c) {
      PartThrough(HostName, printed, front, h);
      ElementInside(HostName, printed, |front|);
    }
  }

  /** A text that is read with a port of 0 is not what is printed of it. */
  lemma ZeroIsNotPrinted(literals: set<string>, printed: string)
    requires var v := UriAt(literals, None, printed, 0); v.Valid? && v.span.Some? && v.parts.port == 0
    ensures Stringize(UriAt(literals, None, printed, 0).parts) != printed
  {
    hide UriAt, Stringize;
    UriPrints(literals, None, printed, 0);
  }

  /** What is printed around a port that was read, cut in three. */
  lemma PrintedInThree(literals: set<string>, wanted: Option<string>, text: string, pos: nat) returns (front: string, rest: string)
    requires pos <= |text| && UriAt(literals, wanted, text, pos).Valid? && UriAt(literals, wanted, text, pos).span.Some?
    ensures var v, s := UriAt(literals, wanted, text, pos), RunEnd(Space, text, pos);
      var Span(c, q) := v.span.value;
      && s < c < q <= v.end <= |text| && front == text[s..c] && rest == text[q..v.end]
      && Stringize(v.parts) == front + PrintedPort(v.parts.port) + rest
      && UintAt(16, text, c + 1) == Number(v.parts.port, q)
      && Clip(text, front, s) && Clip(Stringize(v.parts), front, 0)
  {
    hide UriAt, Stringize, UintAt, Clip;
    var v, s := UriAt(literals, wanted, text, pos), RunEnd(Space, text, pos);
    UriPrints(literals, wanted, text, pos);
    var Span(c, q) := v.span.value;
    front, rest := text[s..c], text[q..v.end];
    SliceClips(text, s, c);
    SliceClips(Stringize(v.parts), 0, |front|);
    assert Stringize(v.parts)[0..|front|] == front;
  }

  /** Read again, the port is the same unless it was not printed and a ':' comes in its place. */
  lemma AuthorityReread(user: Option<string>, text: string, c: nat, q: nat, port: nat, front: string, rest: string, h: nat)
    requires c < q <= |text| && UintAt(16, text, c + 1) == Number(port, q) && h <= |front|
    requires q + |rest| <= |text| && rest == text[q..q + |rest|] && q + |rest| == PathAt(text, q).end
    ensures var printed := front + PrintedPort(port) + rest;
      if port > 0 then PortAt(user, printed, h, |front|)
                       == Authority(user, front[h..], port, Some(Span(|front|, |printed| - |rest|)), |printed| - |rest|)
      else if At(text, q) != ':' then PortAt(user, printed, h, |front|) == Authority(user, front[h..], 0, None, |front|)
      else PortAt(user, printed, h, |front|).BadAuthority? || PortAt(user, printed, h, |front|).span.Some?
    ensures var printed := front + PrintedPort(port) + rest; printed[|printed| - |rest|..] == rest
  {
    hide UintAt, PathAt, PrintedPort, ElementLength;
    var printed := front + PrintedPort(port) + rest;
    assert printed[h..|front|] == front[h..];
    if port > 0 {
      PortAgain(text, c, q, port, front, rest);
    } else {
      NoPortPrinted();
      assert printed == front + rest;
      NextAgain(text, q, printed, |front|);
    }
  }

  lemma NoPortPrinted()
    ensures PrintedPort(0) == ""
  {
  }

  /** The authority as it was read: its host is front[h..], its port ends at q. */
  function ReadWithPort(user: Option<string>, front: string, h: nat, port: nat, c: nat, q: nat): Authority
    requires h <= |front|
  {
    Authority(user, front[h..], port, Some(Span(c, q)), q)
  }

  lemma KeptReadsBack(user: Option<string>, scheme: Option<string>, text: string, c: nat, q: nat, port: nat,
                      front: string, rest: string, h: nat, printed: string)
    requires c < q <= |text| && UintAt(16, text, c + 1) == Number(port, q) && h <= |front|
    requires q + |rest| == PathAt(text, q).end && rest == text[q..q + |rest|] && printed == front + PrintedPort(port) + rest
    requires port > 0 || At(text, q) != ':'
    ensures SameUri(AfterAuthority(ReadWithPort(user, front, h, port, c, q), scheme, text),
                    AfterAuthority(PortAt(user, printed, h, |front|), scheme, printed), printed)
  {
    hide UintAt, PathAt, PrintedPort, PortAt;
    AuthorityReread(user, text, c, q, port, front, rest, h);
    if port == 0 { NoPortPrinted(); }
    PathAgain(text, q, printed, |printed| - |rest|);
  }

  /** With a longer host, or a port in place of a ':', it is another URI. */
  lemma LostReadsOtherwise(literals: set<string>, user: Option<string>, scheme: Option<string>, text: string, c: nat, q: nat,
                           front: string, rest: string, h: nat, printed: string, e: nat, v: Parsed)
    requires c < q <= |text| && UintAt(16, text, c + 1) == Number(0, q) && h <= |front| <= e <= |printed|
    requires q + |rest| == PathAt(text, q).end && rest == text[q..q + |rest|] && printed == front + PrintedPort(0) + rest
    requires v == AfterAuthority(ReadWithPort(user, front, h, 0, c, q), scheme, text) && printed == Stringize(v.parts)
    requires UriAt(literals, None, printed, 0) == AfterAuthority(PortAt(user, printed, h, e), scheme, printed)
    requires e > |front| || At(text, q) == ':'
    ensures !SameUri(v, UriAt(literals, None, printed, 0), printed)
  {
    hide UintAt, PathAt, PrintedPort, UriAt, Stringize;
    if e == |front| {
      AuthorityReread(user, text, c, q, 0, front, rest, h);
      if UriAt(literals, None, printed, 0).Valid? && UriAt(literals, None, printed, 0).parts.port == 0 {
        ZeroIsNotPrinted(literals, printed);
      }
    } else {
      assert |printed[h..e]| > |front[h..]|;
    }
  }

  lemma SpanReadsBack(literals: set<string>, wanted: Option<string>, text: string, pos: nat)
    requires pos <= |text| && UriAt(literals, wanted, text, pos).Valid? && UriAt(literals, wanted, text, pos).span.Some?
    ensures var v := UriAt(literals, wanted, text, pos);
      SameUri(v, UriAt(literals, None, Stringize(v.parts), 0), Stringize(v.parts)) <==> PortKept(text, v)
  {
    hide UriAt, Stringize, UintAt, Clip, AuthorityAt, PortAt, PathAt, PrintedPort, ElementLength, SameUri, HostAgain, Bracketed;
    var v, s := UriAt(literals, wanted, text, pos), RunEnd(Space, text, pos);
    var Span(c, q) := v.span.value;
    var printed := Stringize(v.parts);
    var front, rest := PrintedInThree(literals, wanted, text, pos);
    var scheme, i := AuthorityStart(literals, wanted, text, pos, front, printed);
    var a := AuthorityAt(literals, text, s + i);
    var h := AuthorityAgain(literals, text, front, printed, s, i);
    var _ := AuthorityReads(literals, text, s + i);
    assert a == ReadWithPort(a.userinfo, front, h, v.parts.port, c, q);
    HostStaysBeforeColon(text, c, front, printed, h);
    Following(text, c, q, v.parts.port, front, rest, printed);
    if PortKept(text, v) {
      KeptReadsBack(a.userinfo, scheme, text, c, q, v.parts.port, front, rest, h, printed);
    } else {
      LostReadsOtherwise(literals, a.userinfo, scheme, text, c, q, front, rest, h, printed,
                         HostAgain(text, c, printed, |front|, h), v);
    }
  }

  /** What follows the host now: the ':' of the port, or what followed the port. */
  lemma Following(text: string, c: nat, q: nat, port: nat, front: string, rest: string, printed: string)
    requires c < q <= |text| && UintAt(16, text, c + 1) == Number(port, q)
    requires q + |rest| == PathAt(text, q).end && rest == text[q..q + |rest|] && printed == front + PrintedPort(port) + rest
    ensures |front| <= |printed|
    ensures ElementLength(HostName, printed, |front|) == if port > 0 then 0 else ElementLength(HostName, text, q)
    ensures At(text, q) == ':' ==> ElementLength(HostName, text, q) == 0
  {
    hide UintAt, PathAt, PrintedPort;
    if port > 0 {
      PortAgain(text, c, q, port, front, rest);
    } else {
      NoPortPrinted();
      assert printed == front + rest && printed[|front|..] == rest;
      NextAgain(text, q, printed, |front|);
    }
  }

  /** The printed form of a URI is read back whole, as the same URI, exactly when its port is kept: a
      port read as 0 is not printed, and then what came after it must not continue the host or look
      like a port. */
  lemma PrintedReadsBack(literals: set<string>, wanted: Option<string>, text: string, pos: nat)
    requires pos <= |text| && UriAt(literals, wanted, text, pos).Valid?
    ensures var v := UriAt(literals, wanted, text, pos);
      SameUri(v, UriAt(literals, None, Stringize(v.parts), 0), Stringize(v.parts)) <==> PortKept(text, v)
  {
    hide UriAt, SameUri, Stringize;
    if UriAt(literals, wanted, text, pos).span.None? {
      PlainReadsBack(literals, wanted, text, pos);
    } else {
      SpanReadsBack(literals, wanted, text, pos);
    }
  }

  /** It is lost here: "//u@h-x" has the host "h-x". */
  lemma PortLost(text: string)
    requires text == "//u@h:0-x"
    ensures var v := UriAt({}, None, text, 0);
      && v == Valid(NO_PARTS.(userinfo := Some("u"), host := Some("h"), path := Some("-x")), 9, Some(Span(5, 7)))
      && !SameUri(v, UriAt({}, None, Stringize(v.parts), 0), Stringize(v.parts))
  {
    PortNotKept(text);
    hide UriAt, SameUri, Stringize, PortKept;
    PrintedReadsBack({}, None, text, 0);
  }

  lemma PortNotKept(text: string)
    requires text == "//u@h:0-x"
    ensures var v := UriAt({}, None, text, 0);
      && v == Valid(NO_PARTS.(userinfo := Some("u"), host := Some("h"), path := Some("-x")), 9, Some(Span(5, 7)))
      && !PortKept(text, v)
  {
    hide UintAt, AuthorityAt, UriAt, PartEnd;
    AuthorityFirst({}, text);
    ZeroPort(text);
    PlainRun(PathChars, text, 7, 9);
    assert text[2..3] == "u" && text[4..5] == "h" && text[7..9] == "-x";
  }

  lemma ZeroPort(text: string)
    requires text == "//u@h:0-x"
    ensures AuthorityAt({}, text, 2) == Authority(Some(text[2..3]), text[4..5], 0, Some(Span(5, 7)), 7)
  {
    hide UintAt, PartEnd, LiteralAt;
    PlainRun(UserInfo, text, 2, 3);
    PlainRun(HostName, text, 4, 5);
    ZeroAt(text, 6);
  }

  lemma ZeroAt(text: string, i: nat)
    requires i + 1 < |text| && text[i] == '0' && text[i + 1] == '-'
    ensures UintAt(16, text, i) == Number(0, i + 1)
  {
    RunEndIs(Space, text, i, i);
  }
}

/** libdank/utils/rfc2396.c itself: a pointer moves over the text and a struct uri, if there is
    one, is filled in as components are passed. */
module Uris {
  import opened Ctype
  import opened UriBuilt
  import opened UriGrammar
  import opened UriParts
  import opened Options
  import Lexers
  import Numerals

  class Uri {
    var scheme: Option<string>
    var userinfo: Option<string>
    var host: Option<string>
    var port: nat
    var path: Option<string>
    var query: Option<string>
    var fragment: Option<string>
    var opaquePart: Option<string>

    ghost function View(): Parts reads this {
      Parts(scheme, userinfo, host, port, path, query, fragment, opaquePart)
    }

    constructor ()
      ensures View() == NO_PARTS
    {
      scheme, userinfo, host, port, path, query, fragment, opaquePart := None, None, None, 0, None, None, None, None;
    }

    method Reset()
      modifies this
      ensures View() == NO_PARTS
    {
      scheme, userinfo, host, port, path, query, fragment, opaquePart := None, None, None, 0, None, None, None, None;
    }
  }

  method PassPart(part: Part, text: string, i: nat) returns (e: nat)
    requires i <= |text|
    ensures e == PartEnd(part, text, i)
    ensures i <= e <= |text| && Spelled(part, text[i..e]) && !Allowed(part, At(text, e))
    ensures !Escaped(text[e..], 3) && !Escaped(text[e..], 6)
  {
    hide Spelled, Allowed, Escaped;
    RunIsSpelled(part, text, i);
    e := i;
    var l := ElementLength(part, text, e);
    while l > 0
      invariant i <= e <= |text| && l == ElementLength(part, text, e)
      invariant PartEnd(part, text, e) == PartEnd(part, text, i)
      decreases |text| - e
    {
      e := e + l;
      l := ElementLength(part, text, e);
    }
  }

  method PassRun(cl: Class, text: string, i: nat) returns (e: nat)
    requires i <= |text|
    ensures e == RunEnd(cl, text, i)
  {
    e := i;
    while e < |text| && In(cl, text[e])
      invariant i <= e <= |text|
      invariant RunEnd(cl, text, e) == RunEnd(cl, text, i)
    {
      e := e + 1;
    }
  }

  method PassLiteral(literals: set<string>, text: string, i: nat) returns (h: Host)
    requires i < |text|
    ensures h == LiteralAt(literals, text, i)
    ensures forall e: nat :: h == HostTo(e) <==>
      i + 1 < e <= |text| && text[e - 1] == ']' && LiteralFits(literals, text[i + 1..e - 1])
  {
    hide LiteralFits;
    forall e: nat
      ensures LiteralAt(literals, text, i) == HostTo(e) <==>
        i + 1 < e <= |text| && text[e - 1] == ']' && LiteralFits(literals, text[i + 1..e - 1])
    {
      LiteralIs(literals, text, i, e);
    }
    var e := PassRun(LiteralChar, text, i + 1);
    if At(text, e) != ']' || e == i + 1 { return NoHost; }
    if e - (i + 1) >= INET6_ADDRSTRLEN { return NoHost; }
    if text[i + 1..e] !in literals { return NoHost; }
    return HostTo(e + 1);
  }

  /** What parse_uri_authority undoes on failure. */
  method Forget(u: Uri)
    modifies u
    ensures u.View() == old(u.View()).(userinfo := None, host := None, path := None, port := 0)
  {
    u.userinfo, u.host, u.path, u.port := None, None, None, 0;
  }

  /** The fields that a parsed authority sets. */
  ghost function WithAuthority(u: Parts, a: Authority): Parts
    requires a.Authority?
  {
    u.(userinfo := if a.userinfo.Some? then a.userinfo else u.userinfo, host := Some(a.host),
       port := if a.span.Some? then a.port else u.port)
  }

  method PassUserAndHost(literals: set<string>, text: string, line: nat, u: Uri?)
    returns (h: Host, host: nat, ghost user: Option<string>)
    requires line <= |text|
    modifies if u == null then {} else {u}
    ensures h.HostTo? ==> host <= h.end <= |text| && host < h.end
    ensures AuthorityAt(literals, text, line) == if h.HostTo? then PortAt(user, text, host, h.end) else BadAuthority
    ensures u != null && h.HostTo? ==> u.View() == old(u.View()).(userinfo := if user.Some? then user else old(u.userinfo))
    ensures u != null && h.NoHost? ==> u.View().(userinfo := None) == old(u.View()).(userinfo := None)
  {
    hide LiteralFits, Spelled, Allowed, Escaped, LiteralAt, PortAt;
    host, user := line, None;
    if At(text, line) == '[' {
      h := PassLiteral(literals, text, line);
      return;
    }
    var e := PassPart(UserInfo, text, line);
    if At(text, e) != '@' {
      h := if e == line then NoHost else HostTo(e);
      return;
    }
    if e == line { return NoHost, host, user; }
    if u != null { u.userinfo := Some(text[line..e]); }
    user, host := Some(text[line..e]), e + 1;
    if At(text, host) == '[' {
      h := PassLiteral(literals, text, host);
    } else {
      e := PassPart(HostName, text, host);
      h := if e == host then NoHost else HostTo(e);
    }
  }

  method ParseAuthority(literals: set<string>, text: string, line: nat, u: Uri?) returns (r: int, end: nat)
    requires line <= |text|
    modifies if u == null then {} else {u}
    ensures var a := AuthorityAt(literals, text, line);
      && (r == 0 || r == -1) && (r == 0 <==> a.Authority?) && (r == 0 ==> end == a.end)
      && (u != null && r == 0 ==> u.View() == WithAuthority(old(u.View()), a))
    ensures u != null && r != 0 ==> u.View() == old(u.View()).(userinfo := None, host := None, path := None, port := 0)
  {
    hide AuthorityAt, Lexers.UintAt;
    var h, host, user := PassUserAndHost(literals, text, line, u);
    if h.NoHost? {
      if u != null { Forget(u); }
      return -1, line;
    }
    if u != null { u.host := Some(text[host..h.end]); }
    end := h.end;
    if At(text, end) == ':' {
      var lexed, p, q := Lexers.LexU(16, text, end + 1, 0);
      if lexed != 0 {
        if u != null { Forget(u); }
        return -1, line;
      }
      if u != null { u.port := p; }
      end := q;
    }
    return 0, end;
  }

  method PassMarked(mark: char, part: Part, text: string, i: nat) returns (s: Option<string>, e: nat)
    requires i <= |text| && mark != NUL
    ensures (s, e) == MarkedAt(mark, part, text, i)
  {
    hide Spelled, Allowed, Escaped;
    s, e := None, i;
    if At(text, i) == mark {
      e := PassPart(part, text, i + 1);
      s := Some(text[i + 1..e]);
    }
  }

  method ParsePath(text: string, line: nat, u: Uri?) returns (end: nat)
    requires line <= |text|
    modifies if u == null then {} else {u}
    ensures var h := PathAt(text, line);
      && end == h.end
      && (u != null ==> u.View() == old(u.View()).(
            path := if h.path.Some? then h.path else old(u.path),
            query := if h.query.Some? then h.query else old(u.query),
            fragment := if h.fragment.Some? then h.fragment else old(u.fragment)))
  {
    hide Spelled, Allowed, Escaped;
    end := PassPart(PathChars, text, line);
    if end != line && u != null { u.path := Some(text[line..end]); }
    var query, fragment;
    query, end := PassMarked('?', QueryChars, text, end);
    if u != null && query.Some? { u.query := query; }
    fragment, end := PassMarked('#', PathChars, text, end);
    if u != null && fragment.Some? { u.fragment := fragment; }
  }

  method ParseOpaque(text: string, line: nat, u: Uri?) returns (end: nat)
    requires line <= |text|
    modifies if u == null then {} else {u}
    ensures end == RunEnd(NonSpace, text, line)
    ensures u != null ==> u.View() == old(u.View()).(opaquePart := Some(text[line..end]))
  {
    end := PassRun(NonSpace, text, line);
    if u != null { u.opaquePart := Some(text[line..end]); }
  }

  method MatchScheme(wanted: Option<string>, text: string, i: nat) returns (ok: bool)
    ensures ok == SchemeMatches(wanted, text, i)
  {
    ok := true;
    if wanted.Some? {
      var k := 0;
      while k < |wanted.value|
        invariant 0 <= k <= |wanted.value| && ok
        invariant forall j :: 0 <= j < k ==> ToLower(At(text, i + j)) == ToLower(wanted.value[j])
      {
        if ToLower(At(text, i + k)) != ToLower(wanted.value[k]) { return false; }
        k := k + 1;
      }
    }
  }

  /** Everything after the scheme. */
  method ParseRest(literals: set<string>, text: string, line: nat, ghost scheme: Option<string>, ur: Uri?)
    returns (r: int, end: nat)
    requires line <= |text| && (ur != null ==> ur.View() == NO_PARTS.(scheme := scheme))
    modifies if ur == null then {} else {ur}
    ensures var v := AfterScheme(literals, scheme, text, line);
      && (r == 0 <==> v.Valid?) && (r == 0 ==> end == v.end && (ur != null ==> ur.View() == v.parts))
  {
    hide AuthorityAt, PathAt;
    end := line;
    if At(text, line) == '/' {
      if At(text, line + 1) == '/' {
        r, end := ParseAuthority(literals, text, line + 2, ur);
        if r != 0 { return; }
        NoPortIsZero(literals, text, line + 2);
      }
      end := ParsePath(text, end, ur);
    } else {
      end := ParseOpaque(text, line, ur);
    }
    return 0, end;
  }

  lemma NoPortIsZero(literals: set<string>, text: string, i: nat)
    requires i <= |text| && AuthorityAt(literals, text, i).Authority?
    ensures AuthorityAt(literals, text, i).span.None? ==> AuthorityAt(literals, text, i).port == 0
  {
    var e := AuthorityReads(literals, text, i);
  }

  /** The scheme is recorded if there is one; otherwise its characters are read again. */
  method ParseScheme(wanted: Option<string>, text: string, start: nat, ur: Uri?)
    returns (r: int, u: nat, ghost scheme: Option<string>)
    requires start <= |text| && (ur != null ==> ur.View() == NO_PARTS)
    modifies if ur == null then {} else {ur}
    ensures u <= |text| && (r == 0 && ur != null ==> ur.View() == NO_PARTS.(scheme := scheme))
    ensures forall literals: set<string> :: FromScheme(literals, wanted, text, start, RunEnd(SchemeChar, text, start))
              == if r == 0 then AfterScheme(literals, scheme, text, u) else Invalid
  {
    hide AfterScheme, SchemeMatches;
    u := PassRun(SchemeChar, text, start);
    scheme := None;
    if start != u && At(text, u) == ':' {
      var ok := MatchScheme(wanted, text, start);
      if !ok { return -1, u, scheme; }
      if ur != null { ur.scheme := Some(text[start..u]); }
      scheme := Some(text[start..u]);
      u := u + 1;
    } else {
      u := start;
    }
    r := 0;
  }

  /** With or without a struct to fill, the same texts are accepted and reading stops at the same
      place; a rejected text leaves the pointer alone and the struct empty. */
  method ExtractInternal(literals: set<string>, wanted: Option<string>, text: string, line: nat, ur: Uri?)
    returns (r: int, end: nat)
    requires line <= |text|
    modifies if ur == null then {} else {ur}
    ensures var v := UriAt(literals, wanted, text, line);
      && (r == 0 <==> v.Valid?) && end == (if v.Valid? then v.end else line)
      && (ur != null ==> ur.View() == if v.Valid? then v.parts else NO_PARTS)
  {
    if ur != null { ur.Reset(); }
    var start := Lexers.SkipWhitespace(text, line);
    var u;
    ghost var scheme;
    r, u, scheme := ParseScheme(wanted, text, start, ur);
    if r == 0 { r, u := ParseRest(literals, text, u, scheme, ur); }
    if r != 0 {
      if ur != null { ur.Reset(); }
      return r, line;
    }
    return 0, u;
  }

  method ParseUri(literals: set<string>, wanted: Option<string>, text: string, line: nat) returns (r: int, end: nat)
    requires line <= |text|
    ensures r == 0 <==> UriAt(literals, wanted, text, line).Valid?
    ensures end == if r == 0 then UriAt(literals, wanted, text, line).end else line
  {
    r, end := ExtractInternal(literals, wanted, text, line, null);
  }

  method ExtractUri(literals: set<string>, wanted: Option<string>, text: string, line: nat) returns (u: Uri?, end: nat)
    requires line <= |text|
    ensures u != null ==> fresh(u)
    ensures match UriAt(literals, wanted, text, line)
      case Invalid => u == null && end == line
      case Valid(parts, e, span) =>
        u != null && u.View() == parts && end == e
        && (Stringize(u.View()) == text[line..end] <==> !IsSpace(At(text, line)) && PlainPort(text, span))
  {
    var ur := new Uri();
    var r, e := ExtractInternal(literals, wanted, text, line, ur);
    if r != 0 { return null, line; }
    PrintsWhatWasRead(literals, wanted, text, line);
    return ur, e;
  }

  /** A URI put together from its parts is extracted as those parts, up to its rest; none is
      extracted only where its scheme does not go on as the wanted one. */
  method ExtractParts(literals: set<string>, wanted: Option<string>, before: string, t: UriText) returns (u: Uri?, end: nat)
    requires t.Fit(literals)
    ensures u != null ==> fresh(u)
    ensures u == null <==>
      t.scheme.Some? && wanted.Some? && !Follows(wanted.value, before + t.Text(), |before + t.lead|)
    ensures end == if u == null then |before| else |before + t.Text()| - |t.rest|
    ensures u != null ==> u.scheme == t.scheme
    ensures u != null ==>
      match t.body
      case Opaque(s) =>
        && u.opaquePart == Some(s) && u.userinfo == None && u.host == None && u.port == 0
        && u.path == None && u.query == None && u.fragment == None
      case Local(tail) =>
        && u.opaquePart == None && u.userinfo == None && u.host == None && u.port == 0
        && u.path == Some(tail.path) && u.query == tail.query && u.fragment == tail.fragment
      case Remote(site, tail) =>
        && u.opaquePart == None && u.userinfo == site.userinfo && u.host == Some(site.host.Text())
        && u.port == (match site.port case None => 0 case Some(n) => n)
        && u.path == (if tail.path == "" then None else Some(tail.path))
        && u.query == tail.query && u.fragment == tail.fragment
  {
    hide UriAt, UriText.Text, Tail.Fit, Site.Fit, Follows, Stringize, HostText.Text, Site.Text;
    WholeBuilt(literals, wanted, before, t);
    u, end := ExtractUri(literals, wanted, before + t.Text(), |before|);
  }

  lemma Regroup4(us: string, a: string, b: string, c: string)
    ensures ((us + a) + b) + c == us + (a + b + c)
  {
  }

  lemma Regroup5(us: string, a: string, b: string, c: string, d: string)
    ensures (((us + a) + b) + c) + d == us + (a + b + c + d)
  {
    Regroup4(us, a, b, c);
    Regroup(us, a + b + c, d, "");
  }

  method AppendPrefixed(us: string, mark: string, o: Option<string>) returns (s: string)
    ensures s == us + Prefixed(mark, o)
  {
    s := us;
    if o.Some? { s := s + (mark + o.value); }
  }

  method AppendSuffixed(us: string, o: Option<string>, mark: string) returns (s: string)
    ensures s == us + Suffixed(o, mark)
  {
    s := us;
    if o.Some? { s := s + (o.value + mark); }
  }

  method AppendPort(us: string, port: nat) returns (s: string)
    ensures s == us + PrintedPort(port)
  {
    s := us;
    if port != 0 { s := s + (":" + Numerals.Decimal(port % 0x10000)); }
  }

  method AppendAuthority(us: string, u: Uri) returns (s: string)
    ensures s == us + StringizeAuthority(u.View())
  {
    if u.host.None? && u.userinfo.None? && u.port == 0 { return us; }
    s := us + "//";
    s := AppendSuffixed(s, u.userinfo, "@");
    s := AppendPrefixed(s, "", u.host);
    assert Prefixed("", u.host) == Printed(u.host);
    s := AppendPort(s, u.port);
    Regroup5(us, "//", Suffixed(u.userinfo, "@"), Printed(u.host), PrintedPort(u.port));
  }

  method AppendPath(us: string, u: Uri) returns (s: string)
    ensures s == us + StringizePath(u.View())
  {
    s := AppendPrefixed(us, "", u.path);
    assert Prefixed("", u.path) == Printed(u.path);
    s := AppendPrefixed(s, "?", u.query);
    s := AppendPrefixed(s, "#", u.fragment);
    Regroup4(us, Printed(u.path), Prefixed("?", u.query), Prefixed("#", u.fragment));
  }

  method StringizeUri(us: string, u: Uri) returns (s: string)
    ensures s == us + Stringize(u.View())
  {
    s := AppendSuffixed(us, u.scheme, ":");
    if u.opaquePart.Some? {
      s := s + u.opaquePart.value;
      Regroup(us, Suffixed(u.scheme, ":"), u.opaquePart.value, "");
    } else {
      s := AppendAuthority(s, u);
      s := AppendPath(s, u);
      Regroup4(us, Suffixed(u.scheme, ":"), StringizeAuthority(u.View()), StringizePath(u.View()));
      Regroup(Suffixed(u.scheme, ":"), StringizeAuthority(u.View()), StringizePath(u.View()), "");
    }
  }
}

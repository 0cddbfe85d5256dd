/** Texts of URIs put together from their parts.  The character classes of RFC 2396, sections 2.2,
    2.3 and 2.4.3, are spelled out. */
module UriParts {
  import opened Ctype
  import opened Numerals
  import opened Options
  import opened Texts
  import opened UriGrammar

  const MARKS: string := "-_.!~*'()"
  const RESERVED: string := ";/?:@&=+$,"
  const UNWISE: string := "{}|\\^[]`"

  predicate Hexadecimal(c: char) { c in "0123456789abcdefABCDEF" }

  /** The characters that stand for themselves in a component. */
  predicate Allowed(part: Part, c: char) {
    || c in CAPITALS || c in SMALLS || c in DIGITS || c in MARKS
    || match part
       case UserInfo => c == ':'
       case HostName => false
       case PathChars => c in UNWISE || c in ";/:@&=+$,"
       case QueryChars => c in UNWISE || c in RESERVED
  }

  /** s starts with an escape of n characters: %XX or %uXXXX. */
  predicate Escaped(s: string, n: nat) {
    && n <= |s|
    && ((n == 3 && s[0] == '%' && Hexadecimal(s[1]) && Hexadecimal(s[2]))
        || (n == 6 && s[0] == '%' && s[1] == 'u' && forall k :: 2 <= k < 6 ==> Hexadecimal(s[k])))
  }

  /** s is made of characters of the component and escapes. */
  predicate Spelled(part: Part, s: string) {
    || s == ""
    || (Allowed(part, s[0]) && Spelled(part, s[1..]))
    || (Escaped(s, 3) && Spelled(part, s[3..]))
    || (Escaped(s, 6) && Spelled(part, s[6..]))
  }

  /** This character neither belongs to the component nor starts an escape. */
  predicate Foreign(part: Part, c: char) { !Allowed(part, c) && c != '%' }

  function Optional(mark: string, s: Option<string>): string { if s.Some? then mark + s.value else "" }

  /** A bracketed literal of 1 to 45 hexadecimal digits, dots and colons that inet_pton accepts. */
  predicate LiteralFits(literals: set<string>, a: string) {
    1 <= |a| <= 45 && a in literals && forall k :: 0 <= k < |a| ==> Hexadecimal(a[k]) || a[k] == '.' || a[k] == ':'
  }

  /** An IPv6 literal, which stands in brackets, or a name. */
  datatype HostText = Bracketed(address: string) | Named(name: string) {
    function Text(): string {
      match this
      case Bracketed(a) => "[" + (a + "]")
      case Named(n) => n
    }
  }

  /** userinfo, host and port.  Without userinfo and brackets a ':' belongs to the name. */
  datatype Site = Site(userinfo: Option<string>, host: HostText, port: Option<nat>) {
    predicate Fit(literals: set<string>) {
      && (userinfo.Some? ==> userinfo.value != "" && Spelled(UserInfo, userinfo.value))
      && HostFits(literals)
      && (port.Some? ==> port.value < 65536 && (userinfo.Some? || host.Bracketed?))
    }

    predicate HostFits(literals: set<string>) {
      match host
      case Bracketed(a) => LiteralFits(literals, a)
      case Named(n) => n != "" && Spelled(if userinfo.Some? then HostName else UserInfo, n)
    }

    function PortText(): string { if port.Some? then ":" + Decimal(port.value) else "" }

    function UserText(): string { if userinfo.Some? then userinfo.value + "@" else "" }

    function Text(): string { UserText() + (host.Text() + PortText()) }
  }

  /** path, query and fragment; an absent path is "". */
  datatype Tail = Tail(path: string, query: Option<string>, fragment: Option<string>) {
    predicate Fit() {
      && Spelled(PathChars, path) && (path != "" ==> path[0] == '/')
      && (query.Some? ==> Spelled(QueryChars, query.value))
      && (fragment.Some? ==> Spelled(PathChars, fragment.value))
    }

    /** c, behind the last component, belongs to none. */
    predicate Ends(c: char) {
      if fragment.Some? then Foreign(PathChars, c)
      else if query.Some? then Foreign(QueryChars, c) && c != '#'
      else Foreign(PathChars, c) && c != '?' && c != '#'
    }

    function Text(): string { path + (Optional("?", query) + Optional("#", fragment)) }
  }

  datatype Body = Opaque(s: string) | Local(tail: Tail) | Remote(site: Site, tail: Tail) {
    function Text(): string {
      match this
      case Opaque(s) => s
      case Local(t) => t.Text()
      case Remote(site, t) => "//" + (site.Text() + t.Text())
    }
  }

  predicate SchemeLetter(c: char) { c in CAPITALS || c in SMALLS || c in DIGITS || c == '-' }

  /** Whitespace, "scheme:" if there is one, the body, and a rest that does not belong to the URI. */
  datatype UriText = UriText(lead: string, scheme: Option<string>, body: Body, rest: string) {
    predicate Fit(literals: set<string>) {
      && Blank(lead)
      && (scheme.Some? ==> scheme.value != "" && forall k :: 0 <= k < |scheme.value| ==> SchemeLetter(scheme.value[k]))
      && match body
         case Opaque(s) => OpaqueFits(s)
         case Local(t) => t.Fit() && t.path != "" && (|t.path| > 1 ==> t.path[1] != '/') && t.Ends(At(rest, 0))
         case Remote(site, t) =>
           && site.Fit(literals) && t.Fit() && t.Ends(At(rest, 0))
           && (site.port == Some(0) && t.Text() == "" ==> rest == "" || rest[0] in SPACES || rest[0] in PUNCTUATION)
    }

    /** Up to whitespace, not starting with '/', and without a scheme no ':' behind letters only. */
    predicate OpaqueFits(s: string) {
      && (s != "" ==> s[0] != '/') && (rest != "" ==> rest[0] in SPACES)
      && (forall k :: 0 <= k < |s| ==> s[k] !in SPACES && s[k] != NUL)
      && (scheme.None? ==>
            && (s == "" ==> rest == "")
            && forall k :: 0 < k < |s| && s[k] == ':' ==> exists j :: 0 <= j < k && !SchemeLetter(s[j]))
    }

    function SchemeText(): string { if scheme.Some? then scheme.value + ":" else "" }

    function Text(): string { lead + (SchemeText() + (body.Text() + rest)) }
  }

  /** The capital and the small form of the ith letter. */
  predicate Cases(c: char, d: char, i: nat)
    requires i < 26
  {
    c == CAPITALS[i] && d == SMALLS[i]
  }

  /** Equal, or the capital and the small form of one letter. */
  predicate SameLetter(c: char, d: char) {
    || c == d
    || exists i :: 0 <= i < 26 && (Cases(c, d, i) || Cases(d, c, i))
  }

  /** The text goes on as wanted at i, but for the case of letters. */
  predicate Follows(wanted: string, text: string, i: nat) {
    forall k :: 0 <= k < |wanted| ==> SameLetter(At(text, i + k), wanted[k])
  }
}

/** What the grammar reads in such texts. */
module UriBuilt {
  import opened Ctype
  import opened Lexers
  import opened Numerals
  import opened Options
  import opened Texts
  import opened UriGrammar
  import opened UriParts

  // ----- components

  lemma CharactersAre(c: char)
    ensures Unreserved(c) <==> c in CAPITALS || c in SMALLS || c in DIGITS || c in MARKS
    ensures Reserved(c) <==> c in RESERVED
    ensures Unwise(c) <==> c in UNWISE
    ensures Reserved(c) && c != '?' <==> c in ";/:@&=+$,"
  {
    LettersAndDigits(c);
    hide IsDigit, IsAlpha;
  }

  lemma PlainIs(part: Part, c: char)
    ensures Plain(part, c) <==> Allowed(part, c)
  {
    hide Unreserved, Reserved, Unwise;
    CharactersAre(c);
  }

  lemma HexadecimalIs(c: char)
    ensures IsXDigit(c) <==> Hexadecimal(c)
  {
    ClassesAre(c);
  }

  lemma EscapeIs(text: string, i: nat)
    requires i <= |text|
    ensures EscapeLength(text, i) == 3 <==> Escaped(text[i..], 3)
    ensures EscapeLength(text, i) == 6 <==> Escaped(text[i..], 6)
    ensures EscapeLength(text, i) in {0, 3, 6}
  {
    hide IsXDigit, Hexadecimal;
    forall k: nat ensures At(text, i + k) == At(text[i..], k) && (IsXDigit(At(text, i + k)) <==> Hexadecimal(At(text, i + k))) {
      HexadecimalIs(At(text, i + k));
    }
    NulIsNotHexadecimal();
    var s := text[i..];
    assert TwoXDigits(text, i + 1) <==> Hexadecimal(At(s, 1)) && Hexadecimal(At(s, 2));
    assert TwoXDigits(text, i + 2) <==> Hexadecimal(At(s, 2)) && Hexadecimal(At(s, 3));
    assert TwoXDigits(text, i + 4) <==> Hexadecimal(At(s, 4)) && Hexadecimal(At(s, 5));
  }

  lemma NulIsNotHexadecimal()
    ensures !Hexadecimal(NUL) && !Hexadecimal('u')
  {
  }

  /** One element of the component, as it is read. */
  lemma ElementIs(part: Part, text: string, i: nat)
    requires i <= |text|
    ensures ElementLength(part, text, i) == 1 <==> Allowed(part, At(text, i))
    ensures ElementLength(part, text, i) == 3 <==> Escaped(text[i..], 3)
    ensures ElementLength(part, text, i) == 6 <==> Escaped(text[i..], 6)
    ensures ElementLength(part, text, i) in {0, 1, 3, 6} && i + ElementLength(part, text, i) <= |text|
  {
    hide Plain, Allowed, EscapeLength, Escaped;
    PlainIs(part, At(text, i));
    EscapeIs(text, i);
    PercentIsNotPlain(part, text, i);
  }

  lemma PercentIsNotPlain(part: Part, text: string, i: nat)
    requires i <= |text|
    ensures !Allowed(part, '%')
    ensures Allowed(part, At(text, i)) ==> i < |text| && !Escaped(text[i..], 3) && !Escaped(text[i..], 6)
  {
    PlainIs(part, '%');
    PlainIs(part, NUL);
    hide Allowed;
    if i < |text| { assert text[i..][0] == text[i]; }
  }

  lemma ForeignStops(part: Part, text: string, e: nat)
    requires e <= |text| && Foreign(part, At(text, e))
    ensures ElementLength(part, text, e) == 0
  {
    hide ElementLength, Allowed;
    ElementIs(part, text, e);
  }

  lemma EscapeStands(text: string, i: nat, s: string, n: nat)
    requires Stands(text, i, s) && Escaped(s, n)
    ensures Escaped(text[i..], n)
  {
    hide Hexadecimal;
    forall k | 0 <= k < |s| ensures text[i..][k] == s[k] { assert text[i..i + |s|][k] == text[i + k]; }
  }

  lemma RestStands(text: string, i: nat, s: string, n: nat)
    requires Stands(text, i, s) && n <= |s|
    ensures Stands(text, i + n, s[n..])
  {
    assert s == s[..n] + s[n..];
    StandsApart(text, i, s[..n], s[n..]);
  }

  /** The length of the first element of a spelled string. */
  lemma FirstElement(part: Part, text: string, i: nat, s: string) returns (n: nat)
    requires Stands(text, i, s) && Spelled(part, s) && s != ""
    ensures 0 < n == ElementLength(part, text, i) && n <= |s| && Spelled(part, s[n..])
  {
    hide ElementLength, Allowed, Hexadecimal;
    ElementIs(part, text, i);
    StandsAt(text, i, s, 0);
    if Allowed(part, s[0]) && Spelled(part, s[1..]) {
      n := 1;
    } else {
      n := if Escaped(s, 3) && Spelled(part, s[3..]) then 3 else 6;
      EscapeStands(text, i, s, n);
    }
  }

  /** A spelled string with a foreign character behind it is the whole run of the component: that
      character ends it. */
  lemma {:induction false} SpelledRun(part: Part, text: string, i: nat, s: string)
    requires Stands(text, i, s) && Spelled(part, s) && Foreign(part, At(text, i + |s|))
    ensures PartEnd(part, text, i) == i + |s|
    decreases |s|
  {
    hide ElementLength, Spelled, Foreign;
    if s == "" {
      ForeignStops(part, text, i);
    } else {
      var n := FirstElement(part, text, i, s);
      RestStands(text, i, s, n);
      SpelledRun(part, text, i + n, s[n..]);
    }
  }

  /** Every run is spelled, and neither a character of the component nor an escape follows. */
  lemma {:induction false} RunIsSpelled(part: Part, text: string, i: nat)
    requires i <= |text|
    ensures var e := PartEnd(part, text, i);
      && Spelled(part, text[i..e]) && !Allowed(part, At(text, e))
      && !Escaped(text[e..], 3) && !Escaped(text[e..], 6)
    decreases |text| - i
  {
    hide ElementLength, Allowed, Escaped;
    ElementIs(part, text, i);
    var n := ElementLength(part, text, i);
    if n != 0 {
      RunIsSpelled(part, text, i + n);
      OneMoreElement(part, text, i, n, PartEnd(part, text, i));
    }
  }

  lemma OneMoreElement(part: Part, text: string, i: nat, n: nat, e: nat)
    requires n in {1, 3, 6} && i + n <= e <= |text| && Spelled(part, text[i + n..e])
    requires if n == 1 then Allowed(part, text[i]) else Escaped(text[i..], n)
    ensures Spelled(part, text[i..e])
  {
    hide Allowed, Hexadecimal;
    var s := text[i..e];
    assert s[n..] == text[i + n..e];
    forall k | 0 <= k < |s| ensures s[k] == text[i..][k] {}
  }

  lemma PathMarks()
    ensures Foreign(PathChars, '?') && Foreign(PathChars, '#') && Foreign(QueryChars, '#')
  {
    hide Allowed;
    PlainIs(PathChars, '?');
    PlainIs(PathChars, '#');
    PlainIs(QueryChars, '#');
  }

  lemma MarkedBuilt(mark: char, part: Part, text: string, i: nat, s: Option<string>)
    requires mark != NUL && Stands(text, i, Optional([mark], s))
    requires if s.Some? then Spelled(part, s.value) && Foreign(part, At(text, i + |Optional([mark], s)|)) else At(text, i) != mark
    ensures MarkedAt(mark, part, text, i) == (s, i + |Optional([mark], s)|)
  {
    hide Spelled, Foreign, PartEnd, Stands;
    if s.Some? {
      MarkSplits(text, i, mark, s.value);
      SpelledRun(part, text, i + 1, s.value);
    }
  }

  lemma MarkSplits(text: string, i: nat, mark: char, s: string)
    requires Stands(text, i, [mark] + s)
    ensures At(text, i) == mark && Stands(text, i + 1, s) && i + 1 + |s| <= |text| && text[i + 1..i + 1 + |s|] == s
    ensures |[mark] + s| == 1 + |s|
  {
    StandsApart(text, i, [mark], s);
    StandsAt(text, i, [mark], 0);
  }

  /** The first character of what follows the path, or of what follows the query. */
  lemma MarkStands(text: string, i: nat, mark: string, s: Option<string>)
    requires Stands(text, i, Optional(mark, s)) && |mark| == 1
    ensures At(text, i) == if s.Some? then mark[0] else At(text, i + |Optional(mark, s)|)
  {
    if s.Some? { StandsAt(text, i, mark + s.value, 0); }
  }

  lemma QueryBuilt(path: Option<string>, text: string, i: nat, t: Tail)
    requires t.Fit() && Stands(text, i, Optional("?", t.query) + Optional("#", t.fragment))
    requires t.Ends(At(text, i + |Optional("?", t.query)| + |Optional("#", t.fragment)|))
    ensures QueryAndFragment(path, text, i)
      == Hierarchy(path, t.query, t.fragment, i + |Optional("?", t.query)| + |Optional("#", t.fragment)|)
    ensures Foreign(PathChars, At(text, i))
  {
    hide Spelled, Stands, Allowed, MarkedAt, Optional;
    var q, f := Optional("?", t.query), Optional("#", t.fragment);
    PathMarks();
    StandsApart(text, i, q, f);
    MarkStands(text, i, "?", t.query);
    MarkStands(text, i + |q|, "#", t.fragment);
    MarkedBuilt('?', QueryChars, text, i, t.query);
    MarkedBuilt('#', PathChars, text, i + |q|, t.fragment);
  }

  function PathOf(t: Tail): Option<string> { if t.path == "" then None else Some(t.path) }

  lemma TailBuilt(text: string, i: nat, t: Tail)
    requires t.Fit() && Stands(text, i, t.Text()) && t.Ends(At(text, i + |t.Text()|))
    ensures PathAt(text, i) == Hierarchy(PathOf(t), t.query, t.fragment, i + |t.Text()|)
  {
    hide Spelled, Foreign, QueryAndFragment, PartEnd, Optional, Tail.Ends;
    StandsApart(text, i, t.path, Optional("?", t.query) + Optional("#", t.fragment));
    QueryBuilt(PathOf(t), text, i + |t.path|, t);
    SpelledRun(PathChars, text, i, t.path);
  }

  // ----- authorities

  function Number0(port: Option<nat>): nat { if port.Some? then port.value else 0 }

  predicate PortEnds(port: Option<nat>, c: char) {
    match port
    case None => c != ':'
    case Some(n) => n < 65536 && !IsDigit(c) && (n == 0 ==> TokenEnd(c))
  }

  lemma PortLexed(text: string, p: nat, n: nat)
    requires p > 0 && Stands(text, p, Decimal(n)) && text[p - 1] == ':' && PortEnds(Some(n), At(text, p + |Decimal(n)|))
    ensures UintAt(16, text, p) == Number(n, p + |Decimal(n)|)
  {
    hide Decimal, UintAt;
    var d := Decimal(n);
    assert text == text[..p] + d + text[p + |d|..];
    LexesDecimal(16, text[..p], n, text[p + |d|..]);
    FitsIn16(n);
  }

  lemma PortBuilt(user: Option<string>, text: string, i: nat, e: nat, site: Site, end: nat)
    requires i <= e && Stands(text, e, site.PortText()) && end == e + |site.PortText()| && PortEnds(site.port, At(text, end))
    ensures PortAt(user, text, i, e)
      == Authority(user, text[i..e], Number0(site.port), if site.port.Some? then Some(Span(e, end)) else None, end)
  {
    hide Decimal, UintAt, TokenEnd, IsDigit, Stands;
    if site.port.Some? {
      var d := Decimal(site.port.value);
      StandsApart(text, e, ":", d);
      StandsAt(text, e, ":", 0);
      PortLexed(text, e + 1, site.port.value);
    }
  }

  /** Exactly such a literal, with its bracket behind it, is read behind '['. */
  lemma LiteralIs(literals: set<string>, text: string, i: nat, e: nat)
    requires i < |text|
    ensures LiteralAt(literals, text, i) == HostTo(e) <==>
      i + 1 < e <= |text| && text[e - 1] == ']' && LiteralFits(literals, text[i + 1..e - 1])
  {
    hide RunEnd, Hexadecimal, IsXDigit;
    forall c: char ensures In(LiteralChar, c) <==> Hexadecimal(c) || c == '.' || c == ':' { HexadecimalIs(c); }
    var m := RunEnd(LiteralChar, text, i + 1);
    if i + 1 < e <= |text| && text[e - 1] == ']' && LiteralFits(literals, text[i + 1..e - 1]) {
      BracketIsNoDigit();
      forall k | i + 1 <= k < e - 1 ensures In(LiteralChar, text[k]) { assert text[k] == text[i + 1..e - 1][k - (i + 1)]; }
      RunEndIs(LiteralChar, text, i + 1, e - 1);
    }
  }

  lemma LiteralStands(text: string, i: nat, a: string)
    requires Stands(text, i, "[" + (a + "]"))
    ensures var e := i + |a| + 2;
      e <= |text| && text[i] == '[' && text[e - 1] == ']' && text[i + 1..e - 1] == a
  {
    StandsApart(text, i, "[", a + "]");
    StandsAt(text, i, "[", 0);
    StandsApart(text, i + 1, a, "]");
    StandsAt(text, i + 1 + |a|, "]", 0);
  }

  lemma LiteralBuilt(literals: set<string>, text: string, i: nat, site: Site)
    requires site.host.Bracketed? && site.HostFits(literals) && Stands(text, i, site.host.Text())
    ensures i < |text| && At(text, i) == '[' && LiteralAt(literals, text, i) == HostTo(i + |site.host.Text()|)
  {
    hide LiteralFits, LiteralAt, Stands;
    LiteralStands(text, i, site.host.address);
    LiteralIs(literals, text, i, i + |site.host.address| + 2);
  }

  lemma BracketIsNoDigit()
    ensures !In(LiteralChar, ']')
  {
  }

  /** Names start with neither '[' nor a character that ends them. */
  lemma NameStarts(part: Part, text: string, i: nat, n: string)
    requires (part.UserInfo? || part.HostName?) && Spelled(part, n) && n != "" && Stands(text, i, n)
    ensures At(text, i) != '['
  {
    PlainIs(part, '[');
    hide Allowed, Hexadecimal;
    StandsAt(text, i, n, 0);
  }

  /** c may follow the site: it goes on with none of its parts. */
  predicate SiteEnds(site: Site, c: char) {
    && PortEnds(site.port, c)
    && (site.port.None? && site.host.Named? && site.userinfo.Some? ==> Foreign(HostName, c))
    && (site.host.Named? && site.userinfo.None? ==> Foreign(UserInfo, c) && c != '@')
  }

  lemma ColonEndsName()
    ensures Foreign(HostName, ':') && Foreign(UserInfo, '@') && Allowed(UserInfo, ':')
  {
    PlainIs(HostName, ':');
    PlainIs(UserInfo, '@');
    PlainIs(UserInfo, ':');
    hide Allowed;
  }

  lemma HostBuilt(literals: set<string>, text: string, i: nat, site: Site)
    requires site.userinfo.Some? && site.HostFits(literals) && Stands(text, i, site.host.Text())
    requires site.host.Named? ==> Foreign(HostName, At(text, i + |site.host.Text()|))
    ensures HostAt(literals, text, i) == HostTo(i + |site.host.Text()|)
  {
    hide LiteralAt, PartEnd, Spelled, Foreign;
    match site.host
    case Bracketed(_) =>
      LiteralBuilt(literals, text, i, site);
    case Named(n) =>
      NameStarts(HostName, text, i, n);
      SpelledRun(HostName, text, i, n);
  }

  /** What an authority is read as. */
  function AuthorityOf(site: Site, e: nat, end: nat): Authority {
    Authority(site.userinfo, site.host.Text(), Number0(site.port), if site.port.Some? then Some(Span(e, end)) else None, end)
  }

  lemma HostThenPort(literals: set<string>, text: string, i: nat, site: Site, end: nat)
    requires site.Fit(literals) && Stands(text, i, site.host.Text() + site.PortText())
    requires end == i + |site.host.Text() + site.PortText()| && SiteEnds(site, At(text, end))
    ensures var e := i + |site.host.Text()|;
      && Stands(text, i, site.host.Text()) && PortAt(site.userinfo, text, i, e) == AuthorityOf(site, e, end)
      && (site.userinfo.Some? && site.host.Named? ==> Foreign(HostName, At(text, e)))
  {
    hide PortAt, Foreign, Spelled, PortEnds;
    var e := i + |site.host.Text()|;
    StandsApart(text, i, site.host.Text(), site.PortText());
    ColonEndsName();
    if site.port.Some? { StandsAt(text, e, site.PortText(), 0); }
    PortBuilt(site.userinfo, text, i, e, site, end);
  }

  lemma UserStands(text: string, i: nat, u: string, more: string)
    requires Stands(text, i, (u + "@") + more)
    ensures Stands(text, i, u) && At(text, i + |u|) == '@' && Stands(text, i + |u| + 1, more) && i + |u| + 1 <= |text|
    ensures text[i..i + |u|] == u && i + |(u + "@") + more| == i + |u| + 1 + |more|
  {
    StandsApart(text, i, u + "@", more);
    StandsApart(text, i, u, "@");
    StandsAt(text, i + |u|, "@", 0);
  }

  lemma UserReadFirst(text: string, i: nat, u: string)
    requires u != "" && Spelled(UserInfo, u) && Stands(text, i, u) && At(text, i + |u|) == '@'
    ensures At(text, i) != '[' && PartEnd(UserInfo, text, i) == i + |u|
  {
    hide *;
    ColonEndsName();
    NameStarts(UserInfo, text, i, u);
    SpelledRun(UserInfo, text, i, u);
  }

  lemma UserBuilt(literals: set<string>, text: string, i: nat, site: Site, end: nat)
    requires site.userinfo.Some? && site.Fit(literals) && Stands(text, i, site.Text())
    requires end == i + |site.Text()| && SiteEnds(site, At(text, end))
    ensures exists e: nat :: AuthorityAt(literals, text, i) == AuthorityOf(site, e, end)
  {
    hide PortAt, HostAt, LiteralAt, Foreign, Spelled, SiteEnds, HostText.Text, Site.PortText, PartEnd, Site.HostFits, AuthorityOf, Stands;
    var u, more := site.userinfo.value, site.host.Text() + site.PortText();
    var m := i + |u|;
    UserStands(text, i, u, more);
    UserReadFirst(text, i, u);
    HostThenPort(literals, text, m + 1, site, end);
    HostBuilt(literals, text, m + 1, site);
    var e := m + 1 + |site.host.Text()|;
    assert AuthorityAt(literals, text, i) == AuthorityOf(site, e, end);
  }

  lemma PlainSiteBuilt(literals: set<string>, text: string, i: nat, site: Site, end: nat)
    requires site.userinfo.None? && site.Fit(literals) && Stands(text, i, site.Text())
    requires end == i + |site.Text()| && SiteEnds(site, At(text, end))
    ensures exists e: nat :: AuthorityAt(literals, text, i) == AuthorityOf(site, e, end)
  {
    hide *;
    var e := i + |site.host.Text()|;
    NoUserText(site);
    HostThenPort(literals, text, i, site, end);
    if site.host.Bracketed? {
      LiteralFirst(literals, text, i, site);
    } else {
      NameFirst(literals, text, i, site, end);
    }
    assert AuthorityAt(literals, text, i) == AuthorityOf(site, e, end);
  }

  lemma NoUserText(site: Site)
    requires site.userinfo.None?
    ensures site.Text() == site.host.Text() + site.PortText()
  {
  }

  lemma LiteralFirst(literals: set<string>, text: string, i: nat, site: Site)
    requires site.userinfo.None? && site.host.Bracketed? && site.Fit(literals) && Stands(text, i, site.host.Text())
    ensures i + |site.host.Text()| <= |text|
    ensures AuthorityAt(literals, text, i) == PortAt(site.userinfo, text, i, i + |site.host.Text()|)
  {
    hide AuthorityAt, LiteralAt, PortAt, LiteralFits, Spelled, Stands;
    LiteralBuilt(literals, text, i, site);
    BracketThenPort(literals, text, i, i + |site.host.Text()|);
  }

  lemma BracketThenPort(literals: set<string>, text: string, i: nat, e: nat)
    requires i < |text| && At(text, i) == '[' && LiteralAt(literals, text, i) == HostTo(e)
    ensures i < e <= |text| && AuthorityAt(literals, text, i) == PortAt(None, text, i, e)
  {
    hide LiteralAt, PortAt;
  }

  lemma NameFirst(literals: set<string>, text: string, i: nat, site: Site, end: nat)
    requires site.userinfo.None? && site.host.Named? && site.Fit(literals) && Stands(text, i, site.host.Text())
    requires end == i + |site.Text()| && SiteEnds(site, At(text, end))
    ensures i + |site.host.Text()| <= |text|
    ensures AuthorityAt(literals, text, i) == PortAt(site.userinfo, text, i, i + |site.host.Text()|)
  {
    hide PortAt, LiteralAt, Foreign, Spelled, PartEnd, PortEnds;
    NameStarts(UserInfo, text, i, site.host.name);
    SpelledRun(UserInfo, text, i, site.host.name);
  }

  /** An authority is read as the userinfo, host and port that it was put together from. */
  lemma SiteBuilt(literals: set<string>, text: string, i: nat, site: Site, end: nat)
    requires site.Fit(literals) && Stands(text, i, site.Text()) && end == i + |site.Text()| && SiteEnds(site, At(text, end))
    ensures exists e: nat :: AuthorityAt(literals, text, i) == AuthorityOf(site, e, end)
  {
    hide *;
    if site.userinfo.Some? {
      UserBuilt(literals, text, i, site, end);
    } else {
      PlainSiteBuilt(literals, text, i, site, end);
    }
  }

  // ----- bodies

  /** What a body is read as. */
  function BodyParts(scheme: Option<string>, body: Body): Parts {
    match body
    case Opaque(s) => NO_PARTS.(scheme := scheme, opaquePart := Some(s))
    case Local(t) => NO_PARTS.(scheme := scheme, path := PathOf(t), query := t.query, fragment := t.fragment)
    case Remote(site, t) =>
      Parts(scheme, site.userinfo, Some(site.host.Text()), Number0(site.port), PathOf(t), t.query, t.fragment, None)
  }

  lemma SlashIsAllowed()
    ensures Allowed(PathChars, '/')
  {
    hide Allowed;
    PlainIs(PathChars, '/');
  }

  /** How the text goes on behind what stands at i. */
  lemma NextIs(text: string, i: nat, s: string, rest: string)
    requires Stands(text, i, s + rest) && i + |s + rest| == |text|
    ensures Stands(text, i, s) && Stands(text, i + |s|, rest) && At(text, i + |s|) == At(rest, 0)
  {
    StandsApart(text, i, s, rest);
    if rest != "" { StandsAt(text, i + |s|, rest, 0); }
  }

  predicate ReadAs(v: Parsed, parts: Parts, end: int) { v.Valid? && v.parts == parts && v.end == end }

  /** A run of characters other than whitespace. */
  lemma OpaqueRun(text: string, i: nat, s: string, rest: string)
    requires Stands(text, i, s) && At(text, i + |s|) == At(rest, 0) && (rest != "" ==> rest[0] in SPACES)
    requires forall k :: 0 <= k < |s| ==> s[k] !in SPACES && s[k] != NUL
    ensures RunEnd(NonSpace, text, i) == i + |s| && text[i..i + |s|] == s
  {
    hide IsSpace, RunEnd;
    forall k | i <= k < i + |s| ensures In(NonSpace, text[k]) {
      StandsAt(text, i, s, k - i);
      ClassesAre(text[k]);
    }
    ClassesAre(At(rest, 0));
    RunEndIs(NonSpace, text, i, i + |s|);
  }

  lemma NoSlashFirst(text: string, i: nat, s: string, rest: string)
    requires Stands(text, i, s) && At(text, i + |s|) == At(rest, 0) && (rest != "" ==> rest[0] in SPACES)
    requires s != "" ==> s[0] != '/'
    ensures At(text, i) != '/'
  {
    if s != "" { StandsAt(text, i, s, 0); }
  }

  lemma OpaqueBuilt(literals: set<string>, scheme: Option<string>, text: string, i: nat, u: UriText)
    requires u.Fit(literals) && u.body.Opaque? && Stands(text, i, u.body.s + u.rest) && i + |u.body.s + u.rest| == |text|
    ensures ReadAs(AfterScheme(literals, scheme, text, i), BodyParts(scheme, u.body), |text| - |u.rest|)
  {
    hide RunEnd, AuthorityAt, PathAt, SchemeLetter, Blank, Stands;
    NextIs(text, i, u.body.s, u.rest);
    OpaqueRun(text, i, u.body.s, u.rest);
    NoSlashFirst(text, i, u.body.s, u.rest);
  }

  /** The first two characters of a path alone. */
  lemma OneSlash(text: string, i: nat, t: Tail)
    requires t.Fit() && t.path != "" && (|t.path| > 1 ==> t.path[1] != '/')
    requires Stands(text, i, t.Text()) && t.Ends(At(text, i + |t.Text()|))
    ensures At(text, i) == '/' && At(text, i + 1) != '/'
  {
    hide Spelled, Allowed, Optional;
    SlashIsAllowed();
    var more := Optional("?", t.query) + Optional("#", t.fragment);
    StandsApart(text, i, t.path, more);
    StandsAt(text, i, t.path, 0);
    if |t.path| > 1 {
      StandsAt(text, i, t.path, 1);
    } else {
      QueryBuilt(None, text, i + 1, t);
    }
  }

  lemma LocalBuilt(literals: set<string>, scheme: Option<string>, text: string, i: nat, u: UriText)
    requires u.Fit(literals) && u.body.Local? && Stands(text, i, u.body.Text() + u.rest) && i + |u.body.Text() + u.rest| == |text|
    ensures AfterScheme(literals, scheme, text, i)
      == Valid(BodyParts(scheme, u.body), |text| - |u.rest|, None)
  {
    hide AuthorityAt, PathAt, Tail.Text, Tail.Fit, Tail.Ends, SchemeLetter, Blank;
    NextIs(text, i, u.body.Text(), u.rest);
    OneSlash(text, i, u.body.tail);
    TailBuilt(text, i, u.body.tail);
  }

  /** A mark that starts a path, a query or a fragment ends a site. */
  lemma MarkEnds(c: char)
    requires c == '/' || c == '?' || c == '#'
    ensures Foreign(UserInfo, c) && Foreign(HostName, c) && !IsDigit(c) && TokenEnd(c)
  {
    hide Allowed;
    PlainIs(UserInfo, c);
    PlainIs(HostName, c);
  }

  lemma ForeignEnds(c: char)
    requires Foreign(PathChars, c)
    ensures Foreign(UserInfo, c) && Foreign(HostName, c) && !IsDigit(c) && c != ':' && c != '@'
  {
    hide Allowed;
    PlainIs(PathChars, c);
    PlainIs(UserInfo, c);
    PlainIs(HostName, c);
  }

  lemma TokenEnds(c: char)
    requires c == NUL || c in SPACES || c in PUNCTUATION
    ensures TokenEnd(c)
  {
    ClassesAre(c);
  }

  /** Behind a site comes a path, a query, a fragment, or something that belongs to none. */
  lemma SiteEndsHere(literals: set<string>, site: Site, t: Tail, c: char, d: char)
    requires site.Fit(literals) && t.Fit() && t.Ends(d)
    requires if t.Text() == "" then c == d else c == t.Text()[0]
    requires site.port == Some(0) && t.Text() == "" ==> d == NUL || d in SPACES || d in PUNCTUATION
    ensures SiteEnds(site, c)
  {
    hide Spelled, Site.HostFits, IsDigit, TokenEnd, Foreign;
    if t.Text() == "" {
      ForeignEnds(c);
      if site.port == Some(0) { TokenEnds(c); }
    } else {
      MarkEnds(c);
    }
  }

  lemma RemoteStands(text: string, i: nat, site: Site, t: Tail, rest: string)
    requires Stands(text, i, ("//" + (site.Text() + t.Text())) + rest)
    requires i + |("//" + (site.Text() + t.Text())) + rest| == |text|
    ensures var m := i + 2 + |site.Text()|;
      && At(text, i) == '/' && At(text, i + 1) == '/' && Stands(text, i + 2, site.Text()) && Stands(text, m, t.Text())
      && m + |t.Text()| == |text| - |rest| && At(text, m + |t.Text()|) == At(rest, 0)
      && (if t.Text() == "" then At(text, m) == At(rest, 0) else At(text, m) == t.Text()[0])
  {
    hide Site.Text, Tail.Text;
    NextIs(text, i, "//" + (site.Text() + t.Text()), rest);
    StandsApart(text, i, "//", site.Text() + t.Text());
    StandsAt(text, i, "//", 0);
    StandsAt(text, i, "//", 1);
    StandsApart(text, i + 2, site.Text(), t.Text());
    if t.Text() != "" { StandsAt(text, i + 2 + |site.Text()|, t.Text(), 0); }
  }

  lemma RemoteFits(literals: set<string>, u: UriText)
    requires u.Fit(literals) && u.body.Remote?
    ensures var site, t, d := u.body.site, u.body.tail, At(u.rest, 0);
      && site.Fit(literals) && t.Fit() && t.Ends(d)
      && (site.port == Some(0) && t.Text() == "" ==> d == NUL || d in SPACES || d in PUNCTUATION)
  {
    hide Site.Fit, Tail.Fit, Tail.Ends, Tail.Text, SchemeLetter, Blank;
  }

  lemma RemoteBuilt(literals: set<string>, scheme: Option<string>, text: string, i: nat, u: UriText)
    requires u.Fit(literals) && u.body.Remote? && Stands(text, i, u.body.Text() + u.rest) && i + |u.body.Text() + u.rest| == |text|
    ensures ReadAs(AfterScheme(literals, scheme, text, i), BodyParts(scheme, u.body), |text| - |u.rest|)
  {
    hide AuthorityAt, PathAt, Site.Text, Site.Fit, Tail.Text, Tail.Fit, Tail.Ends, SiteEnds, UriText.Fit, HostText.Text, Stands;
    var site, t := u.body.site, u.body.tail;
    var m := i + 2 + |site.Text()|;
    RemoteStands(text, i, site, t, u.rest);
    RemoteFits(literals, u);
    SiteEndsHere(literals, site, t, At(text, m), At(u.rest, 0));
    SiteBuilt(literals, text, i + 2, site, m);
    TailBuilt(text, m, t);
    var e: nat :| AuthorityAt(literals, text, i + 2) == AuthorityOf(site, e, m);
  }

  lemma BodyBuilt(literals: set<string>, scheme: Option<string>, text: string, i: nat, u: UriText)
    requires u.Fit(literals) && Stands(text, i, u.body.Text() + u.rest) && i + |u.body.Text() + u.rest| == |text|
    ensures ReadAs(AfterScheme(literals, scheme, text, i), BodyParts(scheme, u.body), |text| - |u.rest|)
  {
    hide AfterScheme, BodyParts, UriText.Fit, Site.Text, Tail.Text;
    match u.body
    case Opaque(_) => OpaqueBuilt(literals, scheme, text, i, u);
    case Local(_) => LocalBuilt(literals, scheme, text, i, u);
    case Remote(_, _) => RemoteBuilt(literals, scheme, text, i, u);
  }

  // ----- schemes

  lemma CasesAre(c: char, d: char, i: nat)
    requires i < 26
    ensures Cases(c, d, i) <==> c as int == 65 + i && d as int == 97 + i
  {
  }

  lemma SameLetterIs(c: char, d: char)
    ensures ToLower(c) == ToLower(d) <==> SameLetter(c, d)
  {
    hide Cases;
    forall c': char, d': char, i: nat | i < 26 ensures Cases(c', d', i) <==> c' as int == 65 + i && d' as int == 97 + i {
      CasesAre(c', d', i);
    }
    if 'A' <= c <= 'Z' { var _ := Cases(c, d, (c - 'A') as int); }
    if 'A' <= d <= 'Z' { var _ := Cases(d, c, (d - 'A') as int); }
  }

  /** The comparison with a wanted scheme ignores case, and nothing else. */
  lemma FollowsIs(wanted: string, text: string, i: nat)
    ensures SchemeMatches(Some(wanted), text, i) <==> Follows(wanted, text, i)
  {
    hide ToLower, SameLetter;
    forall k | 0 <= k < |wanted|
      ensures ToLower(At(text, i + k)) == ToLower(wanted[k]) <==> SameLetter(At(text, i + k), wanted[k])
    {
      SameLetterIs(At(text, i + k), wanted[k]);
    }
  }

  lemma SchemeIs(c: char)
    ensures SchemeLetter(c) <==> In(SchemeChar, c)
  {
    hide IsDigit, IsAlpha;
    LettersAndDigits(c);
  }

  lemma WithScheme(literals: set<string>, wanted: Option<string>, text: string, s: nat, name: string)
    requires name != "" && (forall k :: 0 <= k < |name| ==> SchemeLetter(name[k])) && Stands(text, s, name + ":")
    ensures FromScheme(literals, wanted, text, s, RunEnd(SchemeChar, text, s))
      == if wanted.Some? && !Follows(wanted.value, text, s) then Invalid
         else AfterScheme(literals, Some(name), text, s + |name| + 1)
  {
    hide AfterScheme, RunEnd, Follows, SchemeMatches, SchemeLetter;
    StandsApart(text, s, name, ":");
    StandsAt(text, s + |name|, ":", 0);
    NameIsRun(text, s, name);
    MatchesIs(wanted, text, s);
  }

  lemma NameIsRun(text: string, s: nat, name: string)
    requires (forall k :: 0 <= k < |name| ==> SchemeLetter(name[k])) && Stands(text, s, name) && At(text, s + |name|) == ':'
    ensures RunEnd(SchemeChar, text, s) == s + |name|
  {
    hide RunEnd, SchemeLetter;
    forall k | s <= k < s + |name| ensures In(SchemeChar, text[k]) {
      StandsAt(text, s, name, k - s);
      SchemeIs(text[k]);
    }
    ColonIsNoLetter();
    RunEndIs(SchemeChar, text, s, s + |name|);
  }

  lemma MatchesIs(wanted: Option<string>, text: string, s: nat)
    ensures SchemeMatches(wanted, text, s) <==> wanted.None? || Follows(wanted.value, text, s)
  {
    if wanted.Some? { FollowsIs(wanted.value, text, s); }
  }

  lemma NoSpaceInScheme(c: char)
    requires In(SchemeChar, c)
    ensures !IsSpace(c)
  {
  }

  lemma ColonIsNoLetter()
    ensures !In(SchemeChar, ':') && !In(SchemeChar, '/') && !In(SchemeChar, NUL)
  {
  }

  lemma NoSchemeInOpaque(literals: set<string>, text: string, s: nat, u: UriText, e: nat)
    requires u.Fit(literals) && u.scheme.None? && u.body.Opaque? && Stands(text, s, u.body.s + u.rest)
    requires s + |u.body.s + u.rest| == |text| && e == RunEnd(SchemeChar, text, s)
    ensures e == s || At(text, e) != ':'
  {
    hide RunEnd, Blank, SchemeLetter;
    var b := u.body.s;
    NextIs(text, s, b, u.rest);
    if s < e && At(text, e) == ':' {
      EndsBefore(text, s, s + |b|, e, u.rest);
      StandsAt(text, s, b, e - s);
      var j :| 0 <= j < e - s && !SchemeLetter(b[j]);
      SchemeIs(b[j]);
      StandsAt(text, s, b, j);
    }
  }

  /** A run of scheme characters does not reach over whitespace or the end of the text. */
  lemma EndsBefore(text: string, s: nat, m: nat, e: nat, rest: string)
    requires s <= m <= |text| && At(text, m) == At(rest, 0) && (rest != "" ==> rest[0] in SPACES)
    requires e == RunEnd(SchemeChar, text, s) && At(text, e) == ':'
    ensures e < m
  {
    hide RunEnd;
    ClassesAre(At(rest, 0));
    ColonIsNoLetter();
  }

  lemma SlashFirst(literals: set<string>, u: UriText)
    requires u.Fit(literals) && !u.body.Opaque?
    ensures u.body.Text() != "" && u.body.Text()[0] == '/'
  {
    hide Spelled, Site.Fit, Site.Text, Blank, SchemeLetter, Optional, Tail.Ends;
  }

  lemma WithoutScheme(literals: set<string>, wanted: Option<string>, text: string, s: nat, u: UriText)
    requires u.Fit(literals) && u.scheme.None? && Stands(text, s, u.body.Text() + u.rest) && s + |u.body.Text() + u.rest| == |text|
    ensures FromScheme(literals, wanted, text, s, RunEnd(SchemeChar, text, s)) == AfterScheme(literals, None, text, s)
  {
    hide UriText.Fit, AfterScheme, SchemeMatches, Tail.Text, Site.Text;
    if u.body.Opaque? {
      NoSchemeInOpaque(literals, text, s, u, RunEnd(SchemeChar, text, s));
    } else {
      SlashFirst(literals, u);
      StandsAt(text, s, u.body.Text() + u.rest, 0);
      ColonIsNoLetter();
    }
  }

  /** No whitespace where the scheme or the body starts. */
  lemma NoGap(literals: set<string>, u: UriText)
    requires u.Fit(literals)
    ensures !IsSpace(At(u.SchemeText() + (u.body.Text() + u.rest), 0))
  {
    hide Blank, SchemeLetter, Tail.Text, Site.Text, Tail.Fit, Site.Fit, Tail.Ends;
    if u.scheme.Some? {
      SchemeIs(u.scheme.value[0]);
      NoSpaceInScheme(u.scheme.value[0]);
    } else if u.body.Opaque? {
      ClassesAre(At(u.body.s, 0));
    } else {
      SlashFirst(literals, u);
    }
  }

  /** What a URI is read as. */
  function PartsOf(u: UriText): Parts { BodyParts(u.scheme, u.body) }

  /** Every URI put together from its parts is read as those parts, up to its rest; it is rejected
      only if its scheme does not go on as the wanted one. */
  lemma WholeBuilt(literals: set<string>, wanted: Option<string>, before: string, u: UriText)
    requires u.Fit(literals)
    ensures var text := before + u.Text();
      var v := UriAt(literals, wanted, text, |before|);
      if u.scheme.Some? && wanted.Some? && !Follows(wanted.value, text, |before + u.lead|) then v.Invalid?
      else ReadAs(v, PartsOf(u), |text| - |u.rest|)
  {
    hide UriText.Fit, UriText.Text, FromScheme, BodyParts, PartsOf, ReadAs, Body.Text, UriText.SchemeText, Follows, RunEnd, Stands;
    var text, s := before + u.Text(), |before| + |u.lead|;
    Laid(before, u);
    LeadSkips(literals, before, u);
    SchemeThenBody(literals, wanted, text, s, u);
  }

  lemma SchemeThenBody(literals: set<string>, wanted: Option<string>, text: string, s: nat, u: UriText)
    requires u.Fit(literals) && Stands(text, s, u.SchemeText()) && Stands(text, s + |u.SchemeText()|, u.body.Text() + u.rest)
    requires s + |u.SchemeText()| + |u.body.Text() + u.rest| == |text|
    ensures var v := FromScheme(literals, wanted, text, s, RunEnd(SchemeChar, text, s));
      if u.scheme.Some? && wanted.Some? && !Follows(wanted.value, text, s) then v.Invalid?
      else ReadAs(v, PartsOf(u), |text| - |u.rest|)
  {
    hide UriText.Fit, AfterScheme, FromScheme, BodyParts, Body.Text, Follows, RunEnd, SchemeLetter;
    FitSaid(literals, u);
    BodyBuilt(literals, u.scheme, text, s + |u.SchemeText()|, u);
    if u.scheme.Some? {
      WithScheme(literals, wanted, text, s, u.scheme.value);
    } else {
      WithoutScheme(literals, wanted, text, s, u);
    }
  }

  lemma LeadSkips(literals: set<string>, before: string, u: UriText)
    requires u.Fit(literals)
    ensures RunEnd(Space, before + u.Text(), |before|) == |before| + |u.lead|
  {
    hide *;
    var text, p, more := before + u.Text(), |before|, u.SchemeText() + (u.body.Text() + u.rest);
    Laid(before, u);
    NoGap(literals, u);
    FitSaid(literals, u);
    GapSkips(text, p, u.lead, more);
  }

  lemma FitSaid(literals: set<string>, u: UriText)
    requires u.Fit(literals)
    ensures Blank(u.lead)
    ensures u.scheme.Some? ==> u.scheme.value != "" && forall k :: 0 <= k < |u.scheme.value| ==> SchemeLetter(u.scheme.value[k])
  {
    hide Blank, SchemeLetter;
  }

  /** Where the parts stand in the whole text. */
  lemma Laid(before: string, u: UriText)
    ensures var text, p, more := before + u.Text(), |before|, u.body.Text() + u.rest;
      var s := p + |u.lead|;
      var b := s + |u.SchemeText()|;
      && Stands(text, p, u.lead + (u.SchemeText() + more)) && At(text, s) == At(u.SchemeText() + more, 0)
      && Stands(text, s, u.SchemeText()) && Stands(text, b, more) && b + |more| == |text|
  {
    hide Body.Text, UriText.SchemeText;
    var text, p, more := before + u.Text(), |before|, u.body.Text() + u.rest;
    assert Stands(text, p, u.lead + (u.SchemeText() + more));
    StandsApart(text, p, u.lead, u.SchemeText() + more);
    StandsApart(text, p + |u.lead|, u.SchemeText(), more);
    if u.SchemeText() + more != "" { StandsAt(text, p + |u.lead|, u.SchemeText() + more, 0); }
  }

  /** What is read of a URI put together from its parts is printed as its text without the
      whitespace in front and the rest; port 0 is not printed. */
  lemma PartsPrint(literals: set<string>, u: UriText)
    requires u.Fit(literals) && (u.body.Remote? ==> u.body.site.port != Some(0))
    ensures Stringize(PartsOf(u)) == u.SchemeText() + u.body.Text()
  {
    hide *;
    match u.body
    case Opaque(_) => OpaqueStringized(u);
    case Local(t) => LocalStringized(u);
    case Remote(site, t) =>
      PortFits16(literals, u);
      RemoteStringized(u);
  }

  lemma PortFits16(literals: set<string>, u: UriText)
    requires u.Fit(literals) && u.body.Remote?
    ensures u.body.site.port.Some? ==> u.body.site.port.value < 65536
  {
    hide Spelled, LiteralFits, Blank, SchemeLetter, Tail.Fit, Tail.Ends, Tail.Text, Site.HostFits;
  }

  lemma OpaqueStringized(u: UriText)
    requires u.body.Opaque?
    ensures Stringize(PartsOf(u)) == u.SchemeText() + u.body.Text()
  {
  }

  lemma LocalStringized(u: UriText)
    requires u.body.Local?
    ensures Stringize(PartsOf(u)) == u.SchemeText() + u.body.Text()
  {
    hide Tail.Text, StringizePath;
    TailPrints(u.body.tail, PartsOf(u));
  }

  lemma RemoteStringized(u: UriText)
    requires u.body.Remote? && (u.body.site.port.Some? ==> 0 < u.body.site.port.value < 65536)
    ensures Stringize(PartsOf(u)) == u.SchemeText() + u.body.Text()
  {
    hide Tail.Text, Site.Text, StringizePath, StringizeAuthority, HostText.Text;
    var site, t := u.body.site, u.body.tail;
    TailPrints(t, PartsOf(u));
    SitePrints(site, PartsOf(u));
    assert "//" + (site.Text() + t.Text()) == ("//" + site.Text()) + t.Text();
  }

  lemma TailPrints(t: Tail, p: Parts)
    requires p.path == PathOf(t) && p.query == t.query && p.fragment == t.fragment
    ensures StringizePath(p) == t.Text()
  {
    assert Printed(p.path) == t.path;
    assert (t.path + Optional("?", t.query)) + Optional("#", t.fragment) == t.Text();
  }

  lemma SitePrints(site: Site, p: Parts)
    requires p.userinfo == site.userinfo && p.host == Some(site.host.Text()) && p.port == Number0(site.port)
    requires site.port.Some? ==> 0 < site.port.value < 65536
    ensures StringizeAuthority(p) == "//" + site.Text()
  {
    hide Decimal, HostText.Text;
    var a, b, c := site.UserText(), site.host.Text(), site.PortText();
    assert PrintedPort(p.port) == c;
    assert "//" + a + b + c == "//" + (a + (b + c));
  }
}

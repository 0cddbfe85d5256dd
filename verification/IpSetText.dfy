/** Dotted quads: inet_ntop and inet_pton for IPv4, which the source calls. */
module DottedQuads {
  import opened Ctype
  import opened Numerals
  import opened IpRanges
  import opened Lexers
  import opened Options
  import opened Texts

  /** The first n bytes of an address, most significant first, as one number. */
  function Leading(a: Addr, n: nat): (v: nat)
    requires n <= 4
    ensures v < Room(n)
  {
    if n == 0 then 0 else if n == 1 then a / 0x1000000 else if n == 2 then a / 0x10000 else if n == 3 then a / 0x100 else a
  }

  function Room(n: nat): nat
    requires n <= 4
  {
    if n == 0 then 1 else if n == 1 then 0x100 else if n == 2 then 0x10000 else if n == 3 then 0x1000000 else ADDRS
  }

  function Octet(a: Addr, n: nat): (b: nat)
    requires n < 4
    ensures b < 256 && Leading(a, n + 1) == Leading(a, n) * 256 + b
  {
    Leading(a, n + 1) - Leading(a, n) * 256
  }

  /** The bytes from the nth on. */
  function NtopFrom(a: Addr, n: nat): string
    requires n < 4
    decreases 4 - n
  {
    if n == 3 then Decimal(Octet(a, 3)) else Decimal(Octet(a, n)) + ("." + NtopFrom(a, n + 1))
  }

  function Ntop(a: Addr): string { NtopFrom(a, 0) }

  /** A decimal number below 256 without leading zeros. */
  function OctetAt(s: string, i: nat): (r: Lexed)
    requires i <= |s|
    ensures r.Number? ==> r.value < 256 && i < r.end <= |s|
  {
    var e := RunEnd(Digit, s, i);
    if e > i && CanonicalNumeral(s[i..e]) && Value(10, s[i..e]) < 256 then Number(Value(10, s[i..e]), e) else Rejected
  }

  /** The bytes from the nth on, read at i, behind those in acc. */
  function PtonFrom(s: string, i: nat, n: nat, acc: nat): Option<Addr>
    requires i <= |s| && n < 4 && acc < Room(n)
    decreases 4 - n
  {
    match OctetAt(s, i)
    case Rejected => None
    case Number(v, e) =>
      if n == 3 then if e == |s| then Some(acc * 256 + v) else None
      else if At(s, e) == '.' then PtonFrom(s, e + 1, n + 1, acc * 256 + v) else None
  }

  function Pton(s: string): Option<Addr> { PtonFrom(s, 0, 0, 0) }

  lemma OctetShort(n: nat)
    requires n < 256
    ensures 1 <= |Decimal(n)| <= 3
  {
    if n >= 10 { assert |Decimal(n)| == |Decimal(n / 10)| + 1; }
    if n >= 100 { assert |Decimal(n / 10)| == |Decimal(n / 100)| + 1; }
  }

  lemma OctetReads(s: string, i: nat, n: nat)
    requires n < 256 && Stands(s, i, Decimal(n)) && !IsDigit(At(s, i + |Decimal(n)|))
    ensures OctetAt(s, i) == Number(n, i + |Decimal(n)|)
  {
    DecimalHasValue(n);
    var e := i + |Decimal(n)|;
    forall k | i <= k < e ensures In(Digit, s[k]) { assert s[k] == s[i..e][k - i]; }
    RunEndIs(Digit, s, i, e);
  }

  lemma {:induction false} PtonReads(s: string, i: nat, n: nat, a: Addr)
    requires n < 4 && Stands(s, i, NtopFrom(a, n)) && i + |NtopFrom(a, n)| == |s|
    ensures PtonFrom(s, i, n, Leading(a, n)) == Some(a)
    decreases 4 - n
  {
    hide OctetAt, Decimal;
    var d := Decimal(Octet(a, n));
    if n == 3 {
      OctetReads(s, i, Octet(a, 3));
    } else {
      StandsApart(s, i, d, "." + NtopFrom(a, n + 1));
      StandsApart(s, i + |d|, ".", NtopFrom(a, n + 1));
      assert s[i + |d|] == s[i + |d|..i + |d| + 1][0];
      OctetReads(s, i, Octet(a, n));
      PtonReads(s, i + |d| + 1, n + 1, a);
    }
  }

  /** Dotted quads are read back as the address they were written from. */
  lemma PtonOfNtop(a: Addr)
    ensures Pton(Ntop(a)) == Some(a)
  {
    assert Ntop(a)[0..|Ntop(a)|] == Ntop(a);
    PtonReads(Ntop(a), 0, 0, a);
  }

  /** Digits and dots only, 7 to 15 of them. */
  lemma {:induction false} NtopShape(a: Addr, n: nat)
    requires n < 4
    ensures 2 * (4 - n) - 1 <= |NtopFrom(a, n)| <= 4 * (4 - n) - 1 && IsDigit(NtopFrom(a, n)[0])
    ensures forall k :: 0 <= k < |NtopFrom(a, n)| ==> In(DotOrDigit, NtopFrom(a, n)[k])
    decreases 4 - n
  {
    OctetShort(Octet(a, n));
    DecimalHasValue(Octet(a, n));
    if n < 3 {
      NtopShape(a, n + 1);
      DotsAndDigits(Decimal(Octet(a, n)), NtopFrom(a, n + 1));
    }
  }

  lemma DotsAndDigits(s: string, t: string)
    requires forall k :: 0 <= k < |s| ==> In(DotOrDigit, s[k])
    requires forall k :: 0 <= k < |t| ==> In(DotOrDigit, t[k])
    ensures forall k :: 0 <= k < |s + ("." + t)| ==> In(DotOrDigit, (s + ("." + t))[k])
  {
  }
}

/** Texts of range sets put together from their parts. */
module IpSetParts {
  import opened Ctype
  import opened DottedQuads
  import opened IpRanges
  import opened Numerals
  import opened Options
  import opened Texts

  /** Four numbers with dots between them. */
  function Quad(a: nat, b: nat, c: nat, d: nat): string {
    Decimal(a) + ("." + (Decimal(b) + ("." + (Decimal(c) + ("." + Decimal(d))))))
  }

  /** The address with these four bytes. */
  function FromBytes(a: nat, b: nat, c: nat, d: nat): (x: Addr)
    requires a < 256 && b < 256 && c < 256 && d < 256
  {
    a * 0x1000000 + b * 0x10000 + c * 0x100 + d
  }

  lemma BytesOf(a: nat, b: nat, c: nat, d: nat)
    requires a < 256 && b < 256 && c < 256 && d < 256
    ensures var x := FromBytes(a, b, c, d);
      Octet(x, 0) == a && Octet(x, 1) == b && Octet(x, 2) == c && Octet(x, 3) == d
  {
  }

  /** What is printed for an address is its bytes, most significant first, and that is read. */
  lemma QuadIs(a: nat, b: nat, c: nat, d: nat)
    requires a < 256 && b < 256 && c < 256 && d < 256
    ensures Ntop(FromBytes(a, b, c, d)) == Quad(a, b, c, d)
    ensures Pton(Quad(a, b, c, d)) == Some(FromBytes(a, b, c, d))
  {
    hide Octet, Pton, PtonFrom, Decimal, Leading;
    var x := FromBytes(a, b, c, d);
    BytesOf(a, b, c, d);
    PtonOfNtop(x);
    assert NtopFrom(x, 3) == Decimal(d);
    assert NtopFrom(x, 2) == Decimal(c) + ("." + NtopFrom(x, 3));
    assert NtopFrom(x, 1) == Decimal(b) + ("." + NtopFrom(x, 2));
  }

  /** An address by its bytes. */
  datatype Bytes = Bytes(a: nat, b: nat, c: nat, d: nat) {
    predicate Fit() { a < 256 && b < 256 && c < 256 && d < 256 }

    function Addr(): (x: Addr)
      requires Fit()
    {
      FromBytes(a, b, c, d)
    }

    function Text(): string { Quad(a, b, c, d) }
  }

  predicate Mark(c: char) { c == '-' || c == ':' }

  /** One address, all between two in either order, or all from one on; mark is '-' or ':'. */
  datatype Item = One(x: Bytes) | Between(x: Bytes, mark: char, y: Bytes) | From(x: Bytes, mark: char) {
    predicate Fit() { x.Fit() && (Between? ==> y.Fit()) && (!One? ==> Mark(mark)) }

    function Text(): string {
      match this
      case One(x) => x.Text()
      case Between(x, mark, y) => x.Text() + ([mark] + y.Text())
      case From(x, mark) => x.Text() + [mark]
    }

    predicate Covers(z: Addr)
      requires Fit()
    {
      match this
      case One(x) => z == x.Addr()
      case Between(x, _, y) => x.Addr() <= z <= y.Addr() || y.Addr() <= z <= x.Addr()
      case From(x, _) => x.Addr() <= z
    }
  }

  /** An item of a list, with whitespace in front. */
  datatype Spaced = Spaced(gap: string, item: Item) {
    predicate Fit() { Blank(gap) && item.Fit() }

    function Text(): string { gap + item.Text() }
  }

  predicate ItemsFit(ls: seq<Spaced>) { forall i :: 0 <= i < |ls| ==> ls[i].Fit() }

  function ListText(ls: seq<Spaced>): string {
    if ls == [] then "" else if |ls| == 1 then ls[0].Text() else ls[0].Text() + ("," + ListText(ls[1..]))
  }

  /** The word "any", in any case, or a list. */
  datatype Content = Any(word: string) | List(items: seq<Spaced>) {
    predicate Fit() {
      match this
      case Any(w) => |w| == 3 && w[0] in "aA" && w[1] in "nN" && w[2] in "yY"
      case List(ls) => ls != [] && ItemsFit(ls)
    }

    function Text(): string { match this case Any(w) => w case List(ls) => ListText(ls) }

    ghost predicate Covers(z: Addr)
      requires Fit()
    {
      match this
      case Any(_) => true
      case List(ls) => exists i :: 0 <= i < |ls| && ls[i].item.Covers(z)
    }
  }

  /** A whole set: whitespace, perhaps '!', more whitespace, the content, perhaps in brackets,
      whitespace, and a rest that does not belong to it. */
  datatype SetParts = SetParts(lead: string, invert: bool, gap: string, bracket: bool, content: Content, tail: string, rest: string) {
    predicate Fit() { content.Fit() && Blank(lead) && Blank(gap) && Blank(tail) && (!bracket ==> Bare()) }

    /** Without brackets no whitespace is left to the first item, and the rest does not go on with
        the list or with whitespace. */
    predicate Bare()
      requires content.Fit()
    {
      && (content.List? ==> content.items[0].gap == "")
      && (rest != "" ==> rest[0] !in SPACES && (content.List? && tail == "" ==> rest[0] == ']' || rest[0] == '@'))
    }

    function Close(): string { (if bracket then "]" else "") + rest }

    function Body(): string { (if bracket then "[" else "") + (content.Text() + (tail + Close())) }

    function Text(): string { lead + ((if invert then "!" else "") + (gap + Body())) }

    ghost predicate Covers(z: Addr)
      requires Fit()
    {
      invert != content.Covers(z)
    }
  }
}

/** The text forms of IPv4 range sets, as values. */
module IpSetGrammar {
  import opened Ctype
  import opened DottedQuads
  import opened IpRanges
  import opened IpSetParts
  import opened Lexers
  import opened Options
  import opened Texts

  const INET_ADDRSTRLEN: nat := 16

  function Min(a: nat, b: nat): nat { if a < b then a else b }

  /** parse_ipv4address: at least 7 and at most 15 digits and dots, which must be a dotted quad. */
  function AddressAt(text: string, pos: nat): (r: Lexed)
    requires pos <= |text|
    ensures r.Number? ==> r.value < ADDRS && pos < r.end <= |text|
  {
    var p := RunEnd(Space, text, pos);
    var e := Min(RunEnd(DotOrDigit, text, p), p + INET_ADDRSTRLEN - 1);
    if e - p < 7 then Rejected
    else match Pton(text[p..e])
      case None => Rejected
      case Some(a) => Number(a, e)
  }

  /** A range and where it ends.  What the forms "-x" and "x/n" mean is left to a table of such
      readings, by the position where the form starts. */
  datatype Reading = Reading(range: Range, end: nat)
  type Forms = map<nat, Reading>

  predicate FormsFit(forms: Forms, text: string) {
    forall p :: p in forms ==> forms[p].range.Proper() && p < forms[p].end <= |text|
  }

  predicate RangeEnd(c: char) { IsSpace(c) || c == ',' || c == NUL || c == ']' || c == '@' }

  function Ordered(a: Addr, b: Addr): (r: Range)
    ensures r.Proper()
  {
    if a > b then Range(b, a) else Range(a, b)
  }

  /** What follows the first address: "-y", "-" alone, or nothing. */
  function UpperAt(lower: Addr, text: string, e: nat): (r: Option<Reading>)
    requires e <= |text|
    ensures r.Some? ==> r.value.range.Proper() && e <= r.value.end <= |text|
  {
    var c := At(text, e);
    if c != '-' && c != ':' then Some(Reading(Range(lower, lower), e))
    else if !IsDigit(At(text, e + 1)) then Some(Reading(Range(lower, LAST), e + 1))
    else match AddressAt(text, e + 1)
      case Rejected => None
      case Number(upper, f) => Some(Reading(Ordered(lower, upper), f))
  }

  function FormAt(forms: Forms, text: string, pos: nat): (r: Option<Reading>)
    requires FormsFit(forms, text)
    ensures r.Some? ==> r.value.range.Proper() && pos < r.value.end <= |text|
  {
    if pos in forms then Some(forms[pos]) else None
  }

  /** parse_ipv4range up to the check of what stands behind the range. */
  function BareRangeAt(forms: Forms, text: string, pos: nat): (r: Option<Reading>)
    requires pos <= |text| && FormsFit(forms, text)
    ensures r.Some? ==> r.value.range.Proper() && pos < r.value.end <= |text|
  {
    var p := RunEnd(Space, text, pos);
    if At(text, p) == '-' || At(text, p) == ':' then FormAt(forms, text, pos)
    else match AddressAt(text, p)
      case Rejected => None
      case Number(lower, e) => if At(text, e) == '/' then FormAt(forms, text, pos) else UpperAt(lower, text, e)
  }

  function RangeAt(forms: Forms, text: string, pos: nat): (r: Option<Reading>)
    requires pos <= |text| && FormsFit(forms, text)
    ensures r.Some? ==> r.value.range.Proper() && pos < r.value.end <= |text|
  {
    match BareRangeAt(forms, text, pos)
    case None => None
    case Some(r) => if RangeEnd(At(text, r.end)) then Some(r) else None
  }

  datatype Listing = Bad | Listing(ranges: seq<Range>, end: nat)

  ghost predicate AllProper(rs: seq<Range>) { forall i :: 0 <= i < |rs| ==> rs[i].Proper() }

  /** parse_ipranges: ranges separated by single commas. */
  function RangesAt(forms: Forms, text: string, pos: nat): (r: Listing)
    requires pos <= |text| && FormsFit(forms, text)
    ensures r.Listing? ==> AllProper(r.ranges) && pos < r.end <= |text|
    decreases |text| - pos
  {
    match RangeAt(forms, text, pos)
    case None => Bad
    case Some(Reading(range, e)) =>
      if At(text, e) != ',' then Listing([range], e)
      else match RangesAt(forms, text, e + 1)
        case Bad => Bad
        case Listing(rest, f) =>
          ProperFirst(range, rest);
          Listing([range] + rest, f)
  }

  lemma ProperFirst(range: Range, rest: seq<Range>)
    requires range.Proper() && AllProper(rest)
    ensures AllProper([range] + rest)
  {
  }

  predicate AnyAt(text: string, p: nat) {
    var c0, c1, c2 := At(text, p), At(text, p + 1), At(text, p + 2);
    (c0 == 'a' || c0 == 'A') && (c1 == 'n' || c1 == 'N') && (c2 == 'y' || c2 == 'Y')
  }

  /** The ranges, or all addresses for "any". */
  function ListingAt(forms: Forms, text: string, p: nat): (r: Listing)
    requires p <= |text| && FormsFit(forms, text)
    ensures r.Listing? ==> AllProper(r.ranges) && p < r.end <= |text|
  {
    if AnyAt(text, p) then Listing([ALL], p + 3) else RangesAt(forms, text, p)
  }

  /** A parsed set: the ranges listed, or the addresses in none of them. */
  datatype Parsed = Invalid | Parsed(ranges: seq<Range>, inverted: bool, end: nat)

  function Closed(l: Listing, bracket: bool, inverted: bool, text: string): (r: Parsed)
    requires l.Listing? ==> l.end <= |text|
    ensures r.Parsed? ==> l.Listing? && r.ranges == l.ranges && r.end <= |text|
  {
    if l.Bad? then Invalid
    else
      var e := RunEnd(Space, text, l.end);
      if !bracket then Parsed(l.ranges, inverted, e)
      else if At(text, e) == ']' then Parsed(l.ranges, inverted, e + 1) else Invalid
  }

  function SetAt(forms: Forms, text: string): (r: Parsed)
    requires FormsFit(forms, text)
    ensures r.Parsed? ==> AllProper(r.ranges) && r.end <= |text|
  {
    var p := RunEnd(Space, text, 0);
    var inverted := At(text, p) == '!';
    var q := RunEnd(Space, text, if inverted then p + 1 else p);
    var bracket := At(text, q) == '[';
    Closed(ListingAt(forms, text, if bracket then q + 1 else q), bracket, inverted, text)
  }

  // ----- printing

  function RangeText(r: Range): string {
    if r.upper != r.lower then Ntop(r.lower) + ("-" + Ntop(r.upper)) else Ntop(r.lower)
  }

  function Joined(rs: seq<Range>): string {
    if rs == [] then "" else if |rs| == 1 then RangeText(rs[0]) else RangeText(rs[0]) + ("," + Joined(rs[1..]))
  }

  function SetText(rs: seq<Range>): string { "[" + Joined(rs) + "]" }

  /** The bytes of an address. */
  function AddressBytes(a: Addr): (x: Bytes)
    ensures x.Fit() && x.Addr() == a
  {
    Bytes(Octet(a, 0), Octet(a, 1), Octet(a, 2), Octet(a, 3))
  }

  /** A range as the item that is printed for it: one address, or its ends with '-' between. */
  function RangeItem(r: Range): (l: Spaced)
    ensures l.Fit()
  {
    var x, y := AddressBytes(r.lower), AddressBytes(r.upper);
    Spaced("", if r.lower == r.upper then One(x) else Between(x, '-', y))
  }

  function RangeItems(rs: seq<Range>): (ls: seq<Spaced>)
    ensures |ls| == |rs| && ItemsFit(ls)
  {
    if rs == [] then [] else [RangeItem(rs[0])] + RangeItems(rs[1..])
  }

  lemma RangeTextIs(r: Range)
    ensures RangeText(r) == RangeItem(r).Text()
  {
    hide Octet, Ntop, Quad, FromBytes;
    var x, y := AddressBytes(r.lower), AddressBytes(r.upper);
    QuadIs(x.a, x.b, x.c, x.d);
    QuadIs(y.a, y.b, y.c, y.d);
  }

  /** An item is printed for a range: its one address, or its lower and upper end. */
  predicate PrintedFor(l: Spaced, r: Range) {
    l.Fit() && l.gap == "" &&
    match l.item
    case One(x) => x.Addr() == r.lower == r.upper
    case Between(x, mark, y) => mark == '-' && x.Addr() == r.lower && y.Addr() == r.upper && r.lower != r.upper
    case From(_, _) => false
  }

  lemma {:induction false} ItemsPrinted(rs: seq<Range>, i: nat)
    requires i < |rs|
    ensures PrintedFor(RangeItems(rs)[i], rs[i])
  {
    if i > 0 {
      hide PrintedFor, RangeItem;
      ItemsPrinted(rs[1..], i - 1);
    }
  }

  /** The printed text: items in brackets, one for each range, with commas and nothing else between. */
  lemma SetTextIs(rs: seq<Range>)
    ensures SetText(rs) == "[" + ListText(RangeItems(rs)) + "]"
    ensures forall i :: 0 <= i < |rs| ==> PrintedFor(RangeItems(rs)[i], rs[i])
  {
    hide Joined, ListText, PrintedFor;
    JoinedIs(rs);
    forall i | 0 <= i < |rs| ensures PrintedFor(RangeItems(rs)[i], rs[i]) { ItemsPrinted(rs, i); }
  }

  lemma {:induction false} JoinedIs(rs: seq<Range>)
    ensures Joined(rs) == ListText(RangeItems(rs))
  {
    hide RangeText, RangeItem, Spaced.Text, ItemsFit;
    if rs != [] {
      RangeTextIs(rs[0]);
      JoinedIs(rs[1..]);
    }
  }

  // ----- what is printed is read back

  lemma RunReads(text: string, p: nat, t: string)
    requires Stands(text, p, t) && t != "" && IsDigit(t[0]) && !In(DotOrDigit, At(text, p + |t|))
    requires forall k :: 0 <= k < |t| ==> In(DotOrDigit, t[k])
    ensures RunEnd(Space, text, p) == p && IsDigit(At(text, p)) && RunEnd(DotOrDigit, text, p) == p + |t|
  {
    StandsAt(text, p, t, 0);
    RunEndIs(Space, text, p, p);
    forall k | p <= k < p + |t| ensures In(DotOrDigit, text[k]) { StandsAt(text, p, t, k - p); }
    RunEndIs(DotOrDigit, text, p, p + |t|);
  }

  /** t is a dotted quad for a. */
  predicate Writes(t: string, a: Addr) {
    7 <= |t| <= 15 && IsDigit(t[0]) && Pton(t) == Some(a) && forall k :: 0 <= k < |t| ==> In(DotOrDigit, t[k])
  }

  lemma NtopWrites(a: Addr)
    ensures Writes(Ntop(a), a)
  {
    NtopShape(a, 0);
    PtonOfNtop(a);
  }

  lemma AddressReads(text: string, p: nat, t: string, a: Addr)
    requires Writes(t, a) && Stands(text, p, t) && !In(DotOrDigit, At(text, p + |t|))
    ensures AddressAt(text, p) == Number(a, p + |t|)
    ensures IsDigit(At(text, p)) && RunEnd(Space, text, p) == p
  {
    hide Pton;
    RunReads(text, p, t);
  }

  lemma BareReads(forms: Forms, text: string, p: nat, q: nat, lower: Addr, e: nat)
    requires FormsFit(forms, text) && p <= |text| && RunEnd(Space, text, p) == q && IsDigit(At(text, q))
    requires AddressAt(text, q) == Number(lower, e) && At(text, e) != '/'
    ensures BareRangeAt(forms, text, p) == UpperAt(lower, text, e)
  {
    hide AddressAt;
  }

  lemma SingleReads(forms: Forms, text: string, p: nat, q: nat, a: Addr, t: string)
    requires FormsFit(forms, text) && Writes(t, a) && p <= |text| && RunEnd(Space, text, p) == q && Stands(text, q, t)
    requires RangeEnd(At(text, q + |t|))
    ensures RangeAt(forms, text, p) == Some(Reading(Range(a, a), q + |t|))
  {
    hide AddressAt, Pton, RunEnd;
    AddressReads(text, q, t, a);
    BareReads(forms, text, p, q, a, q + |t|);
  }

  lemma OpenReads(forms: Forms, text: string, p: nat, q: nat, a: Addr, t: string, mark: char)
    requires FormsFit(forms, text) && Writes(t, a) && p <= |text| && RunEnd(Space, text, p) == q && Mark(mark)
    requires Stands(text, q, t + [mark]) && RangeEnd(At(text, q + |t| + 1))
    ensures RangeAt(forms, text, p) == Some(Reading(Range(a, LAST), q + |t| + 1))
  {
    hide AddressAt, Pton, RunEnd;
    StandsApart(text, q, t, [mark]);
    StandsAt(text, q + |t|, [mark], 0);
    AddressReads(text, q, t, a);
    BareReads(forms, text, p, q, a, q + |t|);
  }

  lemma PairSplits(text: string, p: nat, s: string, mark: char, t: string)
    requires Stands(text, p, s + ([mark] + t))
    ensures Stands(text, p, s) && At(text, p + |s|) == mark && Stands(text, p + |s| + 1, t)
  {
    StandsApart(text, p, s, [mark] + t);
    StandsAt(text, p + |s|, [mark] + t, 0);
    StandsApart(text, p + |s|, [mark], t);
  }

  lemma PairReads(forms: Forms, text: string, p: nat, q: nat, a: Addr, b: Addr, s: string, mark: char, t: string)
    requires FormsFit(forms, text) && Writes(s, a) && Writes(t, b) && p <= |text| && RunEnd(Space, text, p) == q
    requires Stands(text, q, s + ([mark] + t)) && Mark(mark) && RangeEnd(At(text, q + |s| + 1 + |t|))
    ensures RangeAt(forms, text, p) == Some(Reading(Ordered(a, b), q + |s| + 1 + |t|))
  {
    hide Pton, AddressAt, RunEnd;
    PairSplits(text, q, s, mark, t);
    AddressReads(text, q, s, a);
    AddressReads(text, q + |s| + 1, t, b);
    BareReads(forms, text, p, q, a, q + |s|);
  }

  lemma RangeStarts(text: string, p: nat, r: Range)
    requires Stands(text, p, RangeText(r))
    ensures RunEnd(Space, text, p) == p
  {
    NtopShape(r.lower, 0);
    hide Ntop, NtopFrom;
    StandsAt(text, p, RangeText(r), 0);
    RunEndIs(Space, text, p, p);
  }

  lemma RangeReads(forms: Forms, text: string, p: nat, r: Range)
    requires FormsFit(forms, text) && r.Proper() && Stands(text, p, RangeText(r))
    requires At(text, p + |RangeText(r)|) == ',' || At(text, p + |RangeText(r)|) == ']'
    ensures RangeAt(forms, text, p) == Some(Reading(r, p + |RangeText(r)|))
  {
    hide Writes, Ntop, RangeAt, RunEnd;
    NtopWrites(r.lower);
    NtopWrites(r.upper);
    RangeStarts(text, p, r);
    if r.lower == r.upper {
      SingleReads(forms, text, p, p, r.lower, Ntop(r.lower));
    } else {
      PairReads(forms, text, p, p, r.lower, r.upper, Ntop(r.lower), '-', Ntop(r.upper));
    }
  }

  lemma {:induction false} RangesRead(forms: Forms, text: string, p: nat, rs: seq<Range>)
    requires FormsFit(forms, text) && rs != [] && AllProper(rs)
    requires Stands(text, p, Joined(rs)) && At(text, p + |Joined(rs)|) == ']'
    ensures RangesAt(forms, text, p) == Listing(rs, p + |Joined(rs)|)
    decreases |rs|
  {
    hide *;
    var s, end := RangeText(rs[0]), p + |Joined(rs)|;
    JoinedSplits(rs);
    if |rs| == 1 {
      RangeReads(forms, text, p, rs[0]);
      LastRange(forms, text, p, rs[0], end);
    } else {
      var e := p + |s|;
      NextStands(text, p, Joined(rs), s, Joined(rs[1..]), e, end);
      RangeReads(forms, text, p, rs[0]);
      RangesRead(forms, text, e + 1, rs[1..]);
      NextRange(forms, text, p, rs[0], e, rs[1..], end);
    }
  }

  lemma JoinedSplits(rs: seq<Range>)
    requires rs != [] && AllProper(rs)
    ensures rs[0].Proper() && AllProper(rs[1..]) && rs == [rs[0]] + rs[1..]
    ensures |rs| == 1 ==> Joined(rs) == RangeText(rs[0]) && rs == [rs[0]]
    ensures |rs| > 1 ==> Joined(rs) == RangeText(rs[0]) + ("," + Joined(rs[1..]))
  {
    hide RangeText;
  }

  lemma CommaSplits(text: string, p: nat, s: string, more: string)
    requires Stands(text, p, s + ("," + more))
    ensures Stands(text, p, s) && At(text, p + |s|) == ',' && Stands(text, p + |s| + 1, more)
  {
    StandsApart(text, p, s, "," + more);
    StandsAt(text, p + |s|, "," + more, 0);
    StandsApart(text, p + |s|, ",", more);
  }

  lemma NextRange(forms: Forms, text: string, p: nat, r: Range, e: nat, more: seq<Range>, f: nat)
    requires FormsFit(forms, text) && p < e < |text| && At(text, e) == ','
    requires RangeAt(forms, text, p) == Some(Reading(r, e)) && RangesAt(forms, text, e + 1) == Listing(more, f)
    ensures RangesAt(forms, text, p) == Listing([r] + more, f)
  {
    hide RangeAt;
  }

  lemma LastRange(forms: Forms, text: string, p: nat, r: Range, e: nat)
    requires FormsFit(forms, text) && p < e <= |text| && At(text, e) != ','
    requires RangeAt(forms, text, p) == Some(Reading(r, e))
    ensures RangesAt(forms, text, p) == Listing([r], e)
  {
    hide RangeAt;
  }

  lemma JoinedStarts(rs: seq<Range>)
    requires rs != []
    ensures |Joined(rs)| > 0 && IsDigit(Joined(rs)[0])
  {
    NtopShape(rs[0].lower, 0);
  }

  lemma Bracketed(j: string, rest: string)
    ensures var text := "[" + j + "]" + rest;
      At(text, 0) == '[' && Stands(text, 1, j) && At(text, |j| + 1) == ']' && |"[" + j + "]"| == |j| + 2
  {
    var text := "[" + j + "]" + rest;
    assert text[1..1 + |j|] == j;
  }

  /** The text of a non-empty list is read back as that list, whatever follows it. */
  lemma PrintedReadsBack(forms: Forms, rs: seq<Range>, rest: string)
    requires rs != [] && AllProper(rs) && FormsFit(forms, SetText(rs) + rest)
    ensures SetAt(forms, SetText(rs) + rest) == Parsed(rs, false, |SetText(rs)|)
  {
    hide Joined, RangesAt, SetAt;
    var text, j := SetText(rs) + rest, Joined(rs);
    Bracketed(j, rest);
    JoinedStarts(rs);
    StandsAt(text, 1, j, 0);
    RangesRead(forms, text, 1, rs);
    BracketReads(forms, text, rs, |j| + 1);
  }

  lemma BracketReads(forms: Forms, text: string, rs: seq<Range>, e: nat)
    requires FormsFit(forms, text) && 1 < e < |text| && text[0] == '[' && IsDigit(text[1]) && text[e] == ']'
    requires RangesAt(forms, text, 1) == Listing(rs, e)
    ensures SetAt(forms, text) == Parsed(rs, false, e + 1)
  {
    hide RangesAt;
    RunEndIs(Space, text, 0, 0);
    RunEndIs(Space, text, e, e);
  }

  // ----- texts put together from their parts

  lemma BytesWrite(x: Bytes)
    requires x.Fit()
    ensures Writes(x.Text(), x.Addr())
  {
    hide Writes, Ntop, FromBytes, Quad;
    QuadIs(x.a, x.b, x.c, x.d);
    NtopWrites(x.Addr());
  }

  /** The range that an item stands for. */
  function ItemRange(it: Item): (r: Range)
    requires it.Fit()
    ensures r.Proper()
  {
    match it
    case One(x) => Range(x.Addr(), x.Addr())
    case Between(x, _, y) => Ordered(x.Addr(), y.Addr())
    case From(x, _) => Range(x.Addr(), LAST)
  }

  lemma ItemStarts(it: Item)
    requires it.Fit()
    ensures it.Text() != "" && IsDigit(it.Text()[0])
  {
    hide Quad, FromBytes, Pton;
    BytesWrite(it.x);
  }

  lemma ItemReads(forms: Forms, text: string, p: nat, l: Spaced)
    requires FormsFit(forms, text) && l.Fit() && Stands(text, p, l.Text()) && RangeEnd(At(text, p + |l.Text()|))
    ensures RangeAt(forms, text, p) == Some(Reading(ItemRange(l.item), p + |l.Text()|)) && l.Text() != ""
  {
    hide Writes, RangeAt, Quad, FromBytes, RunEnd, Blank, RangeEnd;
    var q := p + |l.gap|;
    StandsApart(text, p, l.gap, l.item.Text());
    ItemStarts(l.item);
    StandsAt(text, q, l.item.Text(), 0);
    GapSkips(text, p, l.gap, l.item.Text());
    BytesWrite(l.item.x);
    match l.item
    case One(x) =>
      SingleReads(forms, text, p, q, x.Addr(), x.Text());
    case Between(x, mark, y) =>
      BytesWrite(y);
      PairReads(forms, text, p, q, x.Addr(), y.Addr(), x.Text(), mark, y.Text());
    case From(x, mark) =>
      OpenReads(forms, text, p, q, x.Addr(), x.Text(), mark);
  }

  function ItemRanges(ls: seq<Spaced>): (rs: seq<Range>)
    requires ItemsFit(ls)
    ensures |rs| == |ls|
  {
    if ls == [] then [] else [ItemRange(ls[0].item)] + ItemRanges(ls[1..])
  }

  predicate ListEnds(c: char) { RangeEnd(c) && c != ',' }

  lemma {:induction false} ItemsRead(forms: Forms, text: string, p: nat, ls: seq<Spaced>, end: nat)
    requires FormsFit(forms, text) && ls != [] && ItemsFit(ls) && Stands(text, p, ListText(ls))
    requires end == p + |ListText(ls)| && ListEnds(At(text, end))
    ensures RangesAt(forms, text, p) == Listing(ItemRanges(ls), end)
    decreases |ls|
  {
    hide *;
    ItemsSplit(ls);
    if |ls| == 1 {
      LastItem(forms, text, p, ls[0], end);
    } else {
      var e, more := p + |ls[0].Text()|, ls[1..];
      NextStands(text, p, ListText(ls), ls[0].Text(), ListText(more), e, end);
      ItemsRead(forms, text, e + 1, more, end);
      NextItem(forms, text, p, ls[0], e, ItemRanges(more), end);
    }
  }

  lemma NextStands(text: string, p: nat, whole: string, t: string, more: string, e: nat, end: nat)
    requires Stands(text, p, whole) && whole == t + ("," + more) && e == p + |t| && end == p + |whole|
    ensures Stands(text, p, t) && At(text, e) == ',' && Stands(text, e + 1, more)
    ensures end == e + 1 + |more| && e < |text|
  {
    CommaSplits(text, p, t, more);
  }

  lemma LastItem(forms: Forms, text: string, p: nat, l: Spaced, e: nat)
    requires FormsFit(forms, text) && l.Fit() && Stands(text, p, l.Text()) && e == p + |l.Text()|
    requires ListEnds(At(text, e))
    ensures RangesAt(forms, text, p) == Listing([ItemRange(l.item)], e)
  {
    hide RangesAt, RangeAt, RangeEnd, Item.Fit, Spaced.Text, ItemRange, FormsFit;
    ItemReads(forms, text, p, l);
    LastRange(forms, text, p, ItemRange(l.item), e);
  }

  lemma NextItem(forms: Forms, text: string, p: nat, l: Spaced, e: nat, rs: seq<Range>, f: nat)
    requires FormsFit(forms, text) && l.Fit() && Stands(text, p, l.Text()) && e == p + |l.Text()| && At(text, e) == ','
    requires e < |text| && RangesAt(forms, text, e + 1) == Listing(rs, f)
    ensures RangesAt(forms, text, p) == Listing([ItemRange(l.item)] + rs, f)
  {
    hide RangesAt, RangeAt, Item.Fit, Spaced.Text, ItemRange, FormsFit, Stands;
    ItemReads(forms, text, p, l);
    NextRange(forms, text, p, ItemRange(l.item), e, rs, f);
  }

  lemma ItemsSplit(ls: seq<Spaced>)
    requires ls != [] && ItemsFit(ls)
    ensures ls[0].Fit() && ls[0].item.Fit() && ItemsFit(ls[1..])
    ensures ItemRanges(ls) == [ItemRange(ls[0].item)] + ItemRanges(ls[1..])
    ensures |ls| == 1 ==> ListText(ls) == ls[0].Text() && ItemRanges(ls) == [ItemRange(ls[0].item)]
    ensures |ls| > 1 ==> ListText(ls) == ls[0].Text() + ("," + ListText(ls[1..]))
  {
  }

  lemma ItemsStart(ls: seq<Spaced>)
    requires ls != [] && ItemsFit(ls)
    ensures ListText(ls) != ""
    ensures if ls[0].gap == "" then IsDigit(ListText(ls)[0]) else ListText(ls)[0] == ls[0].gap[0] && IsSpace(ls[0].gap[0])
  {
    ItemsSplit(ls);
    ItemStarts(ls[0].item);
    if ls[0].gap != "" { ClassesAre(ls[0].gap[0]); }
    hide ListText, Item.Text, Item.Fit, IsSpace;
  }

  function ContentRanges(c: Content): (rs: seq<Range>)
    requires c.Fit()
  {
    match c
    case Any(_) => [ALL]
    case List(ls) => ItemRanges(ls)
  }

  lemma AnyReads(text: string, p: nat, word: string)
    requires Content.Any(word).Fit() && Stands(text, p, word)
    ensures AnyAt(text, p) && !IsSpace(word[0]) && word[0] != '!' && word[0] != '['
  {
    StandsAt(text, p, word, 0);
    StandsAt(text, p, word, 1);
    StandsAt(text, p, word, 2);
  }

  lemma ContentReads(forms: Forms, text: string, p: nat, c: Content)
    requires FormsFit(forms, text) && c.Fit() && Stands(text, p, c.Text())
    requires c.List? ==> ListEnds(At(text, p + |c.Text()|))
    ensures ListingAt(forms, text, p) == Listing(ContentRanges(c), p + |c.Text()|)
  {
    hide RangesAt, ListEnds, ItemsFit, ItemRanges, ListText, FormsFit;
    match c
    case Any(w) =>
      AnyReads(text, p, w);
    case List(ls) =>
      ItemsStart(ls);
      StandsAt(text, p, ListText(ls), 0);
      ItemsRead(forms, text, p, ls, p + |ListText(ls)|);
  }

  /** The first character of a content that has no whitespace in front. */
  lemma ContentStarts(c: Content)
    requires c.Fit() && (c.List? ==> c.items[0].gap == "")
    ensures c.Text() != "" && !IsSpace(c.Text()[0]) && c.Text()[0] != '!' && c.Text()[0] != '['
  {
    hide ItemsFit, ListText;
    match c
    case Any(w) => assert w[0] == 'a' || w[0] == 'A';
    case List(ls) => ItemsStart(ls);
  }

  /** Whitespace, '!', whitespace, and more. */
  lemma InvertOpens(lead: string, gap: string, more: string)
    requires Blank(lead) && Blank(gap) && more != "" && !IsSpace(more[0])
    ensures var text := lead + ("!" + (gap + more));
      var p, q := RunEnd(Space, text, 0), |lead| + 1 + |gap|;
      At(text, p) == '!' && p < |text| && RunEnd(Space, text, p + 1) == q && Stands(text, q, more)
  {
    hide RunEnd, Stands, Blank;
    var text := lead + ("!" + (gap + more));
    WholeStands(text);
    StandsApart(text, 0, lead, "!" + (gap + more));
    StandsApart(text, |lead|, "!", gap + more);
    StandsApart(text, |lead| + 1, gap, more);
    StandsAt(text, |lead| + 1 + |gap|, more, 0);
    StandsAt(text, |lead|, "!", 0);
    GapSkips(text, |lead| + 1, gap, more);
    GapSkips(text, 0, lead, "!" + (gap + more));
  }

  /** Whitespace and more, without '!'. */
  lemma PlainOpens(gap: string, more: string)
    requires Blank(gap) && more != "" && !IsSpace(more[0]) && more[0] != '!'
    ensures var text := gap + more;
      var p := RunEnd(Space, text, 0);
      At(text, p) != '!' && RunEnd(Space, text, p) == p == |gap| && Stands(text, p, more)
  {
    hide Stands, Blank;
    var text := gap + more;
    WholeStands(text);
    StandsApart(text, 0, gap, more);
    StandsAt(text, |gap|, more, 0);
    GapSkips(text, 0, gap, more);
  }

  /** What stands behind a list ends it. */
  lemma TailEnds(text: string, e: nat, s: SetParts)
    requires s.Fit() && Stands(text, e, s.tail + s.Close()) && e + |s.tail + s.Close()| == |text|
    ensures s.content.List? ==> ListEnds(At(text, e))
  {
    hide Content.Fit, Content.Text;
    if s.tail + s.Close() != "" { StandsAt(text, e, s.tail + s.Close(), 0); }
    if s.tail != "" { ClassesAre(s.tail[0]); }
  }

  lemma BodyStarts(s: SetParts)
    requires s.Fit()
    ensures s.Body() != "" && !IsSpace(s.Body()[0]) && s.Body()[0] != '!' && (s.Body()[0] == '[') == s.bracket
  {
    hide Content.Fit, Content.Text, Blank;
    if !s.bracket { ContentStarts(s.content); }
  }

  /** From the content's end on. */
  lemma SetCloses(text: string, e: nat, rs: seq<Range>, invert: bool, bracket: bool, tail: string, rest: string)
    requires Stands(text, e, tail + ((if bracket then "]" else "") + rest)) && Blank(tail)
    requires e + |tail| + (if bracket then 1 else 0) + |rest| == |text|
    requires !bracket && rest != "" ==> !IsSpace(rest[0])
    ensures Closed(Listing(rs, e), bracket, invert, text) == Parsed(rs, invert, |text| - |rest|)
  {
    hide RunEnd, Blank, Stands;
    var close := if bracket then "]" else "";
    StandsApart(text, e, tail, close + rest);
    if close + rest != "" { StandsAt(text, e + |tail|, close + rest, 0); }
    GapSkips(text, e, tail, close + rest);
  }

  /** From the bracket or the content on. */
  lemma BodyReads(forms: Forms, text: string, q: nat, s: SetParts)
    requires FormsFit(forms, text) && s.Fit() && Stands(text, q, s.Body()) && q + |s.Body()| == |text|
    ensures var bracket := At(text, q) == '[';
      Closed(ListingAt(forms, text, if bracket then q + 1 else q), bracket, s.invert, text)
        == Parsed(ContentRanges(s.content), s.invert, |text| - |s.rest|)
  {
    hide Content.Fit, Content.Text, ContentRanges, ListingAt, Closed, Stands, FormsFit, ListEnds, Blank;
    var open := if s.bracket then "[" else "";
    var end := s.tail + s.Close();
    BodyStarts(s);
    StandsAt(text, q, s.Body(), 0);
    StandsApart(text, q, open, s.content.Text() + end);
    StandsApart(text, q + |open|, s.content.Text(), end);
    TailEnds(text, q + |open| + |s.content.Text()|, s);
    ContentReads(forms, text, q + |open|, s.content);
    if !s.bracket && s.rest != "" { ClassesAre(s.rest[0]); }
    SetCloses(text, q + |open| + |s.content.Text()|, ContentRanges(s.content), s.invert, s.bracket, s.tail, s.rest);
  }

  /** A set put together from its parts is read as its content, inverted exactly after '!', and
      ends where its rest begins. */
  lemma SetReads(forms: Forms, s: SetParts)
    requires s.Fit() && FormsFit(forms, s.Text())
    ensures SetAt(forms, s.Text()) == Parsed(ContentRanges(s.content), s.invert, |s.Text()| - |s.rest|)
  {
    hide Content.Fit, ContentRanges, ListingAt, Closed, Stands, FormsFit, Blank, SetParts.Bare, SetParts.Body, RunEnd;
    var text, body := s.Text(), s.Body();
    BodyStarts(s);
    if s.invert {
      InvertOpens(s.lead, s.gap, body);
      BodyReads(forms, text, |s.lead| + 1 + |s.gap|, s);
    } else {
      assert text == (s.lead + s.gap) + body;
      BlankJoins(s.lead, s.gap);
      PlainOpens(s.lead + s.gap, body);
      BodyReads(forms, text, |s.lead + s.gap|, s);
    }
  }

  lemma {:induction false} RangeOfItem(ls: seq<Spaced>, i: nat)
    requires ItemsFit(ls) && i < |ls|
    ensures ItemRanges(ls)[i] == ItemRange(ls[i].item)
  {
    if i > 0 { RangeOfItem(ls[1..], i - 1); }
  }

  lemma ItemHolds(it: Item, z: Addr)
    requires it.Fit()
    ensures ItemRange(it).Holds(z) <==> it.Covers(z)
  {
    hide FromBytes;
  }

  /** The addresses in the ranges read are those that the content covers. */
  lemma ContentHas(c: Content, z: Addr)
    requires c.Fit()
    ensures Has(ContentRanges(c), z) <==> c.Covers(z)
  {
    hide ItemRange, ItemRanges, Item.Covers, Item.Fit, Blank;
    match c
    case Any(_) => HasOne(ALL);
    case List(ls) =>
      forall i | 0 <= i < |ls| ensures ItemRanges(ls)[i].Holds(z) <==> ls[i].item.Covers(z) {
        RangeOfItem(ls, i);
        ItemHolds(ls[i].item, z);
      }
  }
}

/** Parsing into a set and printing one. */
module IpSetTexts {
  import opened Ctype
  import opened DottedQuads
  import opened IpRanges
  import opened IpSetGrammar
  import opened IpSetParts
  import opened IpSets
  import opened Lexers
  import opened Options
  import opened Texts

  method ParseAddress(text: string, pos: nat) returns (r: Lexed)
    requires pos <= |text|
    ensures r == AddressAt(text, pos)
  {
    hide PtonFrom;
    var start := SkipWhitespace(text, pos);
    var b := 0;
    while b + 1 < INET_ADDRSTRLEN && In(DotOrDigit, At(text, start + b))
      invariant b < INET_ADDRSTRLEN && start + b <= |text|
      invariant RunEnd(DotOrDigit, text, start + b) == RunEnd(DotOrDigit, text, start)
    {
      b := b + 1;
    }
    if b < 7 { return Rejected; }
    var a := Pton(text[start..start + b]);
    match a
    case None => return Rejected;
    case Some(v) => return Number(v, start + b);
  }

  method ParseRange(forms: Forms, text: string, pos: nat) returns (r: Option<Reading>)
    requires pos <= |text| && FormsFit(forms, text)
    ensures r == RangeAt(forms, text, pos)
  {
    hide AddressAt;
    var start := SkipWhitespace(text, pos);
    if At(text, start) == '-' || At(text, start) == ':' {
      r := FormAt(forms, text, pos);
    } else {
      var lower := ParseAddress(text, start);
      if lower.Rejected? { return None; }
      var e := lower.end;
      if At(text, e) == '/' {
        r := FormAt(forms, text, pos);
      } else if At(text, e) == '-' || At(text, e) == ':' {
        e := e + 1;
        if !IsDigit(At(text, e)) {
          r := Some(Reading(Range(lower.value, LAST), e));
        } else {
          var upper := ParseAddress(text, e);
          if upper.Rejected? { return None; }
          r := Some(Reading(Ordered(lower.value, upper.value), upper.end));
        }
      } else {
        r := Some(Reading(Range(lower.value, lower.value), e));
      }
    }
    if r.Some? && !RangeEnd(At(text, r.value.end)) { return None; }
  }

  ghost function Prepend(front: seq<Range>, l: Listing): Listing {
    match l
    case Bad => Bad
    case Listing(rs, e) => Listing(front + rs, e)
  }

  lemma PrependNext(forms: Forms, text: string, p: nat, front: seq<Range>)
    requires p <= |text| && FormsFit(forms, text) && RangeAt(forms, text, p).Some?
    requires var r := RangeAt(forms, text, p).value; At(text, r.end) == ','
    ensures var r := RangeAt(forms, text, p).value;
      Prepend(front, RangesAt(forms, text, p)) == Prepend(front + [r.range], RangesAt(forms, text, r.end + 1))
  {
    hide RangeAt;
    var r := RangeAt(forms, text, p).value;
    var l := RangesAt(forms, text, r.end + 1);
    if l.Listing? { assert front + ([r.range] + l.ranges) == (front + [r.range]) + l.ranges; }
  }

  lemma HasMore(rs': seq<Range>, rs: seq<Range>, front: seq<Range>, r: Range)
    requires (forall x: Addr :: Has(rs, x) <==> Has(front, x)) && IsUnion(rs', rs, r)
    ensures forall x: Addr :: Has(rs', x) <==> Has(front + [r], x)
  {
    forall x: Addr ensures Has(rs', x) <==> Has(front + [r], x) {
      HasConcat(front, [r], x);
      HasOne(r);
    }
  }

  /** parse_ipranges into an empty set; -1 or where it stopped. */
  method ParseRanges(forms: Forms, text: string, pos: nat, ips: IpSet) returns (ok: bool, end: nat)
    requires pos <= |text| && FormsFit(forms, text) && ips.ranges == []
    modifies ips
    ensures Canonical(ips.ranges)
    ensures match RangesAt(forms, text, pos)
      case Bad => !ok
      case Listing(rs, e) => ok && end == e && forall x: Addr :: Has(ips.ranges, x) <==> Has(rs, x)
  {
    hide RangeAt;
    ghost var front: seq<Range> := [];
    end := pos;
    while true
      invariant pos <= end <= |text| && Canonical(ips.ranges)
      invariant Prepend(front, RangesAt(forms, text, end)) == RangesAt(forms, text, pos)
      invariant forall x: Addr :: Has(ips.ranges, x) <==> Has(front, x)
      decreases |text| - end
    {
      var r := ParseRange(forms, text, end);
      if r.None? { return false, end; }
      ghost var rs := ips.ranges;
      ips.Add(r.value.range);
      HasMore(ips.ranges, rs, front, r.value.range);
      if At(text, r.value.end) != ',' { return true, r.value.end; }
      PrependNext(forms, text, end, front);
      front := front + [r.value.range];
      end := r.value.end + 1;
    }
  }

  /** parse_initialized_ipset.  What is accepted is read into the canonical list of the addresses
      listed, or of all others after '!'; -1 also where that leaves no address. */
  method ParseSet(forms: Forms, text: string, ips: IpSet) returns (ret: int)
    requires FormsFit(forms, text)
    modifies ips
    ensures match SetAt(forms, text)
      case Invalid => ret == -1
      case Parsed(rs, inverted, e) =>
        Canonical(ips.ranges)
        && Members(ips.ranges) == (if inverted then Span(ALL) - Members(rs) else Members(rs))
        && ret == if ips.ranges == [] then -1 else e
  {
    hide ListingAt, Canonical, Has, Members, RunEnd, FormsFit;
    ips.ranges := [];
    var p := SkipWhitespace(text, 0);
    var invert := At(text, p) == '!';
    if invert { p := p + 1; }
    p := SkipWhitespace(text, p);
    var inbracket := At(text, p) == '[';
    if inbracket { p := p + 1; }
    var ok;
    ok, p := ParseListing(forms, text, p, ips);
    if !ok { return -1; }
    p := SkipWhitespace(text, p);
    if inbracket {
      if At(text, p) != ']' {
        ips.ranges := [];
        return -1;
      }
      p := p + 1;
    }
    ret := ips.PostParse(invert);
    EmptyIsNil(ips.ranges);
    if ret == 0 { ret := p; }
  }

  method ParseListing(forms: Forms, text: string, p: nat, ips: IpSet) returns (ok: bool, end: nat)
    requires p <= |text| && FormsFit(forms, text) && ips.ranges == []
    modifies ips
    ensures Canonical(ips.ranges)
    ensures match ListingAt(forms, text, p)
      case Bad => !ok
      case Listing(rs, e) => ok && end == e && Members(ips.ranges) == Members(rs)
  {
    hide RangesAt;
    if AnyAt(text, p) {
      ips.Add(ALL);
      HasOne(ALL);
      return true, p + 3;
    }
    ok, end := ParseRanges(forms, text, p, ips);
  }

  lemma CoversAll(s: SetParts, rs: seq<Range>, x: Addr)
    requires s.Fit()
    requires Members(rs) == if s.invert then Span(ALL) - Members(ContentRanges(s.content)) else Members(ContentRanges(s.content))
    ensures Has(rs, x) <==> s.Covers(x)
  {
    hide Has, ContentRanges, Content.Fit, Content.Covers;
    ContentHas(s.content, x);
    assert x in Members(rs) <==> Has(rs, x);
    assert ALL.Holds(x);
  }

  /** What is read from a text put together from its parts: exactly the addresses that they cover,
      and -1 if there is none. */
  method ParseParts(forms: Forms, s: SetParts, ips: IpSet) returns (ret: int)
    requires s.Fit() && FormsFit(forms, s.Text())
    modifies ips
    ensures Canonical(ips.ranges)
    ensures forall x: Addr ::
      s.Covers(x) <==> exists i :: 0 <= i < |ips.ranges| && ips.ranges[i].lower <= x <= ips.ranges[i].upper
    ensures if exists x: Addr :: s.Covers(x) then ret == |s.Text()| - |s.rest| else ret == -1 && ips.ranges == []
  {
    hide SetAt, SetParts.Fit, SetParts.Text, SetParts.Covers, Canonical, FormsFit;
    ret := ParseSet(forms, s.Text(), ips);
    SetReads(forms, s);
    forall x: Addr ensures Has(ips.ranges, x) <==> s.Covers(x) { CoversAll(s, ips.ranges, x); }
    SomeMember(ips.ranges);
  }

  lemma SomeMember(rs: seq<Range>)
    requires Canonical(rs)
    ensures (exists x: Addr :: Has(rs, x)) <==> rs != []
  {
    EmptyIsNil(rs);
    if rs != [] { var x :| x in Members(rs); assert Has(rs, x); }
  }

  /** The parts of the printed text with '!' and whitespace in front. */
  function InvertedParts(lead: string, gap: string, rs: seq<Range>): SetParts {
    SetParts(lead, true, gap, true, Content.List(RangeItems(rs)), "", "")
  }

  lemma InvertedText(lead: string, gap: string, rs: seq<Range>)
    requires rs != [] && Blank(lead) && Blank(gap)
    ensures InvertedParts(lead, gap, rs).Fit()
    ensures InvertedParts(lead, gap, rs).Text() == lead + ("!" + (gap + SetText(rs)))
  {
    hide Joined, ListText, PrintedFor, ItemsFit;
    SetTextIs(rs);
    var j := ListText(RangeItems(rs));
    assert "[" + (j + ("" + ("]" + ""))) == ("[" + j) + "]";
  }

  lemma InvertedCovers(lead: string, gap: string, rs: seq<Range>, x: Addr)
    requires rs != [] && AllProper(rs) && InvertedParts(lead, gap, rs).Fit()
    ensures InvertedParts(lead, gap, rs).Covers(x) <==> !Has(rs, x)
  {
    SetTextIs(rs);
    hide FromBytes, Item.Fit, Joined, ListText, Blank, ItemsFit;
    var ls := RangeItems(rs);
    forall i | 0 <= i < |rs| ensures ls[i].item.Covers(x) <==> rs[i].Holds(x) {
      assert PrintedFor(ls[i], rs[i]);
    }
  }

  lemma OthersMembers(s: SetParts, now: seq<Range>, rs: seq<Range>)
    requires s.Fit() && forall x: Addr :: s.Covers(x) <==> !Has(rs, x)
    requires forall x: Addr :: s.Covers(x) <==> exists i :: 0 <= i < |now| && now[i].lower <= x <= now[i].upper
    ensures Members(now) == Span(ALL) - Members(rs)
    ensures (exists x: Addr :: s.Covers(x)) <==> Members(rs) != Span(ALL)
  {
    hide SetParts.Fit, SetParts.Covers;
    assert forall x: Addr :: x in Members(rs) <==> Has(rs, x);
    assert forall x: Addr :: x in Span(ALL);
    forall x: Addr ensures Has(now, x) <==> s.Covers(x) {}
    if Members(rs) != Span(ALL) {
      var x :| x in Span(ALL) && x !in Members(rs);
      assert s.Covers(x);
    }
  }

  /** '!' before the printed text of a set gives every other address, and -1 if there is none. */
  method ParseInverted(forms: Forms, lead: string, gap: string, rs: seq<Range>, ips: IpSet) returns (ret: int)
    requires rs != [] && AllProper(rs) && Blank(lead) && Blank(gap) && FormsFit(forms, lead + ("!" + (gap + SetText(rs))))
    modifies ips
    ensures Canonical(ips.ranges) && Members(ips.ranges) == Span(ALL) - Members(rs)
    ensures ret == if Members(rs) == Span(ALL) then -1 else |lead| + 1 + |gap| + |SetText(rs)|
  {
    hide *;
    InvertedText(lead, gap, rs);
    ghost var s := InvertedParts(lead, gap, rs);
    forall x: Addr ensures s.Covers(x) <==> !Has(rs, x) { InvertedCovers(lead, gap, rs, x); }
    ret := ParseParts(forms, InvertedParts(lead, gap, rs), ips);
    OthersMembers(s, ips.ranges, rs);
    InvertedLength(lead, gap, rs);
  }

  lemma InvertedLength(lead: string, gap: string, rs: seq<Range>)
    ensures |lead + ("!" + (gap + SetText(rs)))| == |lead| + 1 + |gap| + |SetText(rs)|
    ensures InvertedParts(lead, gap, rs).rest == ""
  {
  }

  method AppendRange(us: string, r: Range) returns (s: string)
    ensures s == us + RangeText(r)
  {
    s := us + Ntop(r.lower);
    if r.upper != r.lower { s := s + ("-" + Ntop(r.upper)); }
  }

  lemma {:induction false} JoinedLast(rs: seq<Range>, r: Range)
    ensures Joined(rs + [r]) == if rs == [] then RangeText(r) else Joined(rs) + ("," + RangeText(r))
  {
    hide RangeText;
    if rs != [] {
      JoinedLast(rs[1..], r);
      assert (rs + [r])[1..] == rs[1..] + [r];
      var s, t := RangeText(rs[0]), "," + RangeText(r);
      if |rs| == 1 {
        assert rs[1..] == [];
      } else {
        assert s + ("," + (Joined(rs[1..]) + t)) == (s + ("," + Joined(rs[1..]))) + t;
      }
    }
  }

  lemma CommaJoins(front: string, j: string, comma: string, t: string)
    ensures ((front + j) + comma) + t == front + (j + (comma + t))
  {
  }

  lemma TakeNext(rs: seq<Range>, z: nat)
    requires z < |rs|
    ensures rs[..z + 1] == rs[..z] + [rs[z]]
  {
  }

  /** One turn of the loop: a comma if this is not the first range, and the range. */
  method AppendNext(us: string, rs: seq<Range>, z: nat, ghost front: string) returns (s: string)
    requires z < |rs| && us == front + Joined(rs[..z])
    ensures s == front + Joined(rs[..z + 1])
  {
    var t := RangeText(rs[z]);
    ghost var j := Joined(rs[..z]);
    assert z == 0 ==> rs[..z] == [] && j == "";
    assert front + "" == front;
    JoinedLast(rs[..z], rs[z]);
    TakeNext(rs, z);
    hide RangeText, Joined;
    CommaJoins(front, j, ",", t);
    var comma := if z != 0 then us + "," else us;
    s := AppendRange(comma, rs[z]);
  }

  method StringizeSet(us: string, ips: IpSet) returns (s: string)
    ensures s == us + SetText(ips.ranges)
  {
    assert ips.ranges[..0] == [] && Joined([]) == "";
    hide RangeText, Joined;
    s := "[";
    var z := 0;
    while z < |ips.ranges|
      invariant z <= |ips.ranges| && s == "[" + Joined(ips.ranges[..z])
    {
      s := AppendNext(s, ips.ranges, z, "[");
      z := z + 1;
    }
    assert ips.ranges[..z] == ips.ranges;
    s := us + (s + "]");
  }

  /** Every non-empty canonical set is read back from its text as the very same ranges. */
  method PrintAndParse(forms: Forms, ips: IpSet, other: IpSet) returns (text: string, ret: int)
    requires Canonical(ips.ranges) && ips.ranges != [] && FormsFit(forms, SetText(ips.ranges)) && ips != other
    modifies other
    ensures other.ranges == ips.ranges && ret == |text|
  {
    hide SetAt;
    text := StringizeSet("", ips);
    assert text == SetText(ips.ranges);
    ret := ParseSet(forms, text, other);
    PrintedReadsBackHere(forms, ips.ranges);
    CanonicalUnique(ips.ranges, other.ranges);
  }

  lemma PrintedReadsBackHere(forms: Forms, rs: seq<Range>)
    requires Canonical(rs) && rs != [] && FormsFit(forms, SetText(rs))
    ensures SetAt(forms, SetText(rs)) == Parsed(rs, false, |SetText(rs)|)
  {
    hide SetAt;
    CanonicalIsSeparated(rs);
    assert SetText(rs) + "" == SetText(rs);
    PrintedReadsBack(forms, rs, "");
  }
}

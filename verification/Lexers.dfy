/** The character classes of <ctype.h> in the C locale, and runs of them in a text.  Reading
    at the end of a text gives NUL. */
module Ctype {
  const NUL: char := '\0'

  function At(text: string, i: nat): char { if i < |text| then text[i] else NUL }

  predicate IsDigit(c: char) { '0' <= c <= '9' }

  predicate IsAlpha(c: char) { 'a' <= c <= 'z' || 'A' <= c <= 'Z' }

  predicate IsAlnum(c: char) { IsDigit(c) || IsAlpha(c) }

  predicate IsXDigit(c: char) { IsDigit(c) || 'a' <= c <= 'f' || 'A' <= c <= 'F' }

  predicate IsSpace(c: char) { c == ' ' || 9 as char <= c <= 13 as char }

  predicate IsPunct(c: char) { '!' <= c <= '~' && !IsAlnum(c) }

  datatype Class = Space | Digit | XDigit | SchemeChar | LiteralChar | NonSpace | DotOrDigit

  predicate In(cl: Class, c: char) {
    match cl
    case Space => IsSpace(c)
    case Digit => IsDigit(c)
    case XDigit => IsXDigit(c)
    case SchemeChar => IsAlnum(c) || c == '-'
    case LiteralChar => IsXDigit(c) || c == '.' || c == ':'
    case NonSpace => c != NUL && !IsSpace(c)
    case DotOrDigit => IsDigit(c) || c == '.'
  }

  const CAPITALS: string := "ABCDEFGHIJKLMNOPQRSTUVWXYZ"
  const SMALLS: string := "abcdefghijklmnopqrstuvwxyz"
  const DIGITS: string := "0123456789"
  const SPACES: string := " \t\n\U{0B}\U{0C}\r"
  const PUNCTUATION: string := "!\"#$%&'()*+,-./:;<=>?@[\\]^_`{|}~"

  lemma InLiteral(c: char, s: string, first: int)
    requires forall i :: 0 <= i < |s| ==> s[i] as int == first + i
    ensures c in s <==> first <= c as int < first + |s|
  {
    if first <= c as int < first + |s| { assert s[c as int - first] == c; }
  }

  lemma LettersAndDigits(c: char)
    ensures IsDigit(c) <==> c in DIGITS
    ensures IsAlpha(c) <==> c in CAPITALS || c in SMALLS
  {
    InLiteral(c, DIGITS, '0' as int);
    InLiteral(c, CAPITALS, 'A' as int);
    InLiteral(c, SMALLS, 'a' as int);
  }

  lemma InJoin(c: char, whole: string, s: string, t: string)
    requires whole == s + t
    ensures c in whole <==> c in s || c in t
  {
  }

  lemma LowPunctuation(c: char)
    ensures c in "!\"#$%&'()*+,-./" <==> '!' <= c <= '/'
    ensures c in ":;<=>?@" <==> ':' <= c <= '@'
  {
    InLiteral(c, "!\"#$%&'()*+,-./", '!' as int);
    InLiteral(c, ":;<=>?@", ':' as int);
  }

  lemma HighPunctuation(c: char)
    ensures c in "[\\]^_`" <==> '[' <= c <= '`'
    ensures c in "{|}~" <==> '{' <= c <= '~'
  {
    InLiteral(c, "[\\]^_`", '[' as int);
    InLiteral(c, "{|}~", '{' as int);
  }

  lemma PunctuationIs(c: char)
    ensures IsPunct(c) <==> c in PUNCTUATION
  {
    LowPunctuation(c);
    HighPunctuation(c);
    var low, high := "!\"#$%&'()*+,-./" + ":;<=>?@", "[\\]^_`" + "{|}~";
    InJoin(c, low, "!\"#$%&'()*+,-./", ":;<=>?@");
    InJoin(c, high, "[\\]^_`", "{|}~");
    InJoin(c, PUNCTUATION, low, high);
  }

  /** The classes, spelled out. */
  lemma ClassesAre(c: char)
    ensures IsDigit(c) <==> c in DIGITS
    ensures IsAlpha(c) <==> c in CAPITALS || c in SMALLS
    ensures IsAlnum(c) <==> c in DIGITS || c in CAPITALS || c in SMALLS
    ensures IsXDigit(c) <==> c in "0123456789abcdefABCDEF"
    ensures IsSpace(c) <==> c in SPACES
    ensures IsPunct(c) <==> c in PUNCTUATION
  {
    PunctuationIs(c);
    LettersAndDigits(c);
    hide IsPunct, IsAlpha;
  }

  /** Where the run of the class that starts at i ends. */
  function RunEnd(cl: Class, text: string, i: nat): (e: nat)
    requires i <= |text|
    ensures i <= e <= |text|
    ensures forall k :: i <= k < e ==> In(cl, text[k])
    ensures !In(cl, At(text, e))
    decreases |text| - i
  {
    if i < |text| && In(cl, text[i]) then RunEnd(cl, text, i + 1) else i
  }

  /** A run's end is determined by what it contains and what stops it. */
  lemma {:induction false} RunEndIs(cl: Class, text: string, i: nat, e: nat)
    requires i <= e <= |text| && (forall k :: i <= k < e ==> In(cl, text[k])) && !In(cl, At(text, e))
    ensures RunEnd(cl, text, i) == e
    decreases e - i
  {
    if i < e { RunEndIs(cl, text, i + 1, e); }
  }
}

/** Strings that stand somewhere in a text. */
module Texts {
  import opened Ctype

  /** s stands in the text at p. */
  predicate Stands(text: string, p: nat, s: string) { p + |s| <= |text| && text[p..p + |s|] == s }

  lemma StandsApart(text: string, p: nat, s: string, t: string)
    requires Stands(text, p, s + t)
    ensures Stands(text, p, s) && Stands(text, p + |s|, t)
  {
    assert (s + t)[..|s|] == s && (s + t)[|s|..] == t;
    assert text[p..p + |s + t|][..|s|] == text[p..p + |s|];
    assert text[p..p + |s + t|][|s|..] == text[p + |s|..p + |s + t|];
  }

  lemma StandsAt(text: string, p: nat, s: string, k: nat)
    requires Stands(text, p, s) && k < |s|
    ensures At(text, p + k) == s[k]
  {
    assert text[p..p + |s|][k] == text[p + k];
  }

  lemma WholeStands(text: string)
    ensures Stands(text, 0, text)
  {
  }

  /** Whitespace only. */
  predicate Blank(s: string) { forall i :: 0 <= i < |s| ==> s[i] in SPACES }

  lemma BlankJoins(s: string, t: string)
    requires Blank(s) && Blank(t)
    ensures Blank(s + t)
  {
  }

  lemma GapSkips(text: string, p: nat, gap: string, t: string)
    requires Stands(text, p, gap + t) && Blank(gap) && !IsSpace(At(text, p + |gap|))
    ensures RunEnd(Space, text, p) == p + |gap| && Stands(text, p + |gap|, t)
  {
    StandsApart(text, p, gap, t);
    forall k | p <= k < p + |gap| ensures In(Space, text[k]) {
      StandsAt(text, p, gap, k - p);
      ClassesAre(text[k]);
    }
    RunEndIs(Space, text, p, p + |gap|);
  }
}

/** Numerals in a base, and the decimal numerals that printf writes. */
module Numerals {
  import opened Ctype

  function DigitValue(c: char): (v: nat)
    ensures v < 16
    ensures IsDigit(c) ==> v == (c - '0') as int
  {
    if IsDigit(c) then (c - '0') as int
    else if 'a' <= c <= 'f' then (c - 'a') as int + 10
    else if 'A' <= c <= 'F' then (c - 'A') as int + 10
    else 0
  }

  /** The unbounded number that the digits write in the base, most significant first. */
  function Value(base: nat, ds: string): nat {
    if ds == [] then 0 else Value(base, ds[..|ds| - 1]) * base + DigitValue(ds[|ds| - 1])
  }

  predicate AllDigits(ds: string) { forall i :: 0 <= i < |ds| ==> IsDigit(ds[i]) }

  predicate CanonicalNumeral(ds: string) { AllDigits(ds) && ds != [] && (ds[0] != '0' || ds == "0") }

  function DigitChar(d: nat): (c: char)
    requires d < 10
    ensures IsDigit(c) && DigitValue(c) == d && (c == '0' <==> d == 0)
  {
    '0' + d as char
  }

  /** The decimal numeral of n, without leading zeros. */
  function Decimal(n: nat): (ds: string)
    ensures ds != []
  {
    if n < 10 then [DigitChar(n)] else Decimal(n / 10) + [DigitChar(n % 10)]
  }

  lemma {:induction false} DecimalHasValue(n: nat)
    ensures CanonicalNumeral(Decimal(n)) && Value(10, Decimal(n)) == n && (Decimal(n)[0] == '0' <==> n == 0)
  {
    if n < 10 {
      assert Decimal(n)[..0] == [];
    } else {
      DecimalHasValue(n / 10);
      assert Decimal(n)[..|Decimal(n)| - 1] == Decimal(n / 10);
    }
  }

  lemma {:induction false} ValueHasDecimal(ds: string)
    requires CanonicalNumeral(ds)
    ensures Decimal(Value(10, ds)) == ds
    decreases |ds|
  {
    var front, d := ds[..|ds| - 1], ds[|ds| - 1];
    assert ds == front + [d];
    if front == [] {
      assert Value(10, front) == 0;
    } else {
      ValueHasDecimal(front);
      ValuePositive(front);
      var v := Value(10, front);
      assert (v * 10 + DigitValue(d)) / 10 == v && (v * 10 + DigitValue(d)) % 10 == DigitValue(d);
    }
  }

  lemma {:induction false} ValuePositive(ds: string)
    requires CanonicalNumeral(ds) && ds != "0"
    ensures Value(10, ds) > 0
    decreases |ds|
  {
    var front := ds[..|ds| - 1];
    if front == [] {
      assert ds == [ds[0]];
    } else {
      ValuePositive(front);
    }
  }

  /** A longer numeral is worth at least as much. */
  lemma {:induction false} ValueGrows(base: nat, ds: string, k: nat)
    requires k <= |ds| && base >= 1
    ensures Value(base, ds[..k]) <= Value(base, ds)
    decreases |ds|
  {
    if k == |ds| {
      assert ds[..k] == ds;
    } else {
      var front := ds[..|ds| - 1];
      ValueGrows(base, front, k);
      assert front[..k] == ds[..k];
      Product(Value(base, front), base);
    }
  }

  lemma Product(a: nat, b: nat)
    requires b >= 1
    ensures a <= a * b
  {
  }
}

/** Bounded unsigned integers read off a text, libdank/objects/lexers.c. */
module Lexers {
  import opened Ctype
  import opened Numerals
  import opened Powers

  /** The largest number that fits. */
  function Max(bits: nat): nat { Pow2(bits) - 1 }

  /** Whether augend * base + addend exceeds the width, without ever computing more than that:
      0 no, 1 yes, -1 misuse. */
  method WouldOverflow(bits: nat, augend: nat, addend: nat, base: nat) returns (r: int)
    ensures r == if bits > 64 || bits < 1 || base < 2 || base > 256 || addend >= base then -1
                 else if augend * base + addend > Max(bits) then 1 else 0
  {
    if bits > 64 || bits < 1 { return -1; }
    if base < 2 || base > 256 { return -1; }
    if addend >= base { return -1; }
    var max := Max(bits);
    QuotientBound(augend, max, base);
    if augend > max / base { return 1; }
    var scaled := augend * base;
    if max - scaled < addend { return 1; }
    return 0;
  }

  lemma QuotientBound(a: nat, max: nat, base: nat)
    requires base >= 1
    ensures a > max / base <==> a * base > max
  {
    var q := max / base;
    assert max == q * base + max % base;
    if a > q {
      assert a * base >= (q + 1) * base by { Monotone(q + 1, a, base); }
      assert (q + 1) * base == q * base + base;
    } else {
      assert a * base <= q * base by { Monotone(a, q, base); }
    }
  }

  lemma Monotone(a: nat, b: nat, c: nat)
    requires a <= b
    ensures a * c <= b * c
  {
  }

  /** One more digit; r != 0 if it is no digit of the base or the width is exceeded. */
  method SafelyAddOct(bits: nat, augend: nat, digit: char) returns (r: int, v: nat)
    requires 1 <= bits <= 64 && IsDigit(digit)
    ensures r == 0 <==> DigitValue(digit) < 8 && augend * 8 + DigitValue(digit) <= Max(bits)
    ensures v == if r == 0 then augend * 8 + DigitValue(digit) else augend
  {
    var addend := (digit - '0') as int;
    if addend >= 8 { return -1, augend; }
    r := WouldOverflow(bits, augend, addend, 8);
    if r != 0 { return r, augend; }
    return 0, augend * 8 + addend;
  }

  method SafelyAddDec(bits: nat, augend: nat, digit: char) returns (r: int, v: nat)
    requires 1 <= bits <= 64 && IsDigit(digit)
    ensures r == if augend * 10 + DigitValue(digit) <= Max(bits) then 0 else 1
    ensures v == if r == 0 then augend * 10 + DigitValue(digit) else augend
  {
    var addend := (digit - '0') as int;
    r := WouldOverflow(bits, augend, addend, 10);
    if r != 0 { return r, augend; }
    return 0, augend * 10 + addend;
  }

  method SafelyAddHex(bits: nat, augend: nat, xdigit: char) returns (r: int, v: nat)
    requires 1 <= bits <= 64 && IsXDigit(xdigit)
    ensures r == if augend * 16 + DigitValue(xdigit) <= Max(bits) then 0 else 1
    ensures v == if r == 0 then augend * 16 + DigitValue(xdigit) else augend
  {
    var addend: nat;
    if IsDigit(xdigit) {
      addend := (xdigit - '0') as int;
    } else {
      var low := if 'A' <= xdigit <= 'F' then xdigit - 'A' + 'a' else xdigit;
      addend := (low - 'a') as int + 10;
    }
    r := WouldOverflow(bits, augend, addend, 16);
    if r != 0 { return r, augend; }
    return 0, augend * 16 + addend;
  }

  // ----- what a lexer accepts

  /** The value and where reading stopped, or nothing. */
  datatype Lexed = Rejected | Number(value: nat, end: nat)

  /** A run of digits [p, e) of the base is accepted just when its value fits. */
  function Bounded(bits: nat, base: nat, text: string, p: nat, e: nat): Lexed
    requires p <= e <= |text|
  {
    var v := Value(base, text[p..e]);
    if v <= Max(bits) then Number(v, e) else Rejected
  }

  predicate OctalRun(text: string, p: nat, e: nat)
    requires p <= e <= |text|
  {
    forall k :: p <= k < e ==> DigitValue(text[k]) < 8
  }

  /** What may follow a lone zero. */
  predicate TokenEnd(c: char) { c == NUL || IsPunct(c) || IsSpace(c) }

  function Zero(text: string, p: nat): Lexed { if TokenEnd(At(text, p)) then Number(0, p) else Rejected }

  /** Tokens with a leading zero, which stands at p: 0, 00 and 0x0 alone, octal, hexadecimal. */
  function LeadingZero(bits: nat, text: string, p: nat): (r: Lexed)
    requires p < |text|
    ensures r.Number? ==> p < r.end <= |text|
  {
    var c := At(text, p + 1);
    if c == 'x' || c == 'X' then
      if At(text, p + 2) == '0' then Zero(text, p + 3)
      else Bounded(bits, 16, text, p + 2, RunEnd(XDigit, text, p + 2))
    else if c == '0' then Zero(text, p + 2)
    else if IsDigit(c) then
      var e := RunEnd(Digit, text, p + 1);
      if OctalRun(text, p + 1, e) then Bounded(bits, 8, text, p + 1, e) else Rejected
    else Zero(text, p + 1)
  }

  /** C notation: decimal, or one of the forms with a leading zero, after whitespace. */
  function UintAt(bits: nat, text: string, pos: nat): (r: Lexed)
    requires pos <= |text|
    ensures r.Number? ==> pos < r.end <= |text|
  {
    var p := RunEnd(Space, text, pos);
    if At(text, p) == '0' then LeadingZero(bits, text, p)
    else
      var e := RunEnd(Digit, text, p);
      if e == p then Rejected else Bounded(bits, 10, text, p, e)
  }

  /** Any non-empty run of hexadecimal digits after whitespace. */
  function HexAt(bits: nat, text: string, pos: nat): Lexed
    requires pos <= |text|
  {
    var p := RunEnd(Space, text, pos);
    var e := RunEnd(XDigit, text, p);
    if e == p then Rejected else Bounded(bits, 16, text, p, e)
  }

  // ----- what is left behind

  /** The value of the longest beginning of text[p..] that goes on from q with digits of the base
      and fits: what the loops have accumulated when they stop. */
  function Accumulated(bits: nat, base: nat, text: string, p: nat, q: nat): nat
    requires p <= q <= |text|
    decreases |text| - q
  {
    if IsXDigit(At(text, q)) && DigitValue(text[q]) < base && Value(base, text[p..q + 1]) <= Max(bits) then
      Accumulated(bits, base, text, p, q + 1)
    else Value(base, text[p..q])
  }

  /** What a token with a leading zero at p leaves in the result when it is rejected. */
  function Leftover(bits: nat, text: string, p: nat): nat
    requires p < |text|
  {
    var c := At(text, p + 1);
    if c == 'x' || c == 'X' then
      if At(text, p + 2) == '0' then 0 else Accumulated(bits, 16, text, p + 2, p + 2)
    else if IsDigit(c) && c != '0' then Accumulated(bits, 8, text, p + 1, p + 1)
    else 0
  }

  /** The zero at p is followed by a first digit other than 0 that the form and the width allow. */
  predicate Molested(bits: nat, text: string, p: nat) {
    var c, d := At(text, p + 1), At(text, p + 2);
    if c == 'x' || c == 'X' then IsXDigit(d) && d != '0' && DigitValue(d) <= Max(bits)
    else '1' <= c <= '7' && DigitValue(c) <= Max(bits)
  }

  lemma AccumulatedOn(bits: nat, base: nat, text: string, p: nat, q: nat)
    requires p <= q < |text| && IsXDigit(text[q]) && DigitValue(text[q]) < base
    ensures Accumulated(bits, base, text, p, q)
            == if Value(base, text[p..q]) * base + DigitValue(text[q]) <= Max(bits) then Accumulated(bits, base, text, p, q + 1)
               else Value(base, text[p..q])
  {
    hide Max;
    ValueStep(base, text, p, q);
  }

  lemma AccumulatedEnd(bits: nat, base: nat, text: string, p: nat, q: nat)
    requires p <= q <= |text|
    requires IsXDigit(At(text, q)) ==> DigitValue(text[q]) >= base || (base <= 10 && !IsDigit(text[q]))
    ensures Accumulated(bits, base, text, p, q) == Value(base, text[p..q])
  {
  }

  lemma {:induction false} AccumulatedGrows(bits: nat, base: nat, text: string, p: nat, q: nat)
    requires p <= q <= |text| && base >= 1
    ensures Value(base, text[p..q]) <= Accumulated(bits, base, text, p, q)
    decreases |text| - q
  {
    hide Value, Max;
    if IsXDigit(At(text, q)) && DigitValue(text[q]) < base && Value(base, text[p..q + 1]) <= Max(bits) {
      AccumulatedGrows(bits, base, text, p, q + 1);
      ValueGrows(base, text[p..q + 1], q - p);
      assert text[p..q + 1][..q - p] == text[p..q];
    }
  }

  lemma NotZero(c: char)
    requires IsXDigit(c) && c != '0'
    ensures DigitValue(c) > 0
  {
  }

  lemma FirstDigitStays(bits: nat, base: nat, text: string, p: nat)
    requires p <= |text| && base >= 1 && (IsXDigit(At(text, p)) ==> At(text, p) != '0')
    ensures Accumulated(bits, base, text, p, p) != 0
            <==> IsXDigit(At(text, p)) && DigitValue(At(text, p)) < base && DigitValue(At(text, p)) <= Max(bits)
  {
    assert text[p..p] == [] && Value(base, text[p..p]) == 0;
    hide Value, Max, DigitValue;
    if IsXDigit(At(text, p)) && DigitValue(At(text, p)) < base {
      NotZero(At(text, p));
      ValueStep(base, text, p, p);
      AccumulatedOn(bits, base, text, p, p);
      AccumulatedGrows(bits, base, text, p, p + 1);
    }
  }

  /** Read off before the call: whether a rejected token with a leading zero changes the result. */
  lemma LeftoverIsNotZero(bits: nat, text: string, p: nat)
    requires p < |text|
    ensures Leftover(bits, text, p) != 0 <==> Molested(bits, text, p)
  {
    hide Accumulated, Max;
    var c := At(text, p + 1);
    if c == 'x' || c == 'X' {
      if At(text, p + 2) != '0' { FirstDigitStays(bits, 16, text, p + 2); }
    } else if IsDigit(c) && c != '0' {
      FirstDigitStays(bits, 8, text, p + 1);
    }
  }

  // ----- the loops

  lemma ValueStep(base: nat, text: string, p: nat, q: nat)
    requires p <= q < |text|
    ensures Value(base, text[p..q + 1]) == Value(base, text[p..q]) * base + DigitValue(text[q])
  {
    assert text[p..q + 1][..q - p] == text[p..q];
  }

  /** Once too big, the whole run is too big. */
  lemma TooBigAlready(bits: nat, base: nat, text: string, p: nat, q: nat, e: nat)
    requires p <= q <= e <= |text| && base >= 1 && Value(base, text[p..q]) > Max(bits)
    ensures Bounded(bits, base, text, p, e) == Rejected
  {
    ValueGrows(base, text[p..e], q - p);
    assert text[p..e][..q - p] == text[p..q];
  }

  lemma {:induction false} PastTheRun(cl: Class, text: string, p: nat, q: nat)
    requires p <= q < |text| && forall k :: p <= k <= q ==> In(cl, text[k])
    ensures q < RunEnd(cl, text, p)
    decreases q - p
  {
    if p < q { PastTheRun(cl, text, p + 1, q); }
  }

  /** A loop that has come from p to q: v is the value of the digits passed, and it fits. */
  ghost predicate Reading(bits: nat, base: nat, cl: Class, text: string, p: nat, q: nat, v: nat) {
    && p <= q <= |text| && v == Value(base, text[p..q]) <= Max(bits)
    && Accumulated(bits, base, text, p, p) == Accumulated(bits, base, text, p, q)
    && forall k :: p <= k < q ==> In(cl, text[k]) && DigitValue(text[k]) < base
  }

  lemma ReadingStarts(bits: nat, base: nat, cl: Class, text: string, p: nat)
    requires p <= |text|
    ensures Reading(bits, base, cl, text, p, p, 0)
  {
    assert text[p..p] == [];
  }

  lemma ReadingOn(bits: nat, base: nat, cl: Class, text: string, p: nat, q: nat, v: nat, v': nat)
    requires Reading(bits, base, cl, text, p, q, v) && base >= 1
    requires In(cl, At(text, q)) && IsXDigit(At(text, q)) && DigitValue(At(text, q)) < base
    requires v' == v * base + DigitValue(At(text, q))
    ensures
      if v' <= Max(bits) then Reading(bits, base, cl, text, p, q + 1, v')
      else v == Accumulated(bits, base, text, p, p) && Bounded(bits, base, text, p, RunEnd(cl, text, p)) == Rejected
  {
    hide Value, Accumulated, RunEnd, Max, DigitValue, Bounded;
    ValueStep(base, text, p, q);
    AccumulatedOn(bits, base, text, p, q);
    if v' > Max(bits) {
      PastTheRun(cl, text, p, q);
      TooBigAlready(bits, base, text, p, q + 1, RunEnd(cl, text, p));
    }
  }

  lemma ReadingStops(bits: nat, base: nat, cl: Class, text: string, p: nat, q: nat, v: nat)
    requires Reading(bits, base, cl, text, p, q, v) && !In(cl, At(text, q))
    requires cl.XDigit? || (cl.Digit? && base <= 10)
    ensures Bounded(bits, base, text, p, RunEnd(cl, text, p)) == Number(v, q) && v == Accumulated(bits, base, text, p, p)
    ensures base == 8 ==> OctalRun(text, p, RunEnd(cl, text, p))
  {
    hide Value, RunEnd, Max;
    RunEndIs(cl, text, p, q);
    AccumulatedEnd(bits, base, text, p, q);
  }

  lemma NotOctal(bits: nat, text: string, p: nat, q: nat, v: nat)
    requires Reading(bits, 8, Digit, text, p, q, v) && IsDigit(At(text, q)) && DigitValue(At(text, q)) >= 8
    ensures v == Accumulated(bits, 8, text, p, p) && !OctalRun(text, p, RunEnd(Digit, text, p))
  {
    hide Value, RunEnd, Max, DigitValue;
    PastTheRun(Digit, text, p, q);
    AccumulatedEnd(bits, 8, text, p, q);
  }

  method DecRun(bits: nat, text: string, p: nat, val: nat) returns (r: int, v: nat, q: nat)
    requires 1 <= bits <= 64 && p <= |text| && val == 0
    ensures var e := RunEnd(Digit, text, p);
      (r == 0 || r == 1) && (if r == 0 then Number(v, q) else Rejected) == Bounded(bits, 10, text, p, e)
  {
    hide Reading, Value, Accumulated, RunEnd, Max, Bounded;
    r, v, q := 0, val, p;
    ReadingStarts(bits, 10, Digit, text, p);
    while q < |text| && IsDigit(text[q])
      invariant p <= q <= |text| && r == 0 && Reading(bits, 10, Digit, text, p, q, v)
    {
      ReadingOn(bits, 10, Digit, text, p, q, v, v * 10 + DigitValue(text[q]));
      r, v := SafelyAddDec(bits, v, text[q]);
      if r != 0 { return; }
      q := q + 1;
    }
    ReadingStops(bits, 10, Digit, text, p, q, v);
  }

  method HexRun(bits: nat, text: string, p: nat, val: nat) returns (r: int, v: nat, q: nat)
    requires 1 <= bits <= 64 && p <= |text| && val == 0
    ensures var e := RunEnd(XDigit, text, p);
      (r == 0 || r == 1) && (if r == 0 then Number(v, q) else Rejected) == Bounded(bits, 16, text, p, e)
    ensures v == Accumulated(bits, 16, text, p, p)
  {
    hide Reading, Value, Accumulated, RunEnd, Max, Bounded;
    r, v, q := 0, val, p;
    ReadingStarts(bits, 16, XDigit, text, p);
    while q < |text| && IsXDigit(text[q])
      invariant p <= q <= |text| && r == 0 && Reading(bits, 16, XDigit, text, p, q, v)
    {
      ReadingOn(bits, 16, XDigit, text, p, q, v, v * 16 + DigitValue(text[q]));
      r, v := SafelyAddHex(bits, v, text[q]);
      if r != 0 { return; }
      q := q + 1;
    }
    ReadingStops(bits, 16, XDigit, text, p, q, v);
  }

  method OctRun(bits: nat, text: string, p: nat, val: nat) returns (r: int, v: nat, q: nat)
    requires 1 <= bits <= 64 && p < |text| && IsDigit(text[p]) && val == 0
    ensures var e := RunEnd(Digit, text, p);
      (if r == 0 then Number(v, q) else Rejected)
      == if OctalRun(text, p, e) then Bounded(bits, 8, text, p, e) else Rejected
    ensures v == Accumulated(bits, 8, text, p, p)
  {
    hide Reading, Value, Accumulated, RunEnd, Max, Bounded, OctalRun;
    r, v, q := 0, val, p;
    ReadingStarts(bits, 8, Digit, text, p);
    while q < |text| && IsDigit(text[q])
      invariant p <= q <= |text| && r == 0 && Reading(bits, 8, Digit, text, p, q, v)
    {
      if DigitValue(text[q]) < 8 {
        ReadingOn(bits, 8, Digit, text, p, q, v, v * 8 + DigitValue(text[q]));
      } else {
        NotOctal(bits, text, p, q, v);
      }
      r, v := SafelyAddOct(bits, v, text[q]);
      if r != 0 { return; }
      q := q + 1;
    }
    ReadingStops(bits, 8, Digit, text, p, q, v);
  }

  // ----- the lexers; on failure the position is the one on entry

  /** The digits are accumulated in the caller's variable, which is 0 when they start; after a
      failure it holds what had been accumulated. */
  method LexUint0Helper(bits: nat, text: string, start: nat, val: nat) returns (r: int, v: nat, q: nat)
    requires 1 <= bits <= 64 && start < |text| && text[start] == '0' && val == 0
    ensures (if r == 0 then Number(v, q) else Rejected) == LeadingZero(bits, text, start)
    ensures r != 0 ==> r == -1 && q == start && v == Leftover(bits, text, start)
  {
    v, q := val, start + 1;
    if At(text, q) == 'x' || At(text, q) == 'X' {
      q := q + 1;
      if At(text, q) == '0' {
        q := q + 1;
      } else {
        r, v, q := HexRun(bits, text, q, v);
        if r != 0 { return -1, v, start; }
        return;
      }
    } else if IsDigit(At(text, q)) {
      if At(text, q) == '0' {
        q := q + 1;
      } else {
        r, v, q := OctRun(bits, text, q, v);
        if r != 0 { return -1, v, start; }
        return;
      }
    }
    if TokenEnd(At(text, q)) { return 0, 0, q; }
    return -1, v, start;
  }

  /** A token with a leading zero is accumulated in the result itself, any other beside it.  So a
      rejected token changes the result exactly if it has a leading zero and behind it a first digit
      that the form and the width allow, and what it leaves is the value up to the digit that failed. */
  method LexUint(bits: nat, text: string, pos: nat, val: nat) returns (r: int, v: nat, q: nat)
    requires 1 <= bits <= 64 && pos <= |text| && val == 0
    ensures (if r == 0 then Number(v, q) else Rejected) == UintAt(bits, text, pos)
    ensures r != 0 ==> r == 1 && q == pos
    ensures var p := RunEnd(Space, text, pos);
      r != 0 ==>
        && v == (if At(text, p) == '0' then Leftover(bits, text, p) else val)
        && (v != val <==> At(text, p) == '0' && Molested(bits, text, p))
  {
    var numstart := SkipWhitespace(text, pos);
    if At(text, numstart) == '0' {
      LeftoverIsNotZero(bits, text, numstart);
      r, v, q := LexUint0Helper(bits, text, numstart, val);
      if r != 0 { return 1, v, pos; }
    } else {
      r, v, q := DecRun(bits, text, numstart, 0);
      if r != 0 || q == numstart { return 1, val, pos; }
    }
  }

  method LexUintAsHex(bits: nat, text: string, pos: nat, val: nat) returns (r: int, v: nat, q: nat)
    requires 1 <= bits <= 64 && pos <= |text|
    ensures (if r == 0 then Number(v, q) else Rejected) == HexAt(bits, text, pos)
    ensures r != 0 ==> r == 1 && q == pos && v == val
  {
    var numstart := SkipWhitespace(text, pos);
    r, v, q := HexRun(bits, text, numstart, 0);
    if r != 0 || q == numstart { return 1, val, pos; }
  }

  /** It happens: 9 is no octal digit, but the 1 before it stays. */
  method OneIsLeft(text: string) returns (r: int, v: nat)
    requires text == "019"
    ensures r == 1 && v == 1
  {
    NineFails(text);
    hide UintAt, Leftover, Molested;
    var q;
    r, v, q := LexUint(16, text, 0, 0);
  }

  lemma NineFails(text: string)
    requires text == "019"
    ensures RunEnd(Space, text, 0) == 0 && UintAt(16, text, 0).Rejected? && Leftover(16, text, 0) == 1
  {
    hide Value, Max, Accumulated;
    RunEndIs(Space, text, 0, 0);
    RunEndIs(Digit, text, 1, 3);
    assert DigitValue(text[2]) == 9;
    OneAccumulated(text);
  }

  lemma OneAccumulated(text: string)
    requires |text| == 3 && text[1] == '1' && text[2] == '9'
    ensures Accumulated(16, 8, text, 1, 1) == 1
  {
    hide Value, Pow2, Accumulated;
    Pow2Monotone(1, 16);
    NoDigitsYet(8, text, 1);
    ValueStep(8, text, 1, 1);
    AccumulatedEnd(16, 8, text, 1, 2);
    AccumulatedOn(16, 8, text, 1, 1);
    TwoIsTwo();
  }

  lemma NoDigitsYet(base: nat, text: string, p: nat)
    requires p <= |text|
    ensures Value(base, text[p..p]) == 0
  {
    assert text[p..p] == [];
  }

  lemma TwoIsTwo()
    ensures Pow2(1) == 2
  {
  }

  /** lex_u8 to lex_u64, by width: the number that stands there and its end, or failure with the
      caller's pointer and variable as they were; what is stored fits. */
  method LexU(bits: nat, text: string, pos: nat, val: nat) returns (r: int, v: nat, q: nat)
    requires 1 <= bits <= 64 && pos <= |text|
    ensures (if r == 0 then Number(v, q) else Rejected) == UintAt(bits, text, pos)
    ensures if r == 0 then v < Pow2(bits) && pos < q <= |text| else r == 1 && q == pos && v == val
  {
    UintFits(bits, text, pos);
    r, v, q := LexUint(bits, text, pos, 0);
    if r != 0 { v := val; }
  }

  /** lex_u8_ashex to lex_u64_ashex. */
  method LexUAsHex(bits: nat, text: string, pos: nat, val: nat) returns (r: int, v: nat, q: nat)
    requires 1 <= bits <= 64 && pos <= |text|
    ensures (if r == 0 then Number(v, q) else Rejected) == HexAt(bits, text, pos)
    ensures if r == 0 then v < Pow2(bits) && pos < q <= |text| else r == 1 && q == pos && v == val
  {
    r, v, q := LexUintAsHex(bits, text, pos, 0);
    if r != 0 { v := val; }
  }

  /** A number that is read fits the width. */
  lemma UintFits(bits: nat, text: string, pos: nat)
    requires pos <= |text|
    ensures UintAt(bits, text, pos).Number? ==> UintAt(bits, text, pos).value < Pow2(bits)
  {
  }

  method SkipWhitespace(text: string, pos: nat) returns (q: nat)
    requires pos <= |text|
    ensures q == RunEnd(Space, text, pos)
  {
    q := pos;
    while q < |text| && IsSpace(text[q])
      invariant pos <= q <= |text|
      invariant forall k :: pos <= k < q ==> IsSpace(text[k])
    {
      q := q + 1;
    }
    RunEndIs(Space, text, pos, q);
  }

  // ----- what that means for numerals

  /** The decimal numeral of a number, followed by something else, is read back exactly when it
      fits; a lone zero must end its token. */
  lemma LexesDecimal(bits: nat, before: string, n: nat, after: string)
    requires before == [] || !IsSpace(before[|before| - 1])
    requires !IsDigit(At(after, 0)) && (n == 0 ==> TokenEnd(At(after, 0)))
    ensures UintAt(bits, before + Decimal(n) + after, |before|)
            == if n <= Max(bits) then Number(n, |before| + |Decimal(n)|) else Rejected
  {
    hide Decimal, Value, Pow2;
    var ds, text, p := Decimal(n), before + Decimal(n) + after, |before|;
    DecimalHasValue(n);
    assert text[p] == ds[0] && At(text, p + |ds|) == At(after, 0);
    RunEndIs(Space, text, p, p);
    assert text[p..p + |ds|] == ds;
    if n == 0 {
      assert ds == "0";
    } else {
      RunEndIs(Digit, text, p, p + |ds|);
    }
  }

  /** What a decimal numeral without leading zero is read as: its value, and it is the one
      numeral that prints as this text. */
  lemma DecimalTokenIsItsNumeral(bits: nat, text: string, pos: nat)
    requires pos <= |text| && '1' <= At(text, pos) <= '9'
    ensures var e := RunEnd(Digit, text, pos);
      UintAt(bits, text, pos) == Bounded(bits, 10, text, pos, e) && pos < e
      && Decimal(Value(10, text[pos..e])) == text[pos..e]
  {
    RunEndIs(Space, text, pos, pos);
    var e := RunEnd(Digit, text, pos);
    ValueHasDecimal(text[pos..e]);
  }

  // ----- numerals written out with the digits of a literal

  const LOWER_HEX: string := "0123456789abcdef"
  const UPPER_HEX: string := "0123456789ABCDEF"

  /** n in a base, most significant digit first, without leading zeros. */
  function Numeral(digits: string, base: nat, n: nat): (s: string)
    requires 2 <= base <= |digits|
    ensures s != []
  {
    if n < base then [digits[n]]
    else
      Shrinks(n, base);
      Numeral(digits, base, n / base) + [digits[n % base]]
  }

  /** The digits of the base, in order. */
  ghost predicate Digits(digits: string, base: nat) {
    2 <= base <= |digits| && forall i :: 0 <= i < base ==> IsXDigit(digits[i]) && DigitValue(digits[i]) == i
  }

  lemma LiteralDigits()
    ensures Digits(LOWER_HEX, 16) && Digits(UPPER_HEX, 16) && Digits(LOWER_HEX, 8) && Digits(DIGITS, 10)
  {
  }

  lemma {:induction false} NumeralIs(digits: string, base: nat, n: nat)
    requires Digits(digits, base)
    ensures Writes(base, Numeral(digits, base, n), n)
    decreases n
  {
    var s := Numeral(digits, base, n);
    if n < base {
      assert s[..0] == [];
      assert s[|s| - 1] == digits[n];
    } else {
      Shrinks(n, base);
      NumeralIs(digits, base, n / base);
      assert s[..|s| - 1] == Numeral(digits, base, n / base);
    }
  }

  lemma Shrinks(n: nat, base: nat)
    requires 2 <= base <= n
    ensures 0 < n / base < n && n == n / base * base + n % base && 0 <= n % base < base
  {
    Quotient(n, base);
    var q := n / base;
    Monotone(2, base, q);
    assert q * base > 0;
  }

  lemma Quotient(n: nat, base: nat)
    requires base > 0
    ensures n == n / base * base + n % base && 0 <= n % base < base
  {
  }

  lemma {:induction false} DecimalIsNumeral(n: nat)
    ensures Decimal(n) == Numeral(DIGITS, 10, n)
  {
    LiteralDigits();
    if n >= 10 { DecimalIsNumeral(n / 10); }
  }

  /** s is a numeral for n. */
  ghost predicate Writes(base: nat, s: string, n: nat) {
    s != [] && Value(base, s) == n && (forall k :: 0 <= k < |s| ==> IsXDigit(s[k]) && DigitValue(s[k]) < base)
    && (DigitValue(s[0]) == 0 <==> n == 0)
  }

  /** A run of digits of a base at p, and no digit behind it. */
  lemma RunOfNumeral(cl: Class, base: nat, s: string, n: nat, text: string, p: nat)
    requires Writes(base, s, n) && (cl.XDigit? || (cl.Digit? && base <= 10))
    requires p + |s| <= |text| && text[p..p + |s|] == s && !In(cl, At(text, p + |s|))
    ensures RunEnd(cl, text, p) == p + |s| && Value(base, text[p..p + |s|]) == n && (base == 8 ==> OctalRun(text, p, p + |s|))
    ensures s != [] && text[p] == s[0] && IsXDigit(text[p]) && DigitValue(text[p]) < base && (DigitValue(text[p]) == 0 <==> n == 0)
  {
    hide Value, DigitValue, RunEnd, OctalRun;
    RunIs(cl, base, text, p, s);
  }

  lemma RunIs(cl: Class, base: nat, text: string, p: nat, s: string)
    requires cl.XDigit? || (cl.Digit? && base <= 10)
    requires s != [] && forall k :: 0 <= k < |s| ==> IsXDigit(s[k]) && DigitValue(s[k]) < base
    requires p + |s| <= |text| && text[p..p + |s|] == s && !In(cl, At(text, p + |s|))
    ensures RunEnd(cl, text, p) == p + |s| && text[p] == s[0] && (base == 8 ==> OctalRun(text, p, p + |s|))
  {
    hide DigitValue, RunEnd;
    forall k | p <= k < p + |s| ensures In(cl, text[k]) && DigitValue(text[k]) < base {
      assert text[k] == text[p..p + |s|][k - p] == s[k - p];
      SmallDigit(text[k]);
    }
    RunEndIs(cl, text, p, p + |s|);
  }

  lemma SmallDigit(c: char)
    requires IsXDigit(c)
    ensures DigitValue(c) < 10 ==> IsDigit(c)
    ensures DigitValue(c) == 0 <==> c == '0'
    ensures !IsSpace(c) && c != 'x' && c != 'X'
  {
  }

  /** A hexadecimal number in either case of letters, followed by something else, is read exactly
      when it fits, by the _ashex form as it stands and by the others after 0x or 0X. */
  lemma LexesHexadecimal(bits: nat, before: string, x: char, digits: string, n: nat, after: string)
    requires (digits == LOWER_HEX || digits == UPPER_HEX) && (x == 'x' || x == 'X') && !IsXDigit(At(after, 0))
    ensures var s := Numeral(digits, 16, n);
      HexAt(bits, before + s + after, |before|) == if n <= Max(bits) then Number(n, |before| + |s|) else Rejected
    ensures var s := Numeral(digits, 16, n);
      (n == 0 ==> TokenEnd(At(after, 0))) ==>
        UintAt(bits, before + (['0', x] + s) + after, |before|)
        == if n <= Max(bits) then Number(n, |before| + 2 + |s|) else Rejected
  {
    LiteralDigits();
    hide Numeral, HexAt, UintAt, TokenEnd, Max;
    HexStands(bits, before, digits, n, after);
    if n == 0 ==> TokenEnd(At(after, 0)) { HexAfter0x(bits, before, x, digits, n, after); }
  }

  lemma HexStands(bits: nat, before: string, digits: string, n: nat, after: string)
    requires Digits(digits, 16) && !IsXDigit(At(after, 0))
    ensures var s := Numeral(digits, 16, n);
      HexAt(bits, before + s + after, |before|) == if n <= Max(bits) then Number(n, |before| + |s|) else Rejected
  {
    hide Numeral, Value, Max, RunEnd, DigitValue;
    var s := Numeral(digits, 16, n);
    var text, p := before + s + after, |before|;
    assert text[p..p + |s|] == s && At(text, p + |s|) == At(after, 0);
    NumeralIs(digits, 16, n);
    RunOfNumeral(XDigit, 16, s, n, text, p);
    SmallDigit(text[p]);
    RunEndIs(Space, text, p, p);
  }

  lemma HexAfter0x(bits: nat, before: string, x: char, digits: string, n: nat, after: string)
    requires Digits(digits, 16) && !IsXDigit(At(after, 0)) && (x == 'x' || x == 'X') && (n == 0 ==> TokenEnd(At(after, 0)))
    ensures var s := Numeral(digits, 16, n);
      UintAt(bits, before + (['0', x] + s) + after, |before|)
      == if n <= Max(bits) then Number(n, |before| + 2 + |s|) else Rejected
  {
    var s := Numeral(digits, 16, n);
    NumeralIs(digits, 16, n);
    ZeroNumeral(digits, 16);
    hide Numeral, UintAt, Digits;
    Stands0x(before, x, s, after);
    HexToken(bits, before + (['0', x] + s) + after, |before|, x, s, n);
  }

  lemma Stands0x(before: string, x: char, s: string, after: string)
    ensures var text, p := before + (['0', x] + s) + after, |before|;
      && p + 2 + |s| <= |text| && text[p] == '0' && text[p + 1] == x && text[p + 2..p + 2 + |s|] == s
      && At(text, p + 2 + |s|) == At(after, 0)
  {
  }

  lemma HexToken(bits: nat, text: string, p: nat, x: char, s: string, n: nat)
    requires Writes(16, s, n) && (n == 0 ==> |s| == 1) && (x == 'x' || x == 'X')
    requires p + 2 + |s| <= |text| && text[p] == '0' && text[p + 1] == x && text[p + 2..p + 2 + |s|] == s
    requires !IsXDigit(At(text, p + 2 + |s|)) && (n == 0 ==> TokenEnd(At(text, p + 2 + |s|)))
    ensures UintAt(bits, text, p) == if n <= Max(bits) then Number(n, p + 2 + |s|) else Rejected
  {
    hide Value, Max, RunEnd, DigitValue, TokenEnd, Writes;
    RunOfNumeral(XDigit, 16, s, n, text, p + 2);
    SmallDigit(text[p + 2]);
    RunEndIs(Space, text, p, p);
  }

  lemma ZeroNumeral(digits: string, base: nat)
    requires Digits(digits, base)
    ensures Numeral(digits, base, 0) == [digits[0]]
  {
  }

  /** After a 0, digits below 8 are an octal number. */
  lemma LexesOctal(bits: nat, before: string, n: nat, after: string)
    requires !IsDigit(At(after, 0)) && (n == 0 ==> TokenEnd(At(after, 0)))
    ensures var s := Numeral("01234567", 8, n);
      UintAt(bits, before + (['0'] + s) + after, |before|)
      == if n <= Max(bits) then Number(n, |before| + 1 + |s|) else Rejected
  {
    OctalDigits();
    NumeralIs("01234567", 8, n);
    ZeroNumeral("01234567", 8);
    var s := Numeral("01234567", 8, n);
    hide Numeral, UintAt;
    Stands0(before, s, after);
    OctalToken(bits, before + (['0'] + s) + after, |before|, s, n);
  }

  lemma Stands0(before: string, s: string, after: string)
    ensures var text, p := before + (['0'] + s) + after, |before|;
      && p + 1 + |s| <= |text| && text[p] == '0' && text[p + 1..p + 1 + |s|] == s && At(text, p + 1 + |s|) == At(after, 0)
  {
  }

  lemma OctalToken(bits: nat, text: string, p: nat, s: string, n: nat)
    requires Writes(8, s, n) && (n == 0 ==> |s| == 1)
    requires p + 1 + |s| <= |text| && text[p] == '0' && text[p + 1..p + 1 + |s|] == s
    requires !IsDigit(At(text, p + 1 + |s|)) && (n == 0 ==> TokenEnd(At(text, p + 1 + |s|)))
    ensures UintAt(bits, text, p) == if n <= Max(bits) then Number(n, p + 1 + |s|) else Rejected
  {
    hide Value, Max, RunEnd, DigitValue, TokenEnd, Writes;
    RunOfNumeral(Digit, 8, s, n, text, p + 1);
    SmallDigit(text[p + 1]);
    RunEndIs(Space, text, p, p);
  }

  lemma OctalDigits()
    ensures Digits("01234567", 8)
  {
  }
}

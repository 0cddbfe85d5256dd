/** Sets of IPv4 addresses as sorted lists of closed ranges, as values. */
module IpRanges {
  const ADDRS: nat := 0x1_0000_0000
  const LAST: nat := 0xffff_ffff

  /** uint32_t, host byte order */
  type Addr = x: int | 0 <= x < ADDRS

  /** x + 1 and x - 1 as the source computes them, in 32 bits. */
  function Inc(x: Addr): Addr { (x + 1) % ADDRS }
  function Dec(x: Addr): Addr { (x - 1) % ADDRS }

  datatype Range = Range(lower: Addr, upper: Addr) {
    predicate Holds(x: Addr) { lower <= x <= upper }

    predicate Proper() { lower <= upper }
  }

  const ALL: Range := Range(0, LAST)

  /** Sorted, and at least one absent address between any two ranges. */
  ghost predicate Canonical(rs: seq<Range>) {
    rs != [] ==>
      rs[0].Proper() && Canonical(rs[1..]) && (|rs| > 1 ==> rs[0].upper + 1 < rs[1].lower)
  }

  /** The same, between any two positions. */
  ghost predicate Separated(rs: seq<Range>) {
    && (forall i :: 0 <= i < |rs| ==> rs[i].Proper())
    && (forall i, j :: 0 <= i < j < |rs| ==> rs[i].upper + 1 < rs[j].lower)
  }

  lemma {:induction false} CanonicalIsSeparated(rs: seq<Range>)
    ensures Canonical(rs) <==> Separated(rs)
  {
    if rs != [] {
      CanonicalIsSeparated(rs[1..]);
      assert forall i :: 0 <= i < |rs[1..]| ==> rs[1..][i] == rs[i + 1];
      if Separated(rs[1..]) && rs[0].Proper() && (|rs| > 1 ==> rs[0].upper + 1 < rs[1].lower) {
        forall i | 0 < i < |rs| ensures rs[i].Proper() && rs[0].upper + 1 < rs[i].lower {
          assert rs[i] == rs[1..][i - 1] && rs[1] == rs[1..][0];
        }
        forall i, j | 0 < i < j < |rs| ensures rs[i].upper + 1 < rs[j].lower {
          assert rs[i] == rs[1..][i - 1] && rs[j] == rs[1..][j - 1];
        }
      }
    }
  }

  lemma CanonicalAt(rs: seq<Range>, i: nat)
    requires Canonical(rs) && i < |rs|
    ensures rs[i].Proper()
    ensures i + 1 < |rs| ==> rs[i].upper + 1 < rs[i + 1].lower
  {
    CanonicalIsSeparated(rs);
  }

  /** a can stand directly before b in a canonical list. */
  ghost predicate Before(a: seq<Range>, b: seq<Range>) {
    a != [] && b != [] ==> a[|a| - 1].upper + 1 < b[0].lower
  }

  lemma {:induction false} CanonicalConcat(a: seq<Range>, b: seq<Range>)
    ensures Canonical(a + b) <==> Canonical(a) && Canonical(b) && Before(a, b)
  {
    if a == [] {
      assert a + b == b;
    } else {
      assert (a + b)[1..] == a[1..] + b;
      CanonicalConcat(a[1..], b);
      if |a| == 1 { assert a[1..] == []; }
    }
  }

  lemma CanonicalOne(r: Range)
    requires r.Proper()
    ensures Canonical([r])
  {
    assert [r][1..] == [];
  }

  lemma CanonicalParts(a: seq<Range>, mid: seq<Range>, b: seq<Range>)
    requires mid != []
    ensures Canonical(a + mid + b) <==>
              Canonical(a) && Canonical(mid) && Canonical(b) && Before(a, mid) && Before(mid, b)
  {
    CanonicalConcat(a + mid, b);
    CanonicalConcat(a, mid);
  }

  ghost predicate Has(rs: seq<Range>, x: Addr) {
    exists i :: 0 <= i < |rs| && rs[i].Holds(x)
  }

  /** The set of addresses that a list of ranges denotes. */
  ghost function Members(rs: seq<Range>): set<Addr> {
    set x: Addr | Has(rs, x)
  }

  ghost function Span(r: Range): set<Addr> {
    set x: Addr | r.Holds(x)
  }

  /** What adding and deleting a range mean for the denoted set. */
  ghost predicate IsUnion(rs': seq<Range>, rs: seq<Range>, r: Range) {
    forall x: Addr :: Has(rs', x) <==> Has(rs, x) || r.Holds(x)
  }

  ghost predicate IsDifference(rs': seq<Range>, rs: seq<Range>, r: Range) {
    forall x: Addr :: Has(rs', x) <==> Has(rs, x) && !r.Holds(x)
  }

  lemma HasParts(a: seq<Range>, r: Range, b: seq<Range>, x: Addr)
    ensures Has(a + [r] + b, x) <==> Has(a, x) || r.Holds(x) || Has(b, x)
  {
    HasConcat(a + [r], b, x);
    HasConcat(a, [r], x);
    assert [r][0] == r;
  }

  lemma HasInserted(rs: seq<Range>, z: nat, r: Range)
    requires z <= |rs|
    ensures IsUnion(rs[..z] + [r] + rs[z..], rs, r)
  {
    assert rs == rs[..z] + rs[z..];
    forall x: Addr ensures Has(rs[..z] + [r] + rs[z..], x) <==> Has(rs, x) || r.Holds(x) {
      HasParts(rs[..z], r, rs[z..], x);
      HasConcat(rs[..z], rs[z..], x);
    }
  }

  lemma CanonicalInserted(rs: seq<Range>, z: nat, r: Range)
    requires z <= |rs| && Canonical(rs) && r.Proper()
    requires z > 0 ==> rs[z - 1].upper + 1 < r.lower
    requires z < |rs| ==> r.upper + 1 < rs[z].lower
    ensures Canonical(rs[..z] + [r] + rs[z..])
  {
    assert rs == rs[..z] + rs[z..];
    CanonicalConcat(rs[..z], rs[z..]);
    CanonicalOne(r);
    CanonicalParts(rs[..z], [r], rs[z..]);
    assert Before(rs[..z], [r]) && Before([r], rs[z..]);
  }

  /** r is exactly what the ranges of mid and the range merge cover together. */
  ghost predicate Covers(r: Range, mid: seq<Range>, merge: Range) {
    forall x: Addr :: r.Holds(x) <==> Has(mid, x) || merge.Holds(x)
  }

  lemma CoversAll(mid: seq<Range>, r: Range, merge: Range)
    requires Canonical(mid) && mid != [] && merge.Proper()
    requires merge.lower <= mid[0].upper + 1 && mid[0].lower <= merge.upper + 1
    requires mid[|mid| - 1].lower <= merge.upper + 1
    requires r.lower == if merge.lower < mid[0].lower then merge.lower else mid[0].lower
    requires r.upper == if merge.upper > mid[|mid| - 1].upper then merge.upper else mid[|mid| - 1].upper
    ensures Covers(r, mid, merge)
  {
    CanonicalIsSeparated(mid);
    forall x: Addr ensures r.Holds(x) <==> Has(mid, x) || merge.Holds(x) {
      if r.Holds(x) && x < merge.lower { assert mid[0].Holds(x); }
      if r.Holds(x) && x > merge.upper { assert mid[|mid| - 1].Holds(x); }
    }
  }

  lemma HasAbsorbed(a: seq<Range>, mid: seq<Range>, b: seq<Range>, r: Range, merge: Range)
    requires Covers(r, mid, merge)
    ensures IsUnion(a + [r] + b, a + mid + b, merge)
  {
    forall x: Addr ensures Has(a + [r] + b, x) <==> Has(a + mid + b, x) || merge.Holds(x) {
      HasParts(a, r, b, x);
      HasConcat(a + mid, b, x);
      HasConcat(a, mid, x);
    }
  }

  /** The ranges of mid in a canonical list give way to r. */
  lemma Absorbed(a: seq<Range>, mid: seq<Range>, b: seq<Range>, r: Range, merge: Range)
    requires Canonical(a + mid + b) && mid != [] && merge.Proper()
    requires merge.lower <= mid[0].upper + 1 && mid[0].lower <= merge.upper + 1
    requires mid[|mid| - 1].lower <= merge.upper + 1
    requires a != [] ==> a[|a| - 1].upper + 1 < merge.lower
    requires r.lower == if merge.lower < mid[0].lower then merge.lower else mid[0].lower
    requires r.upper == if merge.upper > mid[|mid| - 1].upper then merge.upper else mid[|mid| - 1].upper
    requires b != [] ==> r.upper + 1 < b[0].lower
    ensures IsUnion(a + [r] + b, a + mid + b, merge) && Canonical(a + [r] + b)
  {
    CanonicalParts(a, mid, b);
    CoversAll(mid, r, merge);
    HasAbsorbed(a, mid, b, r, merge);
    CanonicalOne(r);
    CanonicalParts(a, [r], b);
  }

  /** Nothing but addresses of cut has been lost from rs on the way to rs'. */
  ghost predicate Trimmed(rs': seq<Range>, rs: seq<Range>, cut: Range) {
    && (forall x: Addr :: Has(rs', x) ==> Has(rs, x))
    && (forall x: Addr :: Has(rs, x) && !cut.Holds(x) ==> Has(rs', x))
  }

  ghost predicate Apart(rs: seq<Range>, r: Range) {
    forall i :: 0 <= i < |rs| ==> rs[i].upper < r.lower || r.upper < rs[i].lower
  }

  /** With range z above cut, so are all later ones. */
  lemma ApartAbove(rs: seq<Range>, z: nat, cut: Range)
    requires Canonical(rs) && z < |rs| && Apart(rs[..z], cut) && cut.upper < rs[z].lower
    ensures Apart(rs, cut)
  {
    CanonicalIsSeparated(rs);
    assert forall i :: 0 <= i < z ==> rs[..z][i] == rs[i];
  }

  lemma TrimmedApart(rs': seq<Range>, rs: seq<Range>, cut: Range)
    requires Trimmed(rs', rs, cut) && Apart(rs', cut)
    ensures IsDifference(rs', rs, cut)
  {
  }

  /** Range z gives way to what cut leaves of it. */
  lemma TrimStep(rs: seq<Range>, rs': seq<Range>, z: nat, mid: seq<Range>, cut: Range)
    requires Trimmed(rs', rs, cut) && z < |rs'|
    requires forall x: Addr :: Has(mid, x) <==> rs'[z].Holds(x) && !cut.Holds(x)
    ensures Trimmed(rs'[..z] + mid + rs'[z + 1..], rs, cut)
  {
    assert rs' == rs'[..z] + [rs'[z]] + rs'[z + 1..];
    forall x: Addr
      ensures Has(rs'[..z] + mid + rs'[z + 1..], x) ==> Has(rs', x)
      ensures Has(rs', x) && !cut.Holds(x) ==> Has(rs'[..z] + mid + rs'[z + 1..], x)
    {
      HasParts(rs'[..z], rs'[z], rs'[z + 1..], x);
      HasConcat(rs'[..z] + mid, rs'[z + 1..], x);
      HasConcat(rs'[..z], mid, x);
    }
  }

  lemma CanonicalShrunk(rs: seq<Range>, z: nat, mid: seq<Range>)
    requires Canonical(rs) && z < |rs| && Canonical(mid)
    requires mid != [] ==> rs[z].lower <= mid[0].lower && mid[|mid| - 1].upper <= rs[z].upper
    ensures Canonical(rs[..z] + mid + rs[z + 1..])
  {
    assert rs == rs[..z] + [rs[z]] + rs[z + 1..];
    CanonicalParts(rs[..z], [rs[z]], rs[z + 1..]);
    if mid == [] {
      CanonicalConcat(rs[..z], rs[z + 1..]);
      assert rs[..z] + mid == rs[..z];
    } else {
      CanonicalParts(rs[..z], mid, rs[z + 1..]);
    }
  }

  lemma HasOne(r: Range)
    ensures forall x: Addr :: Has([r], x) <==> r.Holds(x)
    ensures forall x: Addr :: !Has([], x)
  {
    assert [r][0] == r;
  }

  lemma HasTwo(r: Range, s: Range)
    ensures forall x: Addr :: Has([r, s], x) <==> r.Holds(x) || s.Holds(x)
  {
    assert [r, s][0] == r && [r, s][1] == s;
  }

  lemma HasSnoc(rs: seq<Range>, z: nat)
    requires z < |rs|
    ensures forall x: Addr :: Has(rs[..z + 1], x) <==> Has(rs[..z], x) || rs[z].Holds(x)
    ensures forall x: Addr :: Has(rs[..z + 1], x) ==> Has(rs, x)
  {
    assert rs[..z + 1] == rs[..z] + [rs[z]];
    assert rs == rs[..z + 1] + rs[z + 1..];
    forall x: Addr
      ensures Has(rs[..z + 1], x) <==> Has(rs[..z], x) || rs[z].Holds(x)
      ensures Has(rs[..z + 1], x) ==> Has(rs, x)
    {
      HasConcat(rs[..z], [rs[z]], x);
      HasOne(rs[z]);
      HasConcat(rs[..z + 1], rs[z + 1..], x);
    }
  }

  lemma CanonicalFront(rs: seq<Range>, n: nat)
    requires Canonical(rs) && n <= |rs|
    ensures Canonical(rs[..n])
  {
    assert rs == rs[..n] + rs[n..];
    CanonicalConcat(rs[..n], rs[n..]);
  }

  /** The address after a range of a canonical list is absent. */
  lemma EndOfRun(rs: seq<Range>, z: nat)
    requires Canonical(rs) && z < |rs| && rs[z].upper < LAST
    ensures !Has(rs, rs[z].upper + 1)
  {
    CanonicalIsSeparated(rs);
  }

  lemma EmptyIsNil(rs: seq<Range>)
    requires Canonical(rs)
    ensures Members(rs) == {} <==> rs == []
  {
    if rs != [] {
      assert rs[0].Holds(rs[0].lower);
      assert rs[0].lower in Members(rs);
    }
  }

  // ----- one list per set

  lemma HasTail(rs: seq<Range>, x: Addr)
    requires rs != []
    ensures Has(rs, x) <==> rs[0].Holds(x) || Has(rs[1..], x)
  {
    if Has(rs, x) && !rs[0].Holds(x) {
      var i :| 0 <= i < |rs| && rs[i].Holds(x);
      assert rs[1..][i - 1].Holds(x);
    }
    if Has(rs[1..], x) {
      var i :| 0 <= i < |rs[1..]| && rs[1..][i].Holds(x);
      assert rs[i + 1].Holds(x);
    }
  }

  lemma HasConcat(a: seq<Range>, b: seq<Range>, x: Addr)
    ensures Has(a + b, x) <==> Has(a, x) || Has(b, x)
  {
    if Has(a, x) {
      var i :| 0 <= i < |a| && a[i].Holds(x);
      assert (a + b)[i].Holds(x);
    }
    if Has(b, x) {
      var i :| 0 <= i < |b| && b[i].Holds(x);
      assert (a + b)[|a| + i].Holds(x);
    }
  }

  /** The lowest member and where its run ends are visible in the set alone. */
  lemma FirstRange(rs: seq<Range>)
    requires Canonical(rs) && rs != []
    ensures forall x: Addr :: Has(rs, x) ==> rs[0].lower <= x
    ensures forall x: Addr :: rs[0].Holds(x) ==> Has(rs, x)
    ensures rs[0].upper < LAST ==> !Has(rs, rs[0].upper + 1)
    ensures forall x: Addr :: Has(rs[1..], x) <==> Has(rs, x) && !rs[0].Holds(x)
  {
    CanonicalIsSeparated(rs);
    forall x: Addr ensures Has(rs[1..], x) <==> Has(rs, x) && !rs[0].Holds(x) {
      HasTail(rs, x);
      if Has(rs[1..], x) {
        var i :| 0 <= i < |rs[1..]| && rs[1..][i].Holds(x);
        assert rs[i + 1] == rs[1..][i];
      }
    }
  }

  /** Canonical lists that denote the same set are the same list. */
  lemma {:induction false} CanonicalUnique(a: seq<Range>, b: seq<Range>)
    requires Canonical(a) && Canonical(b) && Members(a) == Members(b)
    ensures a == b
  {
    assert forall x: Addr :: Has(a, x) <==> x in Members(a);
    assert forall x: Addr :: Has(b, x) <==> x in Members(b);
    assert a != [] ==> a[0].Holds(a[0].lower) && Has(a, a[0].lower);
    assert b != [] ==> b[0].Holds(b[0].lower) && Has(b, b[0].lower);
    if a != [] && b != [] {
      FirstRange(a);
      FirstRange(b);
      assert a[0].lower == b[0].lower;
      assert a[0].upper < LAST ==> !b[0].Holds(a[0].upper + 1);
      assert b[0].upper < LAST ==> !a[0].Holds(b[0].upper + 1);
      assert Members(a[1..]) == Members(b[1..]);
      CanonicalUnique(a[1..], b[1..]);
      assert a == [a[0]] + a[1..] && b == [b[0]] + b[1..];
    }
  }

  // ----- cardinality

  function Size(r: Range): int { r.upper - r.lower + 1 }

  function Area(rs: seq<Range>): int {
    if rs == [] then 0 else Area(rs[..|rs| - 1]) + Size(rs[|rs| - 1])
  }

  lemma {:induction false} SpanSize(r: Range)
    requires r.Proper()
    ensures |Span(r)| == Size(r)
    decreases r.upper
  {
    if r.lower == r.upper {
      assert Span(r) == {r.lower};
    } else {
      var shorter := r.(upper := r.upper - 1);
      SpanSize(shorter);
      assert Span(r) == Span(shorter) + {r.upper};
    }
  }

  lemma MembersLast(rs: seq<Range>)
    requires Canonical(rs) && rs != []
    ensures Members(rs) == Members(rs[..|rs| - 1]) + Span(rs[|rs| - 1])
    ensures Members(rs[..|rs| - 1]) !! Span(rs[|rs| - 1])
  {
    var front, r := rs[..|rs| - 1], rs[|rs| - 1];
    assert rs == front + [r];
    CanonicalIsSeparated(rs);
    forall x: Addr ensures Has(rs, x) <==> Has(front, x) || r.Holds(x) {
      HasConcat(front, [r], x);
      assert [r][0] == r;
    }
  }

  /** The summed range sizes are the number of addresses, at most 2^32. */
  lemma {:induction false} AreaIsCardinality(rs: seq<Range>)
    requires Canonical(rs)
    ensures Area(rs) == |Members(rs)|
    ensures 0 <= Area(rs) <= (if rs == [] then 0 else rs[|rs| - 1].upper + 1)
  {
    if rs == [] {
      assert Members(rs) == {};
    } else {
      var front, r := rs[..|rs| - 1], rs[|rs| - 1];
      assert rs == front + [r];
      CanonicalConcat(front, [r]);
      AreaIsCardinality(front);
      SpanSize(r);
      MembersLast(rs);
      if front != [] { assert front[|front| - 1] == rs[|rs| - 2]; }
    }
  }

  // ----- ordering

  function CompareRange(a: Range, b: Range): int {
    if a.lower < b.lower then -1 else if a.lower > b.lower then 1
    else if a.upper < b.upper then -1 else if a.upper > b.upper then 1 else 0
  }

  function Compare(a: seq<Range>, b: seq<Range>): int {
    if a == [] || b == [] then (if |a| < |b| then -1 else if |a| > |b| then 1 else 0)
    else if CompareRange(a[0], b[0]) != 0 then CompareRange(a[0], b[0])
    else Compare(a[1..], b[1..])
  }

  lemma {:induction false} CompareAntisymmetric(a: seq<Range>, b: seq<Range>)
    ensures Compare(a, b) == -Compare(b, a)
    ensures Compare(a, b) == 0 <==> a == b
  {
    if a != [] && b != [] {
      CompareAntisymmetric(a[1..], b[1..]);
      assert a == [a[0]] + a[1..] && b == [b[0]] + b[1..];
    }
  }

  /** The first difference decides: a smaller lower bound, or the same and a smaller upper bound; and
      what is only a beginning of the other comes first. */
  predicate ComesFirst(a: seq<Range>, b: seq<Range>, k: nat) {
    && k <= |a| && k <= |b| && a[..k] == b[..k] && k < |b|
    && (k == |a| || a[k].lower < b[k].lower || (a[k].lower == b[k].lower && a[k].upper < b[k].upper))
  }

  lemma {:induction false} CompareDirection(a: seq<Range>, b: seq<Range>)
    ensures Compare(a, b) < 0 <==> exists k: nat :: ComesFirst(a, b, k)
  {
    if a != [] && b != [] && a[0] == b[0] {
      CompareDirection(a[1..], b[1..]);
      if Compare(a[1..], b[1..]) < 0 {
        var k: nat :| ComesFirst(a[1..], b[1..], k);
        assert a[..k + 1] == [a[0]] + a[1..][..k] && b[..k + 1] == [b[0]] + b[1..][..k];
        assert ComesFirst(a, b, k + 1);
      }
      if k: nat :| ComesFirst(a, b, k) {
        assert k > 0;
        assert a[1..][..k - 1] == a[..k][1..] && b[1..][..k - 1] == b[..k][1..];
        assert ComesFirst(a[1..], b[1..], k - 1);
      }
    } else {
      if Compare(a, b) < 0 { assert ComesFirst(a, b, 0); }
      if k: nat :| ComesFirst(a, b, k) {
        if k > 0 { assert a[..k][0] == b[..k][0]; }
      }
    }
  }

  lemma {:induction false} CompareTransitive(a: seq<Range>, b: seq<Range>, c: seq<Range>)
    requires Compare(a, b) <= 0 && Compare(b, c) <= 0
    ensures Compare(a, c) <= 0
  {
    if a != [] && b != [] && c != [] && CompareRange(a[0], b[0]) == 0 == CompareRange(b[0], c[0]) {
      CompareTransitive(a[1..], b[1..], c[1..]);
    }
  }

  /** ipset_cmp orders the denoted sets totally: 0 exactly for equal sets. */
  lemma CompareOrdersSets(a: seq<Range>, b: seq<Range>)
    requires Canonical(a) && Canonical(b)
    ensures Compare(a, b) == 0 <==> Members(a) == Members(b)
    ensures Compare(a, b) in {-1, 0, 1} && Compare(b, a) == -Compare(a, b)
  {
    CompareAntisymmetric(a, b);
    CompareIsSign(a, b);
    if Members(a) == Members(b) { CanonicalUnique(a, b); }
  }

  lemma {:induction false} CompareIsSign(a: seq<Range>, b: seq<Range>)
    ensures Compare(a, b) in {-1, 0, 1}
  {
    if a != [] && b != [] { CompareIsSign(a[1..], b[1..]); }
  }
}

/** The mutable range list of libdank/objects/ipset.c.  The reallocated array and its
    count are one growable sequence. */
module IpSets {
  import opened IpRanges

  class IpSet {
    var ranges: seq<Range>

    constructor ()
      ensures ranges == []
    {
      ranges := [];
    }

    method Append(ir: Range)
      modifies this
      ensures ranges == old(ranges) + [ir]
    {
      ranges := ranges + [ir];
    }

    method Insert(pre: nat, ir: Range)
      requires pre <= |ranges|
      modifies this
      ensures ranges == old(ranges)[..pre] + [ir] + old(ranges)[pre..]
    {
      ranges := ranges[..pre] + [ir] + ranges[pre..];
    }

    method Remove(at: nat, count: nat)
      requires at + count <= |ranges|
      modifies this
      ensures ranges == old(ranges)[..at] + old(ranges)[at + count..]
    {
      ranges := ranges[..at] + ranges[at + count..];
    }

    /** Set union with one range, in place. */
    method Add(merge: Range)
      requires Canonical(ranges) && merge.Proper()
      modifies this
      ensures Canonical(ranges) && IsUnion(ranges, old(ranges), merge)
    {
      ghost var rs := ranges;
      var z := 0;
      while z != |ranges|
        invariant z <= |ranges| && ranges == rs
        invariant z > 0 ==> ranges[z - 1].upper + 1 < merge.lower
      {
        var cur := ranges[z];
        CanonicalAt(rs, z);
        if merge.lower <= Inc(cur.upper) { break; }
        if cur.upper == LAST { break; }
        z := z + 1;
      }
      if z == |ranges| {
        Append(merge);
        HasInserted(rs, z, merge);
        CanonicalInserted(rs, z, merge);
        assert rs[..z] + [merge] + rs[z..] == ranges;
        return;
      }
      var cur := ranges[z];
      if Inc(merge.upper) < cur.lower && merge.upper != LAST {
        Insert(z, merge);
        HasInserted(rs, z, merge);
        CanonicalInserted(rs, z, merge);
        return;
      }
      Engulf(z, merge);
    }

    /** Grow range z down and up to cover merge, and eat the ranges it then reaches. */
    method Engulf(z: nat, merge: Range)
      requires Canonical(ranges) && merge.Proper() && z < |ranges|
      requires merge.lower <= ranges[z].upper + 1 && ranges[z].lower <= merge.upper + 1
      requires z > 0 ==> ranges[z - 1].upper + 1 < merge.lower
      modifies this
      ensures Canonical(ranges) && IsUnion(ranges, old(ranges), merge)
    {
      hide Canonical, Has, IsUnion;
      ghost var rs := ranges;
      CanonicalAt(rs, z);
      if merge.lower <= Dec(ranges[z].lower) && ranges[z].lower != 0 {
        ranges := ranges[z := ranges[z].(lower := merge.lower)];
      }
      var zin := z + 1;
      if merge.upper > ranges[z].upper {
        zin := Reach(z, merge, rs);
      }
      EngulfResult(rs, z, zin, ranges[z], merge);
      Spliced(rs, z, zin, ranges[z]);
      assert ranges == rs[z := ranges[z]];
      if zin > z + 1 {
        Remove(z + 1, zin - (z + 1));
      }
    }

    static lemma Spliced(rs: seq<Range>, z: nat, zin: nat, r: Range)
      requires z < zin <= |rs|
      ensures rs[z := r][..z + 1] + rs[z := r][zin..] == rs[..z] + [r] + rs[zin..]
      ensures rs[z := r][..z + 1] + rs[z := r][z + 1..] == rs[z := r]
    {
    }

    /** Raise the upper end of range z, and find the first range it does not reach. */
    method Reach(z: nat, merge: Range, ghost rs: seq<Range>) returns (zin: nat)
      requires Canonical(rs) && merge.Proper() && z < |rs| == |ranges| && ranges == rs[z := ranges[z]]
      requires merge.upper > rs[z].upper == ranges[z].upper && rs[z].lower <= merge.upper + 1
      modifies this
      ensures z < zin <= |rs| == |ranges| && ranges == rs[z := ranges[z]] && ranges[z].lower == old(ranges)[z].lower
      ensures ranges[z].upper == if merge.upper > rs[zin - 1].upper then merge.upper else rs[zin - 1].upper
      ensures rs[zin - 1].lower <= merge.upper + 1
      ensures zin < |rs| ==> ranges[z].upper + 1 < rs[zin].lower
    {
      zin := z + 1;
      ranges := ranges[z := ranges[z].(upper := merge.upper)];
      while zin < |ranges|
        invariant z < zin <= |ranges| == |rs|
        invariant ranges == rs[z := ranges[z]] && ranges[z].lower == old(ranges)[z].lower
        invariant rs[zin - 1].lower <= merge.upper + 1
        invariant ranges[z].upper == if merge.upper > rs[zin - 1].upper then merge.upper else rs[zin - 1].upper
      {
        var tmp := ranges[zin];
        CanonicalAt(rs, zin - 1);
        CanonicalAt(rs, zin);
        if ranges[z].upper < Dec(tmp.lower) && tmp.lower != 0 { break; }
        if tmp.upper > ranges[z].upper {
          ranges := ranges[z := ranges[z].(upper := tmp.upper)];
        }
        zin := zin + 1;
      }
    }

    lemma EngulfResult(rs: seq<Range>, z: nat, zin: nat, r: Range, merge: Range)
      requires Canonical(rs) && merge.Proper() && z < zin <= |rs|
      requires merge.lower <= rs[z].upper + 1 && rs[z].lower <= merge.upper + 1
      requires z > 0 ==> rs[z - 1].upper + 1 < merge.lower
      requires r.lower == if merge.lower < rs[z].lower then merge.lower else rs[z].lower
      requires r.upper == if merge.upper > rs[zin - 1].upper then merge.upper else rs[zin - 1].upper
      requires rs[zin - 1].lower <= merge.upper + 1
      requires zin < |rs| ==> r.upper + 1 < rs[zin].lower
      ensures var rs' := rs[..z] + [r] + rs[zin..]; IsUnion(rs', rs, merge) && Canonical(rs')
    {
      hide Canonical, Has, IsUnion;
      assert rs == rs[..z] + rs[z..zin] + rs[zin..];
      Absorbed(rs[..z], rs[z..zin], rs[zin..], r, merge);
    }

    /** Put mid in the place of range z, as the branches of Delete do. */
    ghost predicate Cut(now: seq<Range>, z: nat, mid: seq<Range>, cut: Range)
      reads this
    {
      && z < |now| && ranges == now[..z] + mid + now[z + 1..]
      && Canonical(mid) && (mid != [] ==> now[z].lower <= mid[0].lower && mid[|mid| - 1].upper <= now[z].upper)
      && (forall x: Addr :: Has(mid, x) <==> now[z].Holds(x) && !cut.Holds(x))
    }

    /** Keep the part r of range z that cut leaves on one side. */
    method SetRange(z: nat, r: Range, cut: Range)
      requires z < |ranges| && r.Proper()
      requires r.lower >= ranges[z].lower && r.upper <= ranges[z].upper
      requires forall x: Addr :: r.Holds(x) <==> ranges[z].Holds(x) && !cut.Holds(x)
      modifies this
      ensures ranges == old(ranges)[z := r] && Cut(old(ranges), z, [r], cut)
    {
      ranges := ranges[z := r];
      HasOne(r);
      CanonicalOne(r);
    }

    /** Range z goes altogether. */
    method Drop(z: nat, cut: Range)
      requires z < |ranges| && cut.lower <= ranges[z].lower && ranges[z].upper <= cut.upper
      modifies this
      ensures |ranges| == |old(ranges)| - 1 && ranges[..z] == old(ranges)[..z] && Cut(old(ranges), z, [], cut)
    {
      HasOne(ranges[z]);
      Remove(z, 1);
    }

    /** Cut the inside out of range z. */
    method SplitRange(z: nat, cut: Range)
      requires z < |ranges| && ranges[z].lower < cut.lower <= cut.upper < ranges[z].upper
      modifies this
      ensures |ranges| == |old(ranges)| + 1
      ensures Cut(old(ranges), z, [ranges[z], ranges[z + 1]], cut)
      ensures Apart(old(ranges)[..z], cut) ==> Apart(ranges[..z + 1], cut)
      ensures cut.upper < ranges[z + 1].lower
    {
      var cur := ranges[z];
      Insert(z, Range(cur.lower, Dec(cut.lower)));
      ranges := ranges[z + 1 := ranges[z + 1].(lower := Inc(cut.upper))];
      HasTwo(ranges[z], ranges[z + 1]);
      CanonicalOne(ranges[z]);
      CanonicalOne(ranges[z + 1]);
      CanonicalConcat([ranges[z]], [ranges[z + 1]]);
      assert [ranges[z]] + [ranges[z + 1]] == [ranges[z], ranges[z + 1]];
      assert ranges[..z + 1] == old(ranges)[..z] + [ranges[z]];
    }

    lemma CutKeeps(rs: seq<Range>, now: seq<Range>, z: nat, mid: seq<Range>, cut: Range)
      requires Canonical(now) && Trimmed(now, rs, cut) && Cut(now, z, mid, cut)
      ensures Canonical(ranges) && Trimmed(ranges, rs, cut)
    {
      TrimStep(rs, now, z, mid, cut);
      CanonicalShrunk(now, z, mid);
    }

    /** What Delete does about a range that cut meets: where to go on, or that this was the last. */
    method Trim(z: nat, cut: Range, ghost rs: seq<Range>) returns (next: nat, last: bool)
      requires Canonical(ranges) && cut.Proper() && z < |ranges| && Trimmed(ranges, rs, cut) && Apart(ranges[..z], cut)
      requires cut.lower <= ranges[z].upper && ranges[z].lower <= cut.upper
      modifies this
      ensures Canonical(ranges) && Trimmed(ranges, rs, cut) && next <= |ranges|
      ensures if last then Apart(ranges, cut) else Apart(ranges[..next], cut) && |ranges| - next < |old(ranges)| - z
    {
      hide Canonical, Trimmed;
      var cur := ranges[z];
      ghost var now := ranges;
      CanonicalAt(now, z);
      if cut.lower <= cur.lower {
        if cur.upper > cut.upper {
          SetRange(z, cur.(lower := Inc(cut.upper)), cut);
          CutKeeps(rs, now, z, [ranges[z]], cut);
          ApartAbove(ranges, z, cut);
          return z, true;
        }
        Drop(z, cut);
        CutKeeps(rs, now, z, [], cut);
        return z, false;
      }
      if cut.upper >= cur.upper {
        SetRange(z, cur.(upper := Dec(cut.lower)), cut);
        CutKeeps(rs, now, z, [ranges[z]], cut);
        return z + 1, false;
      }
      SplitRange(z, cut);
      CutKeeps(rs, now, z, [ranges[z], ranges[z + 1]], cut);
      ApartAbove(ranges, z + 1, cut);
      return z + 1, true;
    }

    /** Set difference with one range, in place. */
    method Delete(cut: Range)
      requires Canonical(ranges) && cut.Proper()
      modifies this
      ensures Canonical(ranges) && IsDifference(ranges, old(ranges), cut)
    {
      ghost var rs := ranges;
      var z := 0;
      var last := false;
      while z < |ranges| && !last
        invariant 0 <= z <= |ranges| && Canonical(ranges) && Trimmed(ranges, rs, cut)
        invariant if last then Apart(ranges, cut) else Apart(ranges[..z], cut)
        decreases !last, |ranges| - z
      {
        var cur := ranges[z];
        if cut.lower > cur.upper || cut.upper < cur.lower {
          z := z + 1;
        } else {
          z, last := Trim(z, cut, rs);
        }
      }
      TrimmedApart(ranges, rs, cut);
    }

    /** Union with another set, built in a copy that then replaces this one. */
    method MergeFrom(add: IpSet)
      requires Canonical(ranges) && Canonical(add.ranges)
      modifies this
      ensures Canonical(ranges) && Members(ranges) == Members(old(ranges)) + Members(old(add.ranges))
    {
      ghost var mine, theirs := ranges, add.ranges;
      var curdup := new IpSet();
      curdup.ranges := ranges;
      for z := 0 to |add.ranges|
        invariant ranges == mine && add.ranges == theirs && Canonical(curdup.ranges)
        invariant forall x: Addr :: Has(curdup.ranges, x) <==> Has(mine, x) || Has(theirs[..z], x)
      {
        CanonicalAt(theirs, z);
        curdup.Add(add.ranges[z]);
        HasSnoc(theirs, z);
      }
      assert theirs[..|theirs|] == theirs;
      ranges := curdup.ranges;
    }

    /** Difference with another set, built in a copy that then replaces this one. */
    method PurgeFrom(del: IpSet)
      requires Canonical(ranges) && Canonical(del.ranges)
      modifies this
      ensures Canonical(ranges) && Members(ranges) == Members(old(ranges)) - Members(old(del.ranges))
    {
      ghost var mine, theirs := ranges, del.ranges;
      var curdup := new IpSet();
      curdup.ranges := ranges;
      for z := 0 to |del.ranges|
        invariant ranges == mine && del.ranges == theirs && Canonical(curdup.ranges)
        invariant forall x: Addr :: Has(curdup.ranges, x) <==> Has(mine, x) && !Has(theirs[..z], x)
      {
        CanonicalAt(theirs, z);
        curdup.Delete(del.ranges[z]);
        HasSnoc(theirs, z);
      }
      assert theirs[..|theirs|] == theirs;
      ranges := curdup.ranges;
    }

    /** What follows parsing: invert on request, and refuse an empty result. */
    method PostParse(invert: bool) returns (ret: int)
      requires Canonical(ranges)
      modifies this
      ensures Canonical(ranges)
      ensures Members(ranges) == if invert then Span(ALL) - Members(old(ranges)) else Members(old(ranges))
      ensures ret == if Members(ranges) == {} then -1 else 0
    {
      if invert {
        var tmp := new IpSet();
        tmp.Add(ALL);
        tmp.PurgeFrom(this);
        assert Members(tmp.ranges) == Span(ALL) - Members(ranges);
        ranges := tmp.ranges;
      }
      EmptyIsNil(ranges);
      ret := if |ranges| == 0 then -1 else 0;
    }

    method Contains(ip: Addr) returns (found: bool)
      requires Canonical(ranges)
      ensures found <==> ip in Members(ranges)
    {
      CanonicalIsSeparated(ranges);
      for z := 0 to |ranges|
        invariant forall i :: 0 <= i < z ==> ranges[i].upper < ip
      {
        if ip < ranges[z].lower { return false; }
        if ip <= ranges[z].upper { return true; }
      }
      return false;
    }

    method RangeClashes(ir: Range) returns (clash: bool)
      requires Canonical(ranges) && ir.Proper()
      ensures clash <==> Members(ranges) * Span(ir) != {}
    {
      CanonicalIsSeparated(ranges);
      for z := 0 to |ranges|
        invariant Apart(ranges[..z], ir)
      {
        var cur := ranges[z];
        ghost var meet := if ir.lower <= cur.lower then cur.lower else ir.lower;
        if cur.lower <= ir.upper <= cur.upper || cur.lower <= ir.lower <= cur.upper
           || (ir.lower <= cur.lower && ir.upper >= cur.upper) {
          assert cur.Holds(meet) && ir.Holds(meet);
          assert meet in Members(ranges) * Span(ir);
          return true;
        }
      }
      assert ranges[..|ranges|] == ranges;
      return false;
    }

    method Clashes(other: IpSet) returns (clash: bool)
      requires Canonical(ranges) && Canonical(other.ranges)
      ensures clash <==> Members(ranges) * Members(other.ranges) != {}
    {
      for z := 0 to |other.ranges|
        invariant forall x: Addr :: !(Has(ranges, x) && Has(other.ranges[..z], x))
      {
        CanonicalAt(other.ranges, z);
        var c := RangeClashes(other.ranges[z]);
        HasSnoc(other.ranges, z);
        if c {
          ghost var x :| x in Members(ranges) * Span(other.ranges[z]);
          assert other.ranges[z].Holds(x);
          assert x in Members(ranges) * Members(other.ranges);
          return true;
        }
        assert forall x: Addr :: x in Members(ranges) * Span(other.ranges[z]) <==> Has(ranges, x) && other.ranges[z].Holds(x);
      }
      assert other.ranges[..|other.ranges|] == other.ranges;
      return false;
    }

    /** Whether sub is a subset of this set. */
    method Encloses(sub: IpSet) returns (r: bool)
      requires Canonical(ranges) && Canonical(sub.ranges)
      ensures r <==> Members(sub.ranges) <= Members(ranges)
    {
      CanonicalIsSeparated(ranges);
      for zsub := 0 to |sub.ranges|
        invariant forall x: Addr :: Has(sub.ranges[..zsub], x) ==> Has(ranges, x)
      {
        var isub := sub.ranges[zsub];
        CanonicalAt(sub.ranges, zsub);
        HasSnoc(sub.ranges, zsub);
        assert isub.Holds(isub.lower) && isub.Holds(isub.upper);
        assert isub.lower in Members(sub.ranges) && isub.upper in Members(sub.ranges);
        var z := 0;
        while z < |ranges|
          invariant z <= |ranges|
          invariant forall i :: 0 <= i < z ==> !ranges[i].Holds(isub.lower)
        {
          if ranges[z].Holds(isub.lower) {
            if ranges[z].Holds(isub.upper) { break; }
            EndOfRun(ranges, z);
            assert isub.Holds(ranges[z].upper + 1);
            assert ranges[z].upper + 1 in Members(sub.ranges);
            return false;
          }
          z := z + 1;
        }
        if z == |ranges| {
          assert isub.lower !in Members(ranges);
          return false;
        }
      }
      assert sub.ranges[..|sub.ranges|] == sub.ranges;
      return true;
    }

    /** memcmp over the range arrays. */
    method Equals(other: IpSet) returns (eq: bool)
      requires Canonical(ranges) && Canonical(other.ranges)
      ensures eq <==> Members(ranges) == Members(other.ranges)
    {
      if Members(ranges) == Members(other.ranges) { CanonicalUnique(ranges, other.ranges); }
      if |ranges| != |other.ranges| { return false; }
      if |ranges| == 0 { return true; }
      eq := ranges == other.ranges;
    }

    method Cmp(other: IpSet) returns (order: int)
      ensures order == Compare(ranges, other.ranges)
      ensures order < 0 <==> exists k: nat :: ComesFirst(ranges, other.ranges, k)
      ensures order > 0 <==> exists k: nat :: ComesFirst(other.ranges, ranges, k)
    {
      CompareDirection(ranges, other.ranges);
      CompareDirection(other.ranges, ranges);
      CompareAntisymmetric(ranges, other.ranges);
      hide ComesFirst;
      var z := 0;
      while z < |ranges| && z < |other.ranges|
        invariant z <= |ranges| && z <= |other.ranges|
        invariant Compare(ranges, other.ranges) == Compare(ranges[z..], other.ranges[z..])
      {
        order := CompareRange(ranges[z], other.ranges[z]);
        if order != 0 { return; }
        z := z + 1;
      }
      order := if |ranges| < |other.ranges| then -1 else if |ranges| > |other.ranges| then 1 else 0;
    }

    /** A 64-bit sum, which cannot wrap. */
    method SumArea() returns (area: nat)
      requires Canonical(ranges)
      ensures area == |Members(ranges)| <= ADDRS
    {
      area := 0;
      for z := 0 to |ranges|
        invariant area == Area(ranges[..z]) <= ADDRS
      {
        CanonicalFront(ranges, z + 1);
        AreaIsCardinality(ranges[..z + 1]);
        assert ranges[..z + 1][..z] == ranges[..z];
        area := (area + (ranges[z].upper - ranges[z].lower + 1)) % 0x1_0000_0000_0000_0000;
      }
      assert ranges[..|ranges|] == ranges;
      AreaIsCardinality(ranges);
    }
  }

  /** A range is added or deleted. */
  datatype Edit = Put(lower: Addr, upper: Addr) | Cut(lower: Addr, upper: Addr)

  /** The last edit that reaches x adds it. */
  predicate Covered(edits: seq<Edit>, x: Addr) {
    edits != [] &&
    var e := edits[|edits| - 1];
    if e.lower <= x <= e.upper then e.Put? else Covered(edits[..|edits| - 1], x)
  }

  lemma CoveredNext(edits: seq<Edit>, n: nat, x: Addr)
    requires n < |edits|
    ensures Covered(edits[..n + 1], x) <==> if edits[n].lower <= x <= edits[n].upper then edits[n].Put? else Covered(edits[..n], x)
  {
    assert edits[..n + 1][..n] == edits[..n];
  }

  lemma EditKeeps(edits: seq<Edit>, n: nat, rs: seq<Range>, rs': seq<Range>)
    requires n < |edits| && forall x: Addr :: Has(rs, x) <==> Covered(edits[..n], x)
    requires var e := edits[n];
      var r := Range(e.lower, e.upper);
      if e.Put? then IsUnion(rs', rs, r) else IsDifference(rs', rs, r)
    ensures forall x: Addr :: Has(rs', x) <==> Covered(edits[..n + 1], x)
  {
    hide Has, Covered;
    forall x: Addr ensures Has(rs', x) <==> Covered(edits[..n + 1], x) { CoveredNext(edits, n, x); }
  }

  /** Any additions and deletions, in any order: the ranges are sorted, apart, and not adjacent, and
      hold exactly the addresses that the last edit reaching them has added. */
  method Replay(edits: seq<Edit>, probe: Addr) returns (ips: IpSet, found: bool, area: nat)
    requires forall i :: 0 <= i < |edits| ==> edits[i].lower <= edits[i].upper
    ensures forall i :: 0 <= i < |ips.ranges| ==> ips.ranges[i].lower <= ips.ranges[i].upper
    ensures forall i, j :: 0 <= i < j < |ips.ranges| ==> ips.ranges[i].upper + 1 < ips.ranges[j].lower
    ensures forall x: Addr ::
      Covered(edits, x) <==> exists i :: 0 <= i < |ips.ranges| && ips.ranges[i].lower <= x <= ips.ranges[i].upper
    ensures found <==> Covered(edits, probe)
    ensures area == |set x: Addr | Covered(edits, x)|
  {
    hide Canonical, Has, Covered, IsUnion, IsDifference, Separated;
    ips := new IpSet();
    NothingCovered();
    assert edits[..0] == [];
    for n := 0 to |edits|
      invariant fresh(ips) && Canonical(ips.ranges)
      invariant forall x: Addr :: Has(ips.ranges, x) <==> Covered(edits[..n], x)
    {
      ghost var rs := ips.ranges;
      match edits[n] {
        case Put(lower, upper) => ips.Add(Range(lower, upper));
        case Cut(lower, upper) => ips.Delete(Range(lower, upper));
      }
      EditKeeps(edits, n, rs, ips.ranges);
    }
    assert edits[..|edits|] == edits;
    CanonicalIsSeparated(ips.ranges);
    found := ips.Contains(probe);
    area := ips.SumArea();
    assert Members(ips.ranges) == set x: Addr | Covered(edits, x);
    ReplaySays(ips.ranges, edits);
  }

  lemma NothingCovered()
    ensures Canonical([]) && forall x: Addr :: !Has([], x) && !Covered([], x)
  {
  }

  lemma ReplaySays(rs: seq<Range>, edits: seq<Edit>)
    requires Separated(rs) && forall x: Addr :: Has(rs, x) <==> Covered(edits, x)
    ensures forall i :: 0 <= i < |rs| ==> rs[i].lower <= rs[i].upper
    ensures forall i, j :: 0 <= i < j < |rs| ==> rs[i].upper + 1 < rs[j].lower
    ensures forall x: Addr :: Covered(edits, x) <==> exists i :: 0 <= i < |rs| && rs[i].lower <= x <= rs[i].upper
  {
    hide Covered;
    forall x: Addr ensures Covered(edits, x) <==> exists i :: 0 <= i < |rs| && rs[i].lower <= x <= rs[i].upper {
      assert Has(rs, x) <==> exists i :: 0 <= i < |rs| && rs[i].lower <= x <= rs[i].upper;
    }
  }
}

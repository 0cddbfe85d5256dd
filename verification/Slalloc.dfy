/** How a slab cuts its blocks into objects, and the usemaps that say which are live. */
module SlabLayout {
  import opened Bits
  import opened Powers

  /** Bits of a usemap word, a uint_fast32_t of an LP64 system. */
  const WORD: nat := 64

  /** Page and object sizes in bytes. */
  datatype Layout = Layout(pgsize: nat, objsize: nat, objsperpage: nat, pagesperblock: nat) {
    ghost predicate Valid() {
      0 < objsize <= pgsize && objsperpage == pgsize / objsize && pagesperblock > 0
    }

    /** Blocks are mapped by the power of two. */
    ghost predicate Paged() { exists k :: 0 <= k < WORD && pagesperblock == Pow2(k) <= WORD }

    function BlockBytes(): nat { pgsize * pagesperblock }

    function ObjsPerBlock(): nat { objsperpage * pagesperblock }

    function WordsPerBlock(): nat {
      ObjsPerBlock() / WORD + (if ObjsPerBlock() % WORD != 0 then 1 else 0)
    }

    /** Where object idx starts within its block. */
    function Offset(idx: nat): nat
      requires objsperpage > 0
    {
      idx / objsperpage * pgsize + (idx % objsperpage) * objsize
    }

    /** Which object of a block the byte at a distance from its start belongs to. */
    function IndexOf(distance: nat): nat
      requires pgsize > 0 && objsize > 0
    {
      NatQuotient(distance, pgsize);
      NatProduct(distance / pgsize, objsperpage);
      NatQuotient(distance % pgsize, objsize);
      distance / pgsize * objsperpage + (distance % pgsize) / objsize
    }
  }

  lemma NatProduct(a: nat, b: nat)
    ensures a * b >= 0
  {
  }

  lemma NatQuotient(a: nat, b: nat)
    requires b > 0
    ensures a / b >= 0
  {
  }

  lemma DivModUnique(q: nat, m: nat, r: nat)
    requires r < m
    ensures (q * m + r) / m == q && (q * m + r) % m == r
  {
    var x := q * m + r;
    assert (q - x / m) * m == x % m - r;
    NoMultipleBetween(q - x / m, m);
  }

  lemma NoMultipleBetween(d: int, m: nat)
    requires 0 - m < d * m < m
    ensures d == 0
  {
  }

  lemma DivMod(i: nat, n: nat)
    requires n > 0
    ensures i == i / n * n + i % n && i % n < n
  {
  }

  lemma MulMonotone(a: nat, b: nat, m: nat)
    requires a <= b
    ensures a * m <= b * m
  {
  }

  lemma LayoutBasics(g: Layout)
    requires g.Valid()
    ensures g.objsperpage > 0 && g.objsperpage * g.objsize <= g.pgsize && g.pagesperblock > 0
  {
    assert g.pgsize == g.objsperpage * g.objsize + g.pgsize % g.objsize;
  }

  /** Slot s of page p, with per slots of the given size to a page. */
  lemma Slot(p: nat, s: nat, per: nat, pages: nat, size: nat, page: nat)
    requires p < pages && s < per && per * size <= page && size > 0
    ensures (p * page + s * size) / page == p && (p * page + s * size) % page == s * size
    ensures s * size + size <= page && p * page + s * size + size <= pages * page
    ensures (s * size) / size == s
  {
    MulMonotone(s + 1, per, size);
    assert (s + 1) * size == s * size + size;
    DivModUnique(p, page, s * size);
    DivModUnique(s, size, 0);
    MulMonotone(p + 1, pages, page);
    assert (p + 1) * page == p * page + page;
  }

  lemma PageAndSlot(g: Layout, idx: nat)
    requires g.Valid() && idx < g.ObjsPerBlock()
    ensures g.objsperpage > 0 && idx / g.objsperpage < g.pagesperblock && idx % g.objsperpage < g.objsperpage
  {
    LayoutBasics(g);
    if idx / g.objsperpage >= g.pagesperblock {
      MulMonotone(g.pagesperblock, idx / g.objsperpage, g.objsperpage);
    }
  }

  /** An object lies inside one page, and the page inside the block. */
  lemma OffsetInPage(g: Layout, idx: nat)
    requires g.Valid() && idx < g.ObjsPerBlock()
    ensures g.objsperpage > 0
    ensures g.Offset(idx) / g.pgsize < g.pagesperblock
    ensures g.Offset(idx) % g.pgsize + g.objsize <= g.pgsize
    ensures g.Offset(idx) + g.objsize <= g.BlockBytes()
  {
    LayoutBasics(g);
    PageAndSlot(g, idx);
    Slot(idx / g.objsperpage, idx % g.objsperpage, g.objsperpage, g.pagesperblock, g.objsize, g.pgsize);
  }

  /** slalloc_free's divisions invert the address computation of slalloc_new. */
  lemma IndexInvertsOffset(g: Layout, idx: nat)
    requires g.Valid() && idx < g.ObjsPerBlock()
    ensures g.objsperpage > 0 && g.IndexOf(g.Offset(idx)) == idx
  {
    LayoutBasics(g);
    PageAndSlot(g, idx);
    var p, s := idx / g.objsperpage, idx % g.objsperpage;
    Slot(p, s, g.objsperpage, g.pagesperblock, g.objsize, g.pgsize);
    DivMod(idx, g.objsperpage);
  }

  lemma SlotsApart(p: nat, s: nat, q: nat, t: nat, per: nat, size: nat, page: nat)
    requires s < per && t < per && per * size <= page
    requires p < q || (p == q && s < t)
    ensures p * page + s * size + size <= q * page + t * size
  {
    if p == q {
      MulMonotone(s + 1, t, size);
      assert (s + 1) * size == s * size + size;
    } else {
      MulMonotone(s + 1, per, size);
      assert (s + 1) * size == s * size + size;
      MulMonotone(p + 1, q, page);
      assert (p + 1) * page == p * page + page;
    }
  }

  /** Different objects of a block do not share a byte. */
  lemma OffsetsApart(g: Layout, i: nat, j: nat)
    requires g.Valid() && i < j < g.ObjsPerBlock()
    ensures g.objsperpage > 0 && g.Offset(i) + g.objsize <= g.Offset(j)
  {
    LayoutBasics(g);
    var n := g.objsperpage;
    QuotientOrder(i, j, n);
    SlotsApart(i / n, i % n, j / n, j % n, n, g.objsize, g.pgsize);
  }

  lemma LexOrder(a: nat, r: nat, b: nat, s: nat, n: nat)
    requires r < n && s < n && a * n + r < b * n + s
    ensures a < b || (a == b && r < s)
  {
    if a > b { MulMonotone(b + 1, a, n); }
  }

  lemma QuotientOrder(i: nat, j: nat, n: nat)
    requires i < j && n > 0
    ensures i / n < j / n || (i / n == j / n && i % n < j % n)
  {
    DivMod(i, n);
    DivMod(j, n);
    LexOrder(i / n, i % n, j / n, j % n, n);
  }

  // ----- usemaps

  /** An array of machine words. */
  ghost predicate IsMap(ws: seq<nat>) {
    forall z :: 0 <= z < |ws| ==> ws[z] < Pow2(WORD)
  }

  /** Bit i of the array. */
  predicate BitAt(ws: seq<nat>, i: nat) {
    i / WORD < |ws| && Bit(ws[i / WORD], i % WORD)
  }

  /** The objects among the first m of a block that are not in use. */
  ghost function Unused(ws: seq<nat>, m: nat): set<nat> {
    set i | 0 <= i < m && !BitAt(ws, i)
  }

  /** The usemap with bit idx set, and with it cleared. */
  function WithBit(ws: seq<nat>, idx: nat): seq<nat>
    requires idx / WORD < |ws|
  {
    ws[idx / WORD := Or(ws[idx / WORD], Pow2(idx % WORD))]
  }

  function WithoutBit(ws: seq<nat>, idx: nat): seq<nat>
    requires idx / WORD < |ws|
  {
    Pow2Less(idx % WORD, WORD);
    ws[idx / WORD := And(ws[idx / WORD], Not(WORD, Pow2(idx % WORD)))]
  }

  lemma SetBitAt(ws: seq<nat>, idx: nat)
    requires IsMap(ws) && idx / WORD < |ws|
    ensures IsMap(WithBit(ws, idx))
    ensures forall i: nat :: BitAt(WithBit(ws, idx), i) <==> i == idx || BitAt(ws, i)
  {
    hide Or, Bit, Pow2;
    var z, k := idx / WORD, idx % WORD;
    Pow2Less(k, WORD);
    OrBound(WORD, ws[z], Pow2(k));
    forall i: nat ensures BitAt(WithBit(ws, idx), i) <==> i == idx || BitAt(ws, i) {
      OrBits(ws[z], Pow2(k), i % WORD);
      Pow2Bits(k, i % WORD);
    }
  }

  lemma ClearBitAt(ws: seq<nat>, idx: nat)
    requires IsMap(ws) && idx / WORD < |ws|
    ensures IsMap(WithoutBit(ws, idx))
    ensures forall i: nat :: BitAt(WithoutBit(ws, idx), i) <==> i != idx && BitAt(ws, i)
  {
    hide And, Bit, Pow2, Not;
    var z, k := idx / WORD, idx % WORD;
    Pow2Less(k, WORD);
    AndBits(ws[z], Not(WORD, Pow2(k)), 0);
    forall i: nat ensures BitAt(WithoutBit(ws, idx), i) <==> i != idx && BitAt(ws, i) {
      MaskBits(WORD, ws[z], k, i % WORD);
    }
  }

  lemma MaskBits(n: nat, w: nat, k: nat, j: nat)
    requires w < Pow2(n) && k < n && j < n
    ensures Pow2(k) < Pow2(n)
    ensures Bit(And(w, Not(n, Pow2(k))), j) <==> j != k && Bit(w, j)
  {
    Pow2Less(k, n);
    AndBits(w, Not(n, Pow2(k)), j);
    NotBits(n, Pow2(k), j);
    Pow2Bits(k, j);
  }

  /** ~w & (w + 1) for a usemap word. */
  function Rightmost(w: nat): nat
    requires w < Pow2(WORD)
  {
    And(Not(WORD, w), Succ(WORD, w))
  }

  lemma RightmostClear(w: nat)
    requires w < Pow2(WORD)
    ensures Rightmost(w) == 0 ==> forall k :: 0 <= k < WORD ==> Bit(w, k)
    ensures Rightmost(w) != 0 ==>
              var k := LowClear(w);
              k < WORD && Rightmost(w) == Pow2(k) && !Bit(w, k) && forall j :: 0 <= j < k ==> Bit(w, j)
  {
    hide And, Succ, Bit, Pow2;
    IsolateRightmostClear(WORD, w);
    if w == Pow2(WORD) - 1 {
      forall k | 0 <= k < WORD ensures Bit(w, k) {
        NotBits(WORD, 0, k);
        BitOfZero(k);
      }
    } else {
      LowClearIsLowest(w);
    }
  }

  /** With every word before z full and an unused object c, either word z is full too and c
      lies further on, or the bit isolated in word z is that of an unused object up to c:
      bits of the last word that belong to no object are never reached. */
  lemma LowestUnused(ws: seq<nat>, z: nat, c: nat)
    requires IsMap(ws) && z < |ws| && c / WORD < |ws| && !BitAt(ws, c)
    requires forall y :: 0 <= y < z ==> Rightmost(ws[y]) == 0
    ensures Rightmost(ws[z]) == 0 ==> z + 1 < |ws|
    ensures Rightmost(ws[z]) != 0 ==>
              var k := LowClear(ws[z]);
              && k < WORD && Rightmost(ws[z]) == Pow2(k)
              && z * WORD + k <= c && !BitAt(ws, z * WORD + k)
              && ws[z := Or(ws[z], Rightmost(ws[z]))] == WithBit(ws, z * WORD + k)
  {
    hide Or, Rightmost, LowClear, Bit, Pow2;
    var y := c / WORD;
    RightmostClear(ws[y]);
    assert Rightmost(ws[y]) != 0 && y >= z;
    if Rightmost(ws[z]) != 0 {
      RightmostClear(ws[z]);
      var k := LowClear(ws[z]);
      WordIndex(z, k);
      assert y == z ==> k <= c % WORD;
      NotBeyond(z, k, c);
    }
  }

  lemma NotBeyond(z: nat, k: nat, c: nat)
    requires k < WORD && (z < c / WORD || (z == c / WORD && k <= c % WORD))
    ensures z * WORD + k <= c
  {
  }

  lemma WordIndex(z: nat, y: nat)
    requires y < WORD
    ensures (z * WORD + y) / WORD == z && (z * WORD + y) % WORD == y
  {
  }

  /** A block's objects all have a bit in its words. */
  lemma WordsCover(m: nat, i: nat)
    requires i < m
    ensures i / WORD < m / WORD + (if m % WORD != 0 then 1 else 0)
  {
  }
}

/** The slab allocator of libdank/objects/slalloc.c.  Addresses are naturals, 0 is NULL. */
module Slabs {
  import opened Bits
  import opened Magic
  import opened Powers
  import opened SlabLayout

  /** A pointer into one allocation of the usemaps array: it dangles once that array has
      been reallocated. */
  datatype Link = Null | To(gen: nat, idx: nat)

  /** What is granted to a new block: everything; not both arrays; these, but no usemap; or all but
      the pages themselves. */
  datatype Grant = All | NoArrays | NoUsemap | NoPages

  datatype PgData = PgData(usemap: seq<nat>, unallocated: nat, next: Link)

  /** The usemap of a block of m objects agrees with its count, and has no other bits set. */
  ghost predicate MapOk(g: Layout, pd: PgData)
    requires g.Valid()
  {
    && IsMap(pd.usemap) && |pd.usemap| == g.WordsPerBlock()
    && (forall i :: g.ObjsPerBlock() <= i ==> !BitAt(pd.usemap, i))
    && pd.unallocated == |Unused(pd.usemap, g.ObjsPerBlock())|
  }

  ghost predicate MapsOk(g: Layout, us: seq<PgData>)
    requires g.Valid()
  {
    forall b :: 0 <= b < |us| ==> MapOk(g, us[b])
  }

  function LinkAt(gen: nat, nf: seq<nat>, i: nat): Link {
    if i < |nf| then To(gen, nf[i]) else Null
  }

  /** The non-full list starting at head runs exactly through nf, each block with a free
      object once, and every link is into the current array. */
  ghost predicate Listed(us: seq<PgData>, gen: nat, head: Link, nf: seq<nat>) {
    head == LinkAt(gen, nf, 0) && Chained(us, gen, nf) && Once(nf) && NonFull(us, nf)
  }

  ghost predicate Once(nf: seq<nat>) { forall i, j :: 0 <= i < j < |nf| ==> nf[i] != nf[j] }

  ghost predicate NonFull(us: seq<PgData>, nf: seq<nat>) {
    forall b :: 0 <= b < |us| ==> (b in nf <==> us[b].unallocated > 0)
  }

  ghost predicate Chained(us: seq<PgData>, gen: nat, nf: seq<nat>) {
    forall i :: 0 <= i < |nf| ==> nf[i] < |us| && us[nf[i]].next == LinkAt(gen, nf, i + 1)
  }

  ghost predicate BlocksApart(g: Layout, bases: seq<nat>) {
    && (forall b :: 0 <= b < |bases| ==> bases[b] > 0)
    && (forall b, c :: 0 <= b < c < |bases| ==>
          bases[b] + g.BlockBytes() <= bases[c] || bases[c] + g.BlockBytes() <= bases[b])
  }

  ghost predicate Used(g: Layout, us: seq<PgData>, b: nat, i: nat)
    requires g.Valid() && MapsOk(g, us)
  {
    b < |us| && i < g.ObjsPerBlock() && BitAt(us[b].usemap, i)
  }

  function Address(g: Layout, bases: seq<nat>, b: nat, i: nat): nat
    requires g.Valid() && b < |bases|
  {
    LayoutBasics(g);
    bases[b] + g.Offset(i)
  }

  lemma AddressIsNotNull(g: Layout, bases: seq<nat>, b: nat, i: nat)
    requires g.Valid() && BlocksApart(g, bases) && b < |bases|
    ensures Address(g, bases, b, i) > 0
  {
  }

  lemma AddressesApart(g: Layout, bases: seq<nat>, b: nat, i: nat, c: nat, j: nat)
    requires g.Valid() && BlocksApart(g, bases) && b < |bases| && c < |bases|
    requires i < g.ObjsPerBlock() && j < g.ObjsPerBlock() && (b, i) != (c, j)
    ensures Address(g, bases, b, i) + g.objsize <= Address(g, bases, c, j)
            || Address(g, bases, c, j) + g.objsize <= Address(g, bases, b, i)
  {
    OffsetInPage(g, i);
    OffsetInPage(g, j);
    if b == c {
      if i < j { OffsetsApart(g, i, j); } else { OffsetsApart(g, j, i); }
    }
  }

  /** obj is the address of an object in use. */
  ghost predicate Live(g: Layout, us: seq<PgData>, bases: seq<nat>, obj: nat)
    requires g.Valid() && MapsOk(g, us) && |us| == |bases|
  {
    exists b: nat, i: nat :: Used(g, us, b, i) && obj == Address(g, bases, b, i)
  }

  predicate Within(a: nat, base: nat, len: nat) { base <= a < base + len }

  /** The byte at a belongs to a live object. */
  ghost predicate Covered(g: Layout, us: seq<PgData>, bases: seq<nat>, a: nat)
    requires g.Valid() && MapsOk(g, us) && |us| == |bases|
  {
    exists o: nat :: Live(g, us, bases, o) && Within(a, o, g.objsize)
  }

  /** Every block is mapped, and its bytes outside live objects are zero. */
  ghost predicate Clean(g: Layout, us: seq<PgData>, bases: seq<nat>, mem: map<nat, nat>)
    requires g.Valid() && MapsOk(g, us) && |us| == |bases|
  {
    forall b, a :: 0 <= b < |bases| && Within(a, bases[b], g.BlockBytes()) ==>
      a in mem && (mem[a] == 0 || Covered(g, us, bases, a))
  }

  // ----- one block's usemap: taking an object and giving it back

  lemma TakeFromMap(g: Layout, pd: PgData, idx: nat)
    requires g.Valid() && MapOk(g, pd) && idx < g.ObjsPerBlock() && !BitAt(pd.usemap, idx)
    ensures pd.unallocated > 0 && idx / WORD < |pd.usemap|
    ensures MapOk(g, PgData(WithBit(pd.usemap, idx), pd.unallocated - 1, pd.next))
  {
    var m, ws := g.ObjsPerBlock(), pd.usemap;
    WordsCover(m, idx);
    SetBitAt(ws, idx);
    assert idx in Unused(ws, m);
    assert Unused(WithBit(ws, idx), m) == Unused(ws, m) - {idx};
  }

  lemma GiveToMap(g: Layout, pd: PgData, idx: nat)
    requires g.Valid() && MapOk(g, pd) && idx < g.ObjsPerBlock() && BitAt(pd.usemap, idx)
    ensures MapOk(g, PgData(WithoutBit(pd.usemap, idx), pd.unallocated + 1, pd.next))
  {
    var m, ws := g.ObjsPerBlock(), pd.usemap;
    ClearBitAt(ws, idx);
    assert Unused(WithoutBit(ws, idx), m) == Unused(ws, m) + {idx};
  }

  /** A search past full words finds an unused object of the block at the first word that
      is not full. */
  lemma FoundUnused(g: Layout, pd: PgData, z: nat)
    requires g.Valid() && MapOk(g, pd) && pd.unallocated > 0 && z < |pd.usemap|
    requires forall y :: 0 <= y < z ==> Rightmost(pd.usemap[y]) == 0
    ensures Rightmost(pd.usemap[z]) == 0 ==> z + 1 < |pd.usemap|
    ensures Rightmost(pd.usemap[z]) != 0 ==>
              var k, ws := LowClear(pd.usemap[z]), pd.usemap;
              && k < WORD && Rightmost(ws[z]) == Pow2(k) && z * WORD + k < g.ObjsPerBlock()
              && !BitAt(ws, z * WORD + k) && ws[z := Or(ws[z], Rightmost(ws[z]))] == WithBit(ws, z * WORD + k)
              && forall c :: c in Unused(ws, g.ObjsPerBlock()) ==> z * WORD + k <= c
  {
    hide Or, Rightmost, LowClear, Bit, Pow2, WithBit;
    var c :| c in Unused(pd.usemap, g.ObjsPerBlock());
    forall c | c in Unused(pd.usemap, g.ObjsPerBlock())
      ensures Rightmost(pd.usemap[z]) != 0 ==> z * WORD + LowClear(pd.usemap[z]) <= c
    {
      WordsCover(g.ObjsPerBlock(), c);
      LowestUnused(pd.usemap, z, c);
    }
    WordsCover(g.ObjsPerBlock(), c);
    LowestUnused(pd.usemap, z, c);
  }

  lemma MoreWords(g: Layout, pd: PgData, z: int)
    requires g.Valid() && MapOk(g, pd) && pd.unallocated > 0 && -1 <= z < |pd.usemap|
    requires forall y :: 0 <= y <= z ==> Rightmost(pd.usemap[y]) == 0
    ensures z + 1 < |pd.usemap|
  {
    if z >= 0 {
      FoundUnused(g, pd, z);
    } else {
      var c :| c in Unused(pd.usemap, g.ObjsPerBlock());
      WordsCover(g.ObjsPerBlock(), c);
    }
  }

  // ----- the set of live objects after a step

  lemma LiveAfterTake(g: Layout, us: seq<PgData>, bases: seq<nat>, b: nat, idx: nat, pd: PgData)
    requires g.Valid() && MapsOk(g, us) && |us| == |bases| && BlocksApart(g, bases) && MapOk(g, pd)
    requires b < |us| && idx < g.ObjsPerBlock() && !BitAt(us[b].usemap, idx)
    requires idx / WORD < |us[b].usemap|
    requires pd.usemap == WithBit(us[b].usemap, idx)
    ensures MapsOk(g, us[b := pd])
    ensures !Live(g, us, bases, Address(g, bases, b, idx))
    ensures forall o :: Live(g, us[b := pd], bases, o) <==> Live(g, us, bases, o) || o == Address(g, bases, b, idx)
  {
    var us' := us[b := pd];
    var obj := Address(g, bases, b, idx);
    SetBitAt(us[b].usemap, idx);
    assert forall c: nat, i: nat :: Used(g, us', c, i) <==> Used(g, us, c, i) || (c == b && i == idx);
    assert Used(g, us', b, idx);
    if Live(g, us, bases, obj) {
      var c: nat, i: nat :| Used(g, us, c, i) && obj == Address(g, bases, c, i);
      AddressesApart(g, bases, b, idx, c, i);
    }
  }

  lemma LiveAfterGive(g: Layout, us: seq<PgData>, bases: seq<nat>, b: nat, idx: nat, pd: PgData)
    requires g.Valid() && MapsOk(g, us) && |us| == |bases| && BlocksApart(g, bases) && MapOk(g, pd)
    requires Used(g, us, b, idx) && idx / WORD < |us[b].usemap|
    requires pd.usemap == WithoutBit(us[b].usemap, idx)
    ensures MapsOk(g, us[b := pd])
    ensures forall o :: Live(g, us[b := pd], bases, o) <==> Live(g, us, bases, o) && o != Address(g, bases, b, idx)
  {
    var us' := us[b := pd];
    var obj := Address(g, bases, b, idx);
    ClearBitAt(us[b].usemap, idx);
    assert forall c: nat, i: nat :: Used(g, us', c, i) <==> Used(g, us, c, i) && !(c == b && i == idx);
    forall o ensures Live(g, us', bases, o) <==> Live(g, us, bases, o) && o != obj {
      if Live(g, us', bases, o) {
        var c: nat, i: nat :| Used(g, us', c, i) && o == Address(g, bases, c, i);
        AddressesApart(g, bases, b, idx, c, i);
        assert Used(g, us, c, i);
      }
    }
  }

  lemma FreshMap(g: Layout, next: Link)
    requires g.Valid()
    ensures MapOk(g, FreshPg(g, next)) && forall i: nat :: !BitAt(FreshPg(g, next).usemap, i)
  {
    var ws := FreshPg(g, next).usemap;
    forall i: nat ensures !BitAt(ws, i) { BitOfZero(i % WORD); }
    AllUnused(ws, g.ObjsPerBlock());
  }

  lemma {:induction false} AllUnused(ws: seq<nat>, m: nat)
    requires forall i: nat :: !BitAt(ws, i)
    ensures |Unused(ws, m)| == m
  {
    if m > 0 {
      AllUnused(ws, m - 1);
      assert Unused(ws, m) == Unused(ws, m - 1) + {m - 1};
    } else {
      assert Unused(ws, m) == {};
    }
  }

  function FreshPg(g: Layout, next: Link): PgData {
    PgData(seq(g.WordsPerBlock(), _ => 0), g.ObjsPerBlock(), next)
  }

  /** memset(base, 0, len) */
  function Zeroed(mem: map<nat, nat>, base: nat, len: nat): map<nat, nat> {
    mem + map a: nat | base <= a < base + len && Within(a, base, len) :: 0
  }

  method Log2(n: nat, ghost k: nat) returns (r: nat)
    requires k < 64 && n == Pow2(k)
    ensures r == k
  {
    Log2OfPow2(k);
    r := UintLog2(n);
  }

  lemma BlocksApartAfterGrow(g: Layout, bases: seq<nat>, base: nat)
    requires BlocksApart(g, bases) && base > 0
    requires forall b :: 0 <= b < |bases| ==> bases[b] + g.BlockBytes() <= base || base + g.BlockBytes() <= bases[b]
    ensures BlocksApart(g, bases + [base])
  {
  }

  /** An empty list and one more block with free objects. */
  lemma ListedFirst(us: seq<PgData>, gen: nat, head: Link, nf: seq<nat>)
    requires Listed(us, gen, head, nf) && nf != []
    ensures nf[0] < |us|
  {
  }

  /** The first block of the list gives an object; with its last one it leaves the list. */
  lemma StateAfterTake(g: Layout, us: seq<PgData>, gen: nat, head: Link, nf: seq<nat>, idx: nat)
    requires g.Valid() && MapsOk(g, us) && Listed(us, gen, head, nf) && nf != []
    requires nf[0] < |us| && idx < g.ObjsPerBlock() && !BitAt(us[nf[0]].usemap, idx)
    ensures idx / WORD < |us[nf[0]].usemap| && us[nf[0]].unallocated > 0
    ensures var b := nf[0];
      var pd := PgData(WithBit(us[b].usemap, idx), us[b].unallocated - 1, us[b].next);
      && MapsOk(g, us[b := pd])
      && if pd.unallocated == 0 then Listed(us[b := pd], gen, pd.next, nf[1..]) else Listed(us[b := pd], gen, head, nf)
  {
    hide Listed, MapOk, WithBit, BitAt, LinkAt;
    var b := nf[0];
    TakeFromMap(g, us[b], idx);
    var pd := PgData(WithBit(us[b].usemap, idx), us[b].unallocated - 1, us[b].next);
    if pd.unallocated > 0 {
      ListedStays(us, gen, head, nf, b, pd);
    } else {
      assert nf == [b] + nf[1..];
      ListedDrops(us, gen, head, b, nf[1..], pd);
    }
  }

  /** The first block of the list has one object fewer. */
  lemma ListedStays(us: seq<PgData>, gen: nat, head: Link, nf: seq<nat>, b: nat, pd: PgData)
    requires Listed(us, gen, head, nf) && b in nf && b < |us| && pd.next == us[b].next && pd.unallocated > 0
    ensures Listed(us[b := pd], gen, head, nf)
  {
  }

  /** With its last object gone, it leaves the list. */
  lemma ListedDrops(us: seq<PgData>, gen: nat, head: Link, b: nat, rest: seq<nat>, pd: PgData)
    requires Listed(us, gen, head, [b] + rest) && b < |us| && pd.next == us[b].next && pd.unallocated == 0
    ensures Listed(us[b := pd], gen, pd.next, rest)
  {
    hide Once, NonFull;
    assert ([b] + rest)[0] == b && us[b].next == LinkAt(gen, [b] + rest, 1) == LinkAt(gen, rest, 0);
    hide Chained;
    NotAgain(b, rest);
    ChainDrops(us, gen, b, rest, pd);
    NonFullDrops(us, b, rest, pd);
  }

  lemma NotAgain(b: nat, rest: seq<nat>)
    requires Once([b] + rest)
    ensures b !in rest && Once(rest)
  {
    var nf := [b] + rest;
    forall i | 0 <= i < |rest| ensures rest[i] != b { assert nf[0] == b && nf[i + 1] == rest[i]; }
    forall i, j | 0 <= i < j < |rest| ensures rest[i] != rest[j] {
      assert nf[i + 1] == rest[i] && nf[j + 1] == rest[j];
    }
  }

  lemma NonFullDrops(us: seq<PgData>, b: nat, rest: seq<nat>, pd: PgData)
    requires NonFull(us, [b] + rest) && b < |us| && b !in rest && pd.unallocated == 0
    ensures NonFull(us[b := pd], rest)
  {
    forall c | 0 <= c < |us| ensures c in rest <==> us[b := pd][c].unallocated > 0 {
      assert c in [b] + rest <==> c == b || c in rest;
    }
  }

  lemma ChainDrops(us: seq<PgData>, gen: nat, b: nat, rest: seq<nat>, pd: PgData)
    requires Chained(us, gen, [b] + rest) && b < |us| && b !in rest
    ensures Chained(us[b := pd], gen, rest)
  {
    var nf := [b] + rest;
    forall i | 0 <= i < |rest| ensures rest[i] < |us| && us[b := pd][rest[i]].next == LinkAt(gen, rest, i + 1) {
      assert nf[i + 1] == rest[i] && rest[i] in rest;
      assert LinkAt(gen, nf, i + 2) == LinkAt(gen, rest, i + 1);
    }
  }

  lemma ListedAfterGrow(us: seq<PgData>, gen: nat, pd: PgData, gen': nat)
    requires Listed(us, gen, Null, []) && pd.unallocated > 0 && pd.next == Null
    ensures Listed(us + [pd], gen', To(gen', |us|), [|us|])
  {
  }

  lemma LiveAfterGrow(g: Layout, us: seq<PgData>, pd: PgData, bases: seq<nat>, base: nat)
    requires g.Valid() && MapsOk(g, us) && |us| == |bases| && MapOk(g, pd)
    requires forall i: nat :: !BitAt(pd.usemap, i)
    ensures MapsOk(g, us + [pd])
    ensures forall o :: Live(g, us + [pd], bases + [base], o) <==> Live(g, us, bases, o)
  {
    forall o ensures Live(g, us + [pd], bases + [base], o) <==> Live(g, us, bases, o) {
      if Live(g, us, bases, o) {
        var b: nat, i: nat :| Used(g, us, b, i) && o == Address(g, bases, b, i);
        assert Used(g, us + [pd], b, i);
      }
      if Live(g, us + [pd], bases + [base], o) {
        var b: nat, i: nat :| Used(g, us + [pd], b, i) && o == Address(g, bases + [base], b, i);
        assert Used(g, us, b, i);
      }
    }
  }

  // ----- memory

  /** More live objects, no more blocks. */
  lemma CleanAfterTake(g: Layout, us: seq<PgData>, us': seq<PgData>, bases: seq<nat>, mem: map<nat, nat>)
    requires g.Valid() && MapsOk(g, us) && MapsOk(g, us') && |us| == |us'| == |bases|
    requires Clean(g, us, bases, mem)
    requires forall o :: Live(g, us, bases, o) ==> Live(g, us', bases, o)
    ensures Clean(g, us', bases, mem)
  {
    forall b, a | 0 <= b < |bases| && Within(a, bases[b], g.BlockBytes())
      ensures a in mem && (mem[a] == 0 || Covered(g, us', bases, a))
    {
    }
  }

  lemma CleanAfterGrow(g: Layout, us: seq<PgData>, pd: PgData, bases: seq<nat>, base: nat, mem: map<nat, nat>)
    requires g.Valid() && MapsOk(g, us) && MapsOk(g, us + [pd]) && |us| == |bases|
    requires Clean(g, us, bases, mem)
    requires forall o :: Live(g, us, bases, o) ==> Live(g, us + [pd], bases + [base], o)
    ensures Clean(g, us + [pd], bases + [base], Zeroed(mem, base, g.BlockBytes()))
  {
    forall b, a | 0 <= b < |bases| + 1 && Within(a, (bases + [base])[b], g.BlockBytes())
      ensures var mem' := Zeroed(mem, base, g.BlockBytes());
              a in mem' && (mem'[a] == 0 || Covered(g, us + [pd], bases + [base], a))
    {
      assert b < |bases| ==> Within(a, bases[b], g.BlockBytes());
    }
  }

  /** Clearing an object's bytes as it dies. */
  lemma CleanAfterGive(g: Layout, us: seq<PgData>, us': seq<PgData>, bases: seq<nat>, obj: nat, mem: map<nat, nat>)
    requires g.Valid() && MapsOk(g, us) && MapsOk(g, us') && |us| == |us'| == |bases|
    requires Clean(g, us, bases, mem)
    requires forall o :: Live(g, us, bases, o) && o != obj ==> Live(g, us', bases, o)
    ensures Clean(g, us', bases, Zeroed(mem, obj, g.objsize))
  {
    forall b, a | 0 <= b < |bases| && Within(a, bases[b], g.BlockBytes())
      ensures var mem' := Zeroed(mem, obj, g.objsize);
              a in mem' && (mem'[a] == 0 || Covered(g, us', bases, a))
    {
      if Covered(g, us, bases, a) {
        var o: nat :| Live(g, us, bases, o) && Within(a, o, g.objsize);
      }
    }
  }

  lemma CleanAfterWrite(g: Layout, us: seq<PgData>, bases: seq<nat>, obj: nat, at: nat, byte: nat, mem: map<nat, nat>)
    requires g.Valid() && MapsOk(g, us) && |us| == |bases| && Clean(g, us, bases, mem)
    requires Live(g, us, bases, obj) && Within(at, obj, g.objsize)
    ensures Clean(g, us, bases, mem[at := byte])
  {
    hide Live, MapOk;
    assert Covered(g, us, bases, at);
    forall b, a | 0 <= b < |bases| && Within(a, bases[b], g.BlockBytes())
      ensures a in mem[at := byte] && (mem[at := byte][a] == 0 || Covered(g, us, bases, a))
    {
      hide Covered;
    }
  }

  lemma LiveInBlock(g: Layout, us: seq<PgData>, bases: seq<nat>, o: nat) returns (b: nat, i: nat)
    requires g.Valid() && MapsOk(g, us) && |us| == |bases| && Live(g, us, bases, o)
    ensures Used(g, us, b, i) && o == Address(g, bases, b, i)
    ensures bases[b] <= o && o + g.objsize <= bases[b] + g.BlockBytes()
  {
    b, i :| Used(g, us, b, i) && o == Address(g, bases, b, i);
    OffsetInPage(g, i);
  }

  lemma LiveApart(g: Layout, us: seq<PgData>, bases: seq<nat>, o: nat, p: nat)
    requires g.Valid() && MapsOk(g, us) && |us| == |bases| && BlocksApart(g, bases)
    requires Live(g, us, bases, o) && Live(g, us, bases, p) && o != p
    ensures o + g.objsize <= p || p + g.objsize <= o
  {
    var b, i := LiveInBlock(g, us, bases, o);
    var c, j := LiveInBlock(g, us, bases, p);
    AddressesApart(g, bases, b, i, c, j);
  }

  /** An object that has just come alive holds zeroes. */
  lemma NewIsZero(g: Layout, us: seq<PgData>, us': seq<PgData>, bases: seq<nat>, obj: nat, mem: map<nat, nat>)
    requires g.Valid() && MapsOk(g, us) && MapsOk(g, us') && |us| == |us'| == |bases| && BlocksApart(g, bases)
    requires Clean(g, us, bases, mem) && !Live(g, us, bases, obj) && Live(g, us', bases, obj)
    requires forall o :: Live(g, us, bases, o) ==> Live(g, us', bases, o)
    ensures forall a :: Within(a, obj, g.objsize) ==> a in mem && mem[a] == 0
  {
    var b, _ := LiveInBlock(g, us', bases, obj);
    forall a | Within(a, obj, g.objsize) ensures a in mem && mem[a] == 0 {
      assert Within(a, bases[b], g.BlockBytes());
      if Covered(g, us, bases, a) {
        var o: nat :| Live(g, us, bases, o) && Within(a, o, g.objsize);
        LiveApart(g, us', bases, o, obj);
      }
    }
  }

  /** Every byte of an object live before holds what it did. */
  ghost predicate Kept(g: Layout, us: seq<PgData>, bases: seq<nat>, mem: map<nat, nat>, mem': map<nat, nat>)
    requires g.Valid() && MapsOk(g, us) && |us| == |bases|
  {
    forall o, a :: Live(g, us, bases, o) && Within(a, o, g.objsize) ==> a in mem && a in mem' && mem'[a] == mem[a]
  }

  lemma KeptAtFirst(g: Layout, us: seq<PgData>, bases: seq<nat>, mem: map<nat, nat>)
    requires g.Valid() && MapsOk(g, us) && |us| == |bases| && Clean(g, us, bases, mem)
    ensures Kept(g, us, bases, mem, mem)
  {
    forall o: nat, a | Live(g, us, bases, o) && Within(a, o, g.objsize) ensures a in mem {
      var b, _ := LiveInBlock(g, us, bases, o);
      assert Within(a, bases[b], g.BlockBytes());
    }
  }

  lemma KeptAfterGrow(g: Layout, us: seq<PgData>, bases: seq<nat>, base: nat, mem: map<nat, nat>)
    requires g.Valid() && MapsOk(g, us) && |us| == |bases| && Clean(g, us, bases, mem)
    requires forall b :: 0 <= b < |bases| ==> bases[b] + g.BlockBytes() <= base || base + g.BlockBytes() <= bases[b]
    ensures Kept(g, us, bases, mem, Zeroed(mem, base, g.BlockBytes()))
  {
    forall o: nat, a | Live(g, us, bases, o) && Within(a, o, g.objsize)
      ensures a in mem && Zeroed(mem, base, g.BlockBytes())[a] == mem[a]
    {
      var b, _ := LiveInBlock(g, us, bases, o);
      assert Within(a, bases[b], g.BlockBytes());
    }
  }

  /** The bytes of an object at o are in one of the pages of the block at base. */
  predicate InOnePage(g: Layout, base: nat, o: nat)
    requires g.Valid()
  {
    base <= o && (o - base) / g.pgsize < g.pagesperblock && (o - base) % g.pgsize + g.objsize <= g.pgsize
  }

  /** obj is the first object of block b that is not in use. */
  ghost predicate FirstUnused(g: Layout, us: seq<PgData>, bases: seq<nat>, b: nat, obj: nat)
    requires g.Valid()
  {
    b < |us| && b < |bases|
    && exists idx: nat :: obj == Address(g, bases, b, idx) && !BitAt(us[b].usemap, idx)
                          && forall i: nat :: i < idx ==> BitAt(us[b].usemap, i)
  }

  class Slalloc {
    const g: Layout
    var pgarray: seq<nat>
    var usemaps: seq<PgData>
    var nonfull: Link
    var gen: nat
    var mem: map<nat, nat>
    ghost var nf: seq<nat>

    ghost predicate Shape()
      reads this
    {
      && g.Valid() && |pgarray| == |usemaps|
      && MapsOk(g, usemaps) && Listed(usemaps, gen, nonfull, nf) && BlocksApart(g, pgarray)
    }

    ghost predicate IsLive(obj: nat)
      requires Shape()
      reads this
    {
      Live(g, usemaps, pgarray, obj)
    }

    ghost predicate Valid()
      reads this
    {
      Shape() && Clean(g, usemaps, pgarray, mem)
    }

    /** The non-full list starts with a block that there is not, so that no state like this is valid. */
    ghost predicate Dangling()
      reads this
    {
      nonfull.To? && nonfull.idx >= |pgarray|
    }

    /** A fresh mapping of a block at base would overlap no earlier one. */
    ghost predicate Mappable(base: nat)
      reads this
    {
      base > 0 && forall b :: 0 <= b < |pgarray| ==>
        pgarray[b] + g.BlockBytes() <= base || base + g.BlockBytes() <= pgarray[b]
    }

    constructor (g: Layout)
      requires g.Valid()
      ensures Valid() && this.g == g && nonfull == Null && pgarray == [] && forall obj :: !IsLive(obj)
    {
      this.g := g;
      pgarray, usemaps, nonfull, gen, mem := [], [], Null, 0, map[];
      nf := [];
    }

    /** Where the list dangles, nothing makes the state valid. */
    lemma DanglingIsInvalid()
      requires |pgarray| == |usemaps| && Dangling()
      ensures forall nf :: !Listed(usemaps, gen, nonfull, nf)
    {
    }

    /** Live objects never share a byte, and each lies inside one page of one block. */
    lemma LiveObjectsApart(o: nat, p: nat)
      requires Shape() && IsLive(o) && IsLive(p) && o != p
      ensures o + g.objsize <= p || p + g.objsize <= o
      ensures exists b :: 0 <= b < |pgarray| && InOnePage(g, pgarray[b], o)
    {
      LiveApart(g, usemaps, pgarray, o, p);
      var b, i := LiveInBlock(g, usemaps, pgarray, o);
      OffsetInPage(g, i);
      assert InOnePage(g, pgarray[b], o);
    }

    /** The first usemap word of a block with a free object, and its rightmost 0 bit. */
    method FindFree(b: nat) returns (z: nat, rmost: nat)
      requires Shape() && b < |usemaps| && usemaps[b].unallocated > 0
      ensures z < |usemaps[b].usemap| && usemaps[b].usemap[z] < Pow2(WORD)
      ensures rmost == Rightmost(usemaps[b].usemap[z]) != 0
      ensures forall y :: 0 <= y < z ==> usemaps[b].usemap[y] < Pow2(WORD) && Rightmost(usemaps[b].usemap[y]) == 0
    {
      hide Listed, BlocksApart, Rightmost, Pow2;
      var ws := usemaps[b].usemap;
      assert MapOk(g, usemaps[b]);
      MoreWords(g, usemaps[b], -1);
      z := 0;
      while z < |ws|
        invariant z < |ws|
        invariant forall y :: 0 <= y < z ==> Rightmost(ws[y]) == 0
      {
        rmost := Rightmost(ws[z]);
        if rmost != 0 { return; }
        MoreWords(g, usemaps[b], z);
        z := z + 1;
      }
    }

    /** The first free object of the first block on the non-full list; NULL without one. */
    method TakeFirstUnused() returns (obj: nat)
      requires Valid()
      modifies `usemaps, `nonfull, `nf
      ensures Valid() && |usemaps| == old(|usemaps|)
      ensures obj == 0 <==> old(nonfull) == Null
      ensures obj == 0 ==> nonfull == Null && usemaps == old(usemaps)
      ensures obj != 0 ==> !old(IsLive(obj)) && forall o :: IsLive(o) <==> old(IsLive(o)) || o == obj
      ensures obj != 0 ==> forall a :: Within(a, obj, g.objsize) ==> a in mem && mem[a] == 0
      ensures obj != 0 ==> FirstUnused(g, old(usemaps), pgarray, old(nonfull).idx, obj)
    {
      hide WithBit, Rightmost, Live;
      if nonfull == Null { return 0; }
      var b := nonfull.idx;
      assert b == nf[0];
      var z, rmost := FindFree(b);
      hide WithBit, Listed, Clean, BlocksApart, Rightmost, Live, MapOk, IsMap;
      ghost var us := usemaps;
      var idx := Position(b, z, rmost);
      MarkTaken(b, z, rmost, idx);
      LiveAfterTake(g, us, pgarray, b, idx, usemaps[b]);
      CleanAfterTake(g, us, usemaps, pgarray, mem);
      LayoutBasics(g);
      obj := pgarray[b] + idx / g.objsperpage * g.pgsize + (idx % g.objsperpage) * g.objsize;
      assert obj == Address(g, pgarray, b, idx) > 0 by { AddressIsNotNull(g, pgarray, b, idx); }
      NewIsZero(g, us, usemaps, pgarray, obj, mem);
    }

    /** The number of the object that a word's rightmost 0 bit stands for. */
    method Position(b: nat, z: nat, rmost: nat) returns (idx: nat)
      requires Shape() && b < |usemaps| && usemaps[b].unallocated > 0
      requires z < |usemaps[b].usemap| && usemaps[b].usemap[z] < Pow2(WORD) && rmost == Rightmost(usemaps[b].usemap[z]) != 0
      requires forall y :: 0 <= y < z ==> usemaps[b].usemap[y] < Pow2(WORD) && Rightmost(usemaps[b].usemap[y]) == 0
      ensures idx < g.ObjsPerBlock() && !BitAt(usemaps[b].usemap, idx) && z == idx / WORD
      ensures forall i: nat :: i < idx ==> BitAt(usemaps[b].usemap, i)
      ensures usemaps[b].usemap[z := Or(usemaps[b].usemap[z], rmost)] == WithBit(usemaps[b].usemap, idx)
    {
      hide WithBit, Listed, BlocksApart, Rightmost, LowClear, Or, Bit, Pow2;
      assert MapOk(g, usemaps[b]);
      FoundUnused(g, usemaps[b], z);
      var k := Log2(rmost, LowClear(usemaps[b].usemap[z]));
      forall i: nat | i < z * WORD + k ensures BitAt(usemaps[b].usemap, i) {
        assert i !in Unused(usemaps[b].usemap, g.ObjsPerBlock());
      }
      return z * WORD + k;
    }

    /** Set the bit, count the object, and unlink a block that has become full. */
    method MarkTaken(b: nat, z: nat, rmost: nat, ghost idx: nat)
      requires Shape() && nf != [] && b == nf[0]
      requires idx < g.ObjsPerBlock() && !BitAt(usemaps[b].usemap, idx) && z == idx / WORD < |usemaps[b].usemap|
      requires usemaps[b].usemap[z := Or(usemaps[b].usemap[z], rmost)] == WithBit(usemaps[b].usemap, idx)
      modifies `usemaps, `nonfull, `nf
      ensures Shape()
      ensures usemaps == old(usemaps)[b := usemaps[b]]
      ensures usemaps[b].usemap == WithBit(old(usemaps)[b].usemap, idx)
    {
      ListedFirst(usemaps, gen, nonfull, nf);
      var pd := usemaps[b];
      hide Listed, BlocksApart, MapsOk, WithBit, BitAt, LinkAt, Or;
      StateAfterTake(g, usemaps, gen, nonfull, nf, idx);
      usemaps := usemaps[b := PgData(pd.usemap[z := Or(pd.usemap[z], rmost)], pd.unallocated - 1, pd.next)];
      if usemaps[b].unallocated == 0 {
        nonfull := pd.next;
        nf := nf[1..];
      }
    }

    /** One more block: both arrays are reallocated, which moves usemaps, and the new block
        heads the non-full list.  base is where the pages are mapped.  A refusal changes nothing
        that shows, but for one: pages are asked for when the block is on the list already, and it
        stays there, though there is no such block. */
    method AddPage(base: nat, grant: Grant) returns (r: int)
      requires Valid() && g.Paged() && nonfull == Null && Mappable(base)
      modifies this
      ensures r == if grant.All? then 0 else -1
      ensures grant.NoPages? <==> Dangling()
      ensures !grant.NoPages? ==> Valid() && forall o :: IsLive(o) <==> old(IsLive(o))
      ensures if r == 0 then nonfull != Null && pgarray == old(pgarray) + [base]
              else pgarray == old(pgarray) && usemaps == old(usemaps) && mem == old(mem) && (!grant.NoPages? ==> nonfull == Null)
      ensures Kept(g, old(usemaps), old(pgarray), old(mem), mem)
    {
      if grant.NoArrays? {
        KeptAtFirst(g, usemaps, pgarray, mem);
        return -1;
      }
      if grant.NoUsemap? {
        KeptAtFirst(g, usemaps, pgarray, mem);
        gen := gen + 1;
        return -1;
      }
      if grant.NoPages? {
        KeptAtFirst(g, usemaps, pgarray, mem);
        gen := gen + 1;
        nonfull := To(gen, |usemaps|);
        return -1;
      }
      Grow(base);
      return 0;
    }

    method Grow(base: nat)
      requires Valid() && g.Paged() && nonfull == Null && Mappable(base)
      modifies this
      ensures Valid() && nonfull != Null
      ensures forall o :: IsLive(o) <==> old(IsLive(o))
      ensures pgarray == old(pgarray) + [base]
      ensures Kept(g, old(usemaps), old(pgarray), old(mem), mem)
    {
      ghost var us, bases := usemaps, pgarray;
      LayoutBasics(g);
      FreshMap(g, Null);
      ListedAfterGrow(us, gen, FreshPg(g, Null), gen + 1);
      LiveAfterGrow(g, us, FreshPg(g, Null), bases, base);
      BlocksApartAfterGrow(g, bases, base);
      CleanAfterGrow(g, us, FreshPg(g, Null), bases, base, mem);
      KeptAfterGrow(g, us, bases, base, mem);
      gen := gen + 1;
      usemaps := usemaps + [FreshPg(g, nonfull)];
      nonfull := To(gen, |usemaps| - 1);
      nf := [|usemaps| - 1];
      MapPages(base);
      pgarray := pgarray + [base];
    }

    /** Map and clear 2^log2(pagesperblock) contiguous pages. */
    method MapPages(base: nat)
      requires g.Paged()
      modifies `mem
      ensures mem == Zeroed(old(mem), base, g.BlockBytes())
    {
      ghost var k :| 0 <= k < WORD && g.pagesperblock == Pow2(k) <= WORD;
      var order := Log2(g.pagesperblock, k);
      mem := Zeroed(mem, base, g.pgsize * Pow2(order));
    }

    /** Allocate an object; base is where a new block would be mapped if one is needed, and grant
        what the system would allow for it.  NULL exactly if a block is needed and refused. */
    method New(base: nat, grant: Grant) returns (obj: nat)
      requires Valid() && g.Paged() && Mappable(base)
      modifies this
      ensures obj == 0 <==> old(nonfull) == Null && !grant.All?
      ensures obj == 0 ==> pgarray == old(pgarray) && usemaps == old(usemaps) && mem == old(mem)
      ensures old(nonfull) == Null && grant.NoPages? <==> Dangling()
      ensures !Dangling() ==> Valid() && forall o :: IsLive(o) <==> old(IsLive(o)) || (o == obj && o != 0)
      ensures obj != 0 ==> !old(IsLive(obj)) && forall a :: Within(a, obj, g.objsize) ==> a in mem && mem[a] == 0
      ensures Kept(g, old(usemaps), old(pgarray), old(mem), mem)
    {
      KeptAtFirst(g, usemaps, pgarray, mem);
      obj := TakeFirstUnused();
      if obj == 0 {
        var r := AddPage(base, grant);
        if r == 0 { obj := TakeFirstUnused(); }
      }
    }

    /** The block whose bytes include obj. */
    method FindBlock(obj: nat, ghost b: nat) returns (z: nat)
      requires Shape() && b < |pgarray| && Within(obj, pgarray[b], g.BlockBytes())
      ensures z == b
    {
      z := 0;
      while obj < pgarray[z] || obj >= pgarray[z] + g.pgsize * g.pagesperblock
        invariant z <= b
        decreases b - z
      {
        z := z + 1;
      }
    }

    /** Give a live object back: its bytes are cleared, and no other object is touched. */
    method Free(obj: nat)
      requires Valid() && IsLive(obj)
      modifies this
      ensures Valid()
      ensures forall o :: IsLive(o) <==> old(IsLive(o)) && o != obj
      ensures mem == Zeroed(old(mem), obj, g.objsize) && pgarray == old(pgarray)
    {
      hide Clean, Zeroed, Listed, MapOk, WithoutBit, IsMap;
      ghost var b, i := LiveInBlock(g, usemaps, pgarray, obj);
      var idx := FindBlock(obj, b);
      var distance := obj - pgarray[idx];
      LayoutBasics(g);
      var objidx := distance / g.pgsize * g.objsperpage + (distance % g.pgsize) / g.objsize;
      IndexInvertsOffset(g, i);
      ghost var us := usemaps;
      WordsCover(g.ObjsPerBlock(), i);
      MarkGiven(idx, objidx);
      LiveAfterGive(g, us, pgarray, idx, objidx, usemaps[idx]);
      CleanAfterGive(g, us, usemaps, pgarray, obj, mem);
      mem := Zeroed(mem, obj, g.objsize);
    }

    /** Clear the bit, count the object, and link a block that was full. */
    method MarkGiven(b: nat, idx: nat)
      requires Shape() && Used(g, usemaps, b, idx) && idx / WORD < |usemaps[b].usemap|
      modifies `usemaps, `nonfull, `nf
      ensures Shape()
      ensures usemaps == old(usemaps)[b := usemaps[b]]
      ensures usemaps[b].usemap == WithoutBit(old(usemaps)[b].usemap, idx)
    {
      var pd := usemaps[b];
      GiveToMap(g, pd, idx);
      var next := pd.next;
      if pd.unallocated == 0 {
        next := nonfull;
        nonfull := To(gen, b);
        nf := [b] + nf;
      }
      usemaps := usemaps[b := PgData(WithoutBit(pd.usemap, idx), pd.unallocated + 1, next)];
    }

    /** A client writes a byte of an object it holds. */
    method Write(obj: nat, a: nat, byte: nat)
      requires Valid() && IsLive(obj) && Within(a, obj, g.objsize)
      modifies `mem
      ensures Valid() && mem == old(mem)[a := byte]
    {
      hide Clean, Listed, BlocksApart, MapOk, Live;
      CleanAfterWrite(g, usemaps, pgarray, obj, a, byte, mem);
      mem := mem[a := byte];
    }

    ghost predicate VisitedUpTo(visited: seq<nat>, p: nat, m: nat)
      requires Shape()
      reads this
    {
      && (forall o :: o in visited <==>
            exists b: nat, i: nat :: Used(g, usemaps, b, i) && (b < p || (b == p && i < m)) && o == Address(g, pgarray, b, i))
      && (forall i, j :: 0 <= i < j < |visited| ==> visited[i] != visited[j])
    }

    /** What a walk that has gone past the first m objects of block p leaves behind: all of
        them visited and none of them the last, or stopped at the last. */
    ghost predicate Walked(ret: int, visited: seq<nat>, p: nat, m: nat, stop: set<nat>)
      requires Shape()
      reads this
    {
      && (forall i, j :: 0 <= i < j < |visited| ==> visited[i] != visited[j])
      && (forall o :: o in visited ==> IsLive(o))
      && (forall i :: 0 <= i < |visited| - 1 ==> visited[i] !in stop)
      && (ret == 0 ==> VisitedUpTo(visited, p, m) && (visited != [] ==> visited[|visited| - 1] !in stop))
      && (ret != 0 ==> ret == -1 && visited != [] && visited[|visited| - 1] in stop)
    }

    /** Call back on every live object, in address order within a block, until a callback
        asks to stop; stop holds the objects whose callback does. */
    method Foreach(stop: set<nat>) returns (ret: int, visited: seq<nat>)
      requires Valid()
      ensures Walked(ret, visited, |pgarray|, 0, stop)
      ensures ret == 0 ==> forall o :: IsLive(o) <==> o in visited
    {
      ret, visited := 0, [];
      for p := 0 to |pgarray|
        invariant ret == 0 && Walked(ret, visited, p, 0, stop)
      {
        for z := 0 to |usemaps[p].usemap|
          invariant ret == 0 && Walked(ret, visited, p, z * WORD, stop)
        {
          ret, visited := VisitWord(visited, p, z, stop);
          if ret != 0 { return; }
        }
        BlockDone(visited, p);
      }
    }

    lemma BlockDone(visited: seq<nat>, p: nat)
      requires Shape() && p < |usemaps| && VisitedUpTo(visited, p, |usemaps[p].usemap| * WORD)
      ensures VisitedUpTo(visited, p + 1, 0)
    {
      forall i: nat | Used(g, usemaps, p, i) ensures i < |usemaps[p].usemap| * WORD {
        assert i / WORD < |usemaps[p].usemap|;
      }
    }

    method VisitWord(visited: seq<nat>, p: nat, z: nat, stop: set<nat>) returns (ret: int, visited': seq<nat>)
      requires Shape() && p < |usemaps| && z < |usemaps[p].usemap|
      requires Walked(0, visited, p, z * WORD, stop)
      ensures Walked(ret, visited', p, (z + 1) * WORD, stop)
    {
      ret, visited' := 0, visited;
      for y := 0 to WORD
        invariant ret == 0 && Walked(ret, visited', p, z * WORD + y, stop)
      {
        ret, visited' := VisitBit(visited', p, z, y, stop);
        if ret != 0 { return; }
      }
    }

    method VisitBit(visited: seq<nat>, p: nat, z: nat, y: nat, stop: set<nat>) returns (ret: int, visited': seq<nat>)
      requires Shape() && p < |usemaps| && z < |usemaps[p].usemap| && y < WORD
      requires Walked(0, visited, p, z * WORD + y, stop)
      ensures Walked(ret, visited', p, z * WORD + y + 1, stop)
    {
      hide Walked, Listed, BlocksApart;
      BitIsUsed(p, z, y);
      if Bit(usemaps[p].usemap[z], y) {
        var obj := Address(g, pgarray, p, z * WORD + y);
        WalkNext(visited, p, z * WORD + y, stop);
        return if obj in stop then -1 else 0, visited + [obj];
      }
      WalkPast(visited, p, z * WORD + y, stop);
      return 0, visited;
    }

    lemma BitIsUsed(p: nat, z: nat, y: nat)
      requires Shape() && p < |usemaps| && z < |usemaps[p].usemap| && y < WORD
      ensures Used(g, usemaps, p, z * WORD + y) <==> Bit(usemaps[p].usemap[z], y)
    {
      hide Listed, BlocksApart;
      WordIndex(z, y);
      assert MapOk(g, usemaps[p]);
    }

    lemma WalkPast(visited: seq<nat>, p: nat, idx: nat, stop: set<nat>)
      requires Shape() && Walked(0, visited, p, idx, stop) && !Used(g, usemaps, p, idx)
      ensures Walked(0, visited, p, idx + 1, stop)
    {
      hide Listed, BlocksApart, MapOk, Address, Live;
      assert forall b: nat, i: nat :: Used(g, usemaps, b, i) && b == p && i < idx + 1 ==> i < idx;
    }

    lemma VisitNext(visited: seq<nat>, p: nat, idx: nat)
      requires Shape() && VisitedUpTo(visited, p, idx) && Used(g, usemaps, p, idx)
      ensures VisitedUpTo(visited + [Address(g, pgarray, p, idx)], p, idx + 1)
    {
      hide Listed, MapOk, Address;
      var obj := Address(g, pgarray, p, idx);
      if obj in visited {
        var b: nat, i: nat :| Used(g, usemaps, b, i) && (b < p || (b == p && i < idx)) && obj == Address(g, pgarray, b, i);
        AddressesApart(g, pgarray, b, i, p, idx);
      }
    }

    lemma WalkNext(visited: seq<nat>, p: nat, idx: nat, stop: set<nat>)
      requires Shape() && Walked(0, visited, p, idx, stop) && Used(g, usemaps, p, idx)
      ensures var obj := Address(g, pgarray, p, idx);
              Walked(if obj in stop then -1 else 0, visited + [obj], p, idx + 1, stop)
    {
      hide Used, MapsOk;
      VisitNext(visited, p, idx);
    }
  }

  /** As many pages as hold a word's worth of objects, cut down to a power of two. */
  predicate OddTimes(n: nat, pages: nat, q: nat) { n == pages * (2 * q + 1) }

  /** As many pages as the greatest power of two that divides the objects of a word by those of a
      page, one if there are more on a page. */
  method PagesPerBlock(objsperpage: nat) returns (pages: nat)
    requires objsperpage > 0
    ensures exists k :: 0 <= k < WORD && pages == Pow2(k) <= WORD
    ensures WORD / objsperpage == 0 ==> pages == 1
    ensures WORD / objsperpage > 0 ==> exists q: nat :: OddTimes(WORD / objsperpage, pages, q)
  {
    pages := WORD / objsperpage;
    ghost var k: nat, q: nat := 0, 0;
    if pages == 0 {
      pages := 1;
    } else {
      QuotientSmaller(WORD, objsperpage);
      k, q := IsolateRightmostSet(32, pages);
      assert OddTimes(pages, Pow2(k), q);
      pages := And(pages, Neg(32, pages));
    }
    assert pages == Pow2(k) <= WORD;
  }

  /** create_slalloc: NULL for empty objects and for objects larger than a page. */
  method Create(objsize: nat, pgsize: nat) returns (sl: Slalloc?)
    requires pgsize > 0
    ensures sl == null <==> objsize == 0 || objsize > pgsize
    ensures sl != null ==>
              && fresh(sl) && sl.Valid() && sl.g.Paged() && sl.g.objsize == objsize && sl.g.pgsize == pgsize
              && sl.nonfull == Null && sl.pgarray == [] && forall o :: !sl.IsLive(o)
    ensures sl != null ==>
      && sl.g.objsperpage == pgsize / objsize > 0
      && (if 64 / sl.g.objsperpage == 0 then sl.g.pagesperblock == 1
          else exists q: nat :: OddTimes(64 / sl.g.objsperpage, sl.g.pagesperblock, q))
  {
    if objsize == 0 || objsize > pgsize { return null; }
    var objsperpage := pgsize / objsize;
    OnePerPage(pgsize, objsize);
    var pagesperblock := PagesPerBlock(objsperpage);
    sl := new Slalloc(Layout(pgsize, objsize, objsperpage, pagesperblock));
  }

  /** It happens with the first object of any allocator whose pages are refused: NULL is returned,
      and the list starts with a block that there is not. */
  method RefusedAtFirst(objsize: nat, pgsize: nat, base: nat) returns (sl: Slalloc, obj: nat)
    requires 0 < objsize <= pgsize && base > 0
    ensures fresh(sl) && sl.g.objsize == objsize && sl.g.pgsize == pgsize
    ensures obj == 0 && sl.Dangling() && sl.pgarray == [] && sl.usemaps == []
    ensures forall nf :: !Listed(sl.usemaps, sl.gen, sl.nonfull, nf)
  {
    var made := Create(objsize, pgsize);
    sl := made;
    obj := sl.New(base, NoPages);
    sl.DanglingIsInvalid();
  }

  lemma OnePerPage(pgsize: nat, objsize: nat)
    requires 0 < objsize <= pgsize
    ensures pgsize / objsize > 0
  {
  }

  lemma QuotientSmaller(a: nat, b: nat)
    requires b > 0
    ensures a / b <= a
  {
    DivMod(a, b);
    MulMonotone(1, b, a / b);
  }
}

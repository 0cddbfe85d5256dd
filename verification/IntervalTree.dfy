/** Closed intervals of 32-bit keys, and what a sorted sequence of (interval, data)
    entries means as a finite map.  Everything in this module is about values; the
    pointer tree that stores the entries is in module IntervalTree. */
module IntervalEntries {
  const KEYS: nat := 0x1_0000_0000

  /** uint32_t */
  type Key = k: int | 0 <= k < KEYS

  /** A void pointer; the data pointers handed to the tree may themselves be NULL. */
  type Ptr = nat
  const NULL: Ptr := 0

  datatype Interval = Interval(lbound: Key, ubound: Key) {
    predicate Proper() { lbound <= ubound }

    predicate Holds(k: Key) { lbound <= k <= ubound }

    predicate Below(other: Interval) { ubound < other.lbound }

    ghost predicate Overlaps(other: Interval) {
      exists k: Key :: Holds(k) && other.Holds(k)
    }
  }

  datatype Entry = Entry(ival: Interval, data: Ptr)

  lemma OverlapsIffUnordered(a: Interval, b: Interval)
    requires a.Proper() && b.Proper()
    ensures a.Overlaps(b) <==> !a.Below(b) && !b.Below(a)
  {
    if !a.Below(b) && !b.Below(a) {
      var k: Key := if a.lbound < b.lbound then b.lbound else a.lbound;
      assert a.Holds(k) && b.Holds(k);
    }
  }

  ghost predicate Sorted(es: seq<Entry>) {
    && (forall i :: 0 <= i < |es| ==> es[i].ival.Proper())
    && (forall i, j :: 0 <= i < j < |es| ==> es[i].ival.Below(es[j].ival))
  }

  /** Some stored interval shares a key with iv. */
  ghost predicate Clash(es: seq<Entry>, iv: Interval) {
    exists i :: 0 <= i < |es| && es[i].ival.Overlaps(iv)
  }

  /** iv itself is stored. */
  ghost predicate Stored(es: seq<Entry>, iv: Interval) {
    exists i :: 0 <= i < |es| && es[i].ival == iv
  }

  /** The finite map that a sequence of entries denotes. */
  ghost function Denote(es: seq<Entry>): map<Interval, Ptr> {
    if es == [] then map[] else Denote(es[1..])[es[0].ival := es[0].data]
  }

  ghost function Add(es: seq<Entry>, e: Entry): seq<Entry> {
    if es == [] || e.ival.Below(es[0].ival) then [e] + es
    else [es[0]] + Add(es[1..], e)
  }

  ghost function Put(es: seq<Entry>, e: Entry): seq<Entry> {
    if es == [] then []
    else [if es[0].ival == e.ival then e else es[0]] + Put(es[1..], e)
  }

  ghost function Drop(es: seq<Entry>, iv: Interval): seq<Entry> {
    if es == [] then []
    else (if es[0].ival == iv then [] else [es[0]]) + Drop(es[1..], iv)
  }

  /** The data pointers whose interval is iv, in order. */
  ghost function DataAt(es: seq<Entry>, iv: Interval): seq<Ptr> {
    if es == [] then []
    else (if es[0].ival == iv then [es[0].data] else []) + DataAt(es[1..], iv)
  }

  ghost function DataOf(es: seq<Entry>): seq<Ptr> {
    if es == [] then [] else [es[0].data] + DataOf(es[1..])
  }

  lemma {:induction false} DataConcat(a: seq<Entry>, b: seq<Entry>)
    ensures DataOf(a + b) == DataOf(a) + DataOf(b)
  {
    if a == [] {
      assert a + b == b;
    } else {
      assert (a + b)[1..] == a[1..] + b;
      DataConcat(a[1..], b);
    }
  }

  /** The data of the first interval holding k, NULL when there is none. */
  ghost function At(es: seq<Entry>, k: Key): Ptr {
    if es == [] then NULL
    else if es[0].ival.Holds(k) then es[0].data
    else At(es[1..], k)
  }

  // ----- what the sequence operations mean for the map

  lemma DenoteKeys(es: seq<Entry>, iv: Interval)
    ensures iv in Denote(es) <==> Stored(es, iv)
  {
    if es != [] {
      DenoteKeys(es[1..], iv);
      if Stored(es[1..], iv) {
        var i :| 0 <= i < |es[1..]| && es[1..][i].ival == iv;
        assert es[i + 1].ival == iv;
      }
      if Stored(es, iv) && es[0].ival != iv {
        var i :| 0 <= i < |es| && es[i].ival == iv;
        assert es[1..][i - 1].ival == iv;
      }
    }
  }

  /** Insertion of an interval that overlaps nothing keeps the order and extends the map. */
  lemma AddExtends(es: seq<Entry>, e: Entry)
    requires Sorted(es) && e.ival.Proper() && !Clash(es, e.ival)
    ensures Sorted(Add(es, e))
    ensures Denote(Add(es, e)) == Denote(es)[e.ival := e.data]
    ensures multiset(Add(es, e)) == multiset(es) + multiset{e}
  {
    AddPlace(es, e);
    AddSorted(es, e);
    OverlapsIffUnordered(e.ival, e.ival);
    AddDenotes(es, e);
  }

  lemma {:induction false} AddPlace(es: seq<Entry>, e: Entry)
    ensures multiset(Add(es, e)) == multiset(es) + multiset{e}
  {
    if es != [] && !e.ival.Below(es[0].ival) {
      AddPlace(es[1..], e);
      assert es == [es[0]] + es[1..];
    }
  }

  lemma {:induction false} AddSorted(es: seq<Entry>, e: Entry)
    requires Sorted(es) && e.ival.Proper() && !Clash(es, e.ival)
    ensures Sorted(Add(es, e))
  {
    hide Sorted;
    if es == [] || e.ival.Below(es[0].ival) {
      SortedBefore(e, es);
    } else {
      SortedParts(es);
      OverlapsIffUnordered(es[0].ival, e.ival);
      ClashTail(es, e.ival);
      AddSorted(es[1..], e);
      AddPlace(es[1..], e);
      var a := Add(es[1..], e);
      forall i | 0 <= i < |a| ensures es[0].ival.Below(a[i].ival) {
        assert a[i] in multiset(a);
      }
      assert ([es[0]] + a)[1..] == a;
      SortedParts([es[0]] + a);
    }
  }

  lemma {:induction false} AddDenotes(es: seq<Entry>, e: Entry)
    requires !Stored(es, e.ival)
    ensures Denote(Add(es, e)) == Denote(es)[e.ival := e.data]
  {
    if es == [] || e.ival.Below(es[0].ival) {
      assert Add(es, e)[1..] == es;
    } else {
      assert es[0].ival != e.ival;
      assert forall i :: 0 <= i < |es[1..]| ==> es[1..][i] == es[i + 1];
      AddDenotes(es[1..], e);
      assert Add(es, e)[1..] == Add(es[1..], e);
    }
  }

  lemma ClashTail(es: seq<Entry>, iv: Interval)
    requires es != [] && !Clash(es, iv)
    ensures !Clash(es[1..], iv)
  {
    assert forall i :: 0 <= i < |es[1..]| ==> es[1..][i] == es[i + 1];
  }

  lemma {:induction false} PutPlaces(es: seq<Entry>, e: Entry)
    ensures |Put(es, e)| == |es|
    ensures forall i :: 0 <= i < |es| ==> Put(es, e)[i] == if es[i].ival == e.ival then e else es[i]
  {
    if es != [] {
      PutPlaces(es[1..], e);
      var p := Put(es, e);
      assert p[1..] == Put(es[1..], e);
      forall i | 0 <= i < |es| ensures p[i] == if es[i].ival == e.ival then e else es[i] {
        if i > 0 { assert p[i] == p[1..][i - 1]; }
      }
    }
  }

  lemma {:induction false} PutDenotes(es: seq<Entry>, e: Entry)
    requires Sorted(es)
    ensures Denote(Put(es, e)) == if Stored(es, e.ival) then Denote(es)[e.ival := e.data] else Denote(es)
  {
    hide Sorted;
    if es != [] {
      SortedParts(es);
      PutDenotes(es[1..], e);
      assert Put(es, e)[1..] == Put(es[1..], e);
      DenoteKeys(es, e.ival);
      DenoteKeys(es[1..], e.ival);
    }
  }

  lemma PutUpdates(es: seq<Entry>, e: Entry)
    requires Sorted(es)
    ensures |Put(es, e)| == |es|
    ensures forall i :: 0 <= i < |es| ==> Put(es, e)[i] == if es[i].ival == e.ival then e else es[i]
    ensures Sorted(Put(es, e))
    ensures Denote(Put(es, e)) == if Stored(es, e.ival) then Denote(es)[e.ival := e.data] else Denote(es)
  {
    hide Put, Denote;
    PutPlaces(es, e);
    PutDenotes(es, e);
  }

  /** Removal takes exactly the entry of an equal interval, and its data comes out. */
  lemma DropRemoves(es: seq<Entry>, iv: Interval)
    requires Sorted(es)
    ensures Sorted(Drop(es, iv))
    ensures Denote(Drop(es, iv)) == Denote(es) - {iv}
    ensures DataAt(es, iv) == (if iv in Denote(es) then [Denote(es)[iv]] else [])
    ensures multiset(DataOf(es)) == multiset(DataOf(Drop(es, iv))) + multiset(DataAt(es, iv))
  {
    DropSorted(es, iv);
    DropDenotes(es, iv);
    DropConserves(es, iv);
  }

  lemma {:induction false} DropSorted(es: seq<Entry>, iv: Interval)
    requires Sorted(es)
    ensures Sorted(Drop(es, iv))
    ensures forall i :: 0 <= i < |Drop(es, iv)| ==> Drop(es, iv)[i] in es
  {
    if es != [] { DropSorted(es[1..], iv); }
  }

  /** Sorted, element by element. */
  lemma SortedParts(es: seq<Entry>)
    requires es != []
    ensures Sorted(es) <==>
      && es[0].ival.Proper() && Sorted(es[1..])
      && forall i :: 0 <= i < |es[1..]| ==> es[0].ival.Below(es[1..][i].ival)
  {
    if Sorted(es[1..]) && forall i :: 0 <= i < |es[1..]| ==> es[0].ival.Below(es[1..][i].ival) {
      forall i, j | 0 <= i < j < |es| ensures es[i].ival.Below(es[j].ival) {
        assert es[j] == es[1..][j - 1] && (i > 0 ==> es[i] == es[1..][i - 1]);
      }
      forall i | 0 < i < |es| ensures es[i].ival.Proper() { assert es[i] == es[1..][i - 1]; }
    }
  }

  lemma SortedBefore(e: Entry, es: seq<Entry>)
    requires Sorted(es) && e.ival.Proper() && (es == [] || e.ival.Below(es[0].ival))
    ensures Sorted([e] + es)
  {
  }

  lemma BelowIsApart(rest: seq<Entry>, iv: Interval)
    requires iv.Proper() && forall i :: 0 <= i < |rest| ==> iv.Below(rest[i].ival)
    ensures !Stored(rest, iv)
  {
  }

  lemma {:induction false} DropDenotes(es: seq<Entry>, iv: Interval)
    requires Sorted(es)
    ensures Denote(Drop(es, iv)) == Denote(es) - {iv}
    ensures DataAt(es, iv) == (if iv in Denote(es) then [Denote(es)[iv]] else [])
  {
    hide Sorted;
    if es != [] {
      var h, rest := es[0], es[1..];
      SortedParts(es);
      DropDenotes(rest, iv);
      DenoteKeys(rest, iv);
      if h.ival == iv {
        BelowIsApart(rest, iv);
        assert Drop(es, iv) == Drop(rest, iv);
        assert Denote(es) - {iv} == Denote(rest);
      } else {
        DenoteCons(h, Drop(rest, iv));
        assert Denote(es) - {iv} == (Denote(rest) - {iv})[h.ival := h.data];
      }
    }
  }

  lemma DenoteCons(h: Entry, rest: seq<Entry>)
    ensures Denote([h] + rest) == Denote(rest)[h.ival := h.data]
  {
    assert ([h] + rest)[1..] == rest;
  }

  lemma {:induction false} DropConserves(es: seq<Entry>, iv: Interval)
    ensures multiset(DataOf(es)) == multiset(DataOf(Drop(es, iv))) + multiset(DataAt(es, iv))
  {
    if es != [] {
      DropConserves(es[1..], iv);
      var d := Drop(es[1..], iv);
      if es[0].ival == iv {
        assert Drop(es, iv) == d;
      } else {
        assert Drop(es, iv) == [es[0]] + d;
        assert ([es[0]] + d)[1..] == d;
        assert DataAt(es, iv) == DataAt(es[1..], iv);
      }
    }
  }

  /** Lookup finds the data of the one stored interval that holds the key. */
  lemma {:induction false} AtIsUnique(es: seq<Entry>, k: Key)
    requires Sorted(es)
    ensures forall iv :: iv in Denote(es) && iv.Holds(k) ==> At(es, k) == Denote(es)[iv]
    ensures (forall iv :: iv in Denote(es) ==> !iv.Holds(k)) ==> At(es, k) == NULL
    ensures forall iv, iv' :: iv in Denote(es) && iv' in Denote(es) && iv.Holds(k) && iv'.Holds(k) ==> iv == iv'
  {
    if es != [] {
      AtIsUnique(es[1..], k);
      assert es[0].ival in Denote(es);
      forall iv | iv in Denote(es[1..]) ensures es[0].ival.Below(iv) {
        DenoteKeys(es[1..], iv);
      }
    }
  }

  /** Pairwise disjoint intervals of 32-bit keys number at most 2^32. */
  lemma {:induction false} SortedIsSmall(es: seq<Entry>)
    requires Sorted(es)
    ensures |es| <= KEYS
    ensures es != [] ==> |es| <= es[|es| - 1].ival.ubound + 1
  {
    if es != [] {
      var front := es[..|es| - 1];
      SortedIsSmall(front);
      if front != [] {
        assert front[|front| - 1].ival.Below(es[|es| - 1].ival);
      }
    }
  }

  // ----- splitting at a node: the lemmas behind every descent of the tree

  ghost predicate Around(a: seq<Entry>, x: Entry, b: seq<Entry>) {
    Sorted(a + [x] + b)
  }

  lemma AroundParts(a: seq<Entry>, x: Entry, b: seq<Entry>)
    requires Around(a, x, b)
    ensures Sorted(a) && Sorted(b) && x.ival.Proper()
    ensures forall i :: 0 <= i < |a| ==> a[i].ival.Below(x.ival)
    ensures forall i :: 0 <= i < |b| ==> x.ival.Below(b[i].ival)
  {
    var es := a + [x] + b;
    assert es[|a|] == x;
    forall i | 0 <= i < |a| ensures a[i].ival.Below(x.ival) && a[i].ival.Proper() {
      assert es[i] == a[i];
    }
    forall i | 0 <= i < |b| ensures x.ival.Below(b[i].ival) && b[i].ival.Proper() {
      assert es[|a| + 1 + i] == b[i];
    }
    forall i, j | 0 <= i < j < |a| ensures a[i].ival.Below(a[j].ival) {
      assert es[i] == a[i] && es[j] == a[j];
    }
    forall i, j | 0 <= i < j < |b| ensures b[i].ival.Below(b[j].ival) {
      assert es[|a| + 1 + i] == b[i] && es[|a| + 1 + j] == b[j];
    }
  }

  /** Comparing with the node's interval tells which side can clash. */
  lemma ClashSplit(a: seq<Entry>, x: Entry, b: seq<Entry>, iv: Interval)
    requires Around(a, x, b) && iv.Proper()
    ensures iv.Below(x.ival) ==> (Clash(a + [x] + b, iv) <==> Clash(a, iv)) && (Stored(a + [x] + b, iv) <==> Stored(a, iv))
    ensures x.ival.Below(iv) ==> (Clash(a + [x] + b, iv) <==> Clash(b, iv)) && (Stored(a + [x] + b, iv) <==> Stored(b, iv))
    ensures !iv.Below(x.ival) && !x.ival.Below(iv) ==> Clash(a + [x] + b, iv) && (Stored(a + [x] + b, iv) <==> x.ival == iv)
  {
    AroundParts(a, x, b);
    var es := a + [x] + b;
    assert es[|a|] == x;
    OverlapsIffUnordered(x.ival, iv);
    forall i | 0 <= i < |es| ensures es[i].ival.Overlaps(iv) <==> !es[i].ival.Below(iv) && !iv.Below(es[i].ival) {
      OverlapsIffUnordered(es[i].ival, iv);
    }
    forall i | 0 <= i < |a| ensures es[i] == a[i] {}
    forall i | 0 <= i < |b| ensures es[|a| + 1 + i] == b[i] {}
    forall i | |a| < i < |es| ensures es[i] == b[i - |a| - 1] {}
  }

  lemma AddCons(h: Entry, rest: seq<Entry>, e: Entry)
    ensures Add([h] + rest, e) == if e.ival.Below(h.ival) then [e] + ([h] + rest) else [h] + Add(rest, e)
  {
    assert ([h] + rest)[1..] == rest;
  }

  lemma {:induction false} AddLeft(a: seq<Entry>, b: seq<Entry>, e: Entry)
    requires b != [] && e.ival.Below(b[0].ival)
    ensures Add(a + b, e) == Add(a, e) + b
  {
    if a == [] {
      assert a + b == b;
    } else {
      hide Add;
      var x, rest := [a[0]], a[1..];
      assert a == x + rest;
      Assoc(x, rest, b);
      AddCons(a[0], rest + b, e);
      AddCons(a[0], rest, e);
      AddLeft(rest, b, e);
      Assoc([e], a, b);
      Assoc(x, Add(rest, e), b);
    }
  }

  lemma Assoc(a: seq<Entry>, b: seq<Entry>, c: seq<Entry>)
    ensures (a + b) + c == a + (b + c)
  {
  }

  lemma {:induction false} AddRight(a: seq<Entry>, b: seq<Entry>, e: Entry)
    requires forall i :: 0 <= i < |a| ==> !e.ival.Below(a[i].ival)
    ensures Add(a + b, e) == a + Add(b, e)
  {
    if a == [] {
      assert a + b == b;
    } else {
      hide Add;
      var x, rest := [a[0]], a[1..];
      assert a == x + rest;
      Assoc(x, rest, b);
      AddCons(a[0], rest + b, e);
      AddRight(rest, b, e);
      Assoc(x, rest, Add(b, e));
    }
  }

  lemma AddSplit(a: seq<Entry>, x: Entry, b: seq<Entry>, e: Entry)
    requires Around(a, x, b) && e.ival.Proper()
    ensures e.ival.Below(x.ival) ==> Add(a + [x] + b, e) == Add(a, e) + [x] + b
    ensures x.ival.Below(e.ival) ==> Add(a + [x] + b, e) == a + [x] + Add(b, e)
  {
    AroundParts(a, x, b);
    if e.ival.Below(x.ival) {
      assert a + [x] + b == a + ([x] + b);
      AddLeft(a, [x] + b, e);
    } else if x.ival.Below(e.ival) {
      AddRight(a + [x], b, e);
    }
  }

  lemma AroundTail(a: seq<Entry>, x: Entry, b: seq<Entry>)
    requires a != [] && Around(a, x, b)
    ensures Around(a[1..], x, b)
  {
    assert a[1..] + [x] + b == (a + [x] + b)[1..];
  }

  lemma {:induction false} PutConcat(a: seq<Entry>, b: seq<Entry>, e: Entry)
    ensures Put(a + b, e) == Put(a, e) + Put(b, e)
  {
    if a == [] {
      assert a + b == b;
    } else {
      assert (a + b)[1..] == a[1..] + b;
      PutConcat(a[1..], b, e);
    }
  }

  lemma {:induction false} DropConcat(a: seq<Entry>, b: seq<Entry>, iv: Interval)
    ensures Drop(a + b, iv) == Drop(a, iv) + Drop(b, iv)
    ensures DataAt(a + b, iv) == DataAt(a, iv) + DataAt(b, iv)
  {
    if a == [] {
      assert a + b == b;
    } else {
      assert (a + b)[1..] == a[1..] + b;
      DropConcat(a[1..], b, iv);
    }
  }

  lemma {:induction false} UntouchedWithout(es: seq<Entry>, e: Entry)
    requires !Stored(es, e.ival)
    ensures Put(es, e) == es && Drop(es, e.ival) == es && DataAt(es, e.ival) == []
  {
    if es != [] {
      assert es[0].ival != e.ival;
      assert forall i :: 0 <= i < |es[1..]| ==> es[1..][i] == es[i + 1];
      UntouchedWithout(es[1..], e);
    }
  }

  /** The three edits of an equal interval act on one side of the node only. */
  lemma EditSplit(a: seq<Entry>, x: Entry, b: seq<Entry>, e: Entry)
    requires Around(a, x, b) && e.ival.Proper()
    ensures e.ival.Below(x.ival) ==>
              && Put(a + [x] + b, e) == Put(a, e) + [x] + b
              && Drop(a + [x] + b, e.ival) == Drop(a, e.ival) + [x] + b
              && DataAt(a + [x] + b, e.ival) == DataAt(a, e.ival)
    ensures x.ival.Below(e.ival) ==>
              && Put(a + [x] + b, e) == a + [x] + Put(b, e)
              && Drop(a + [x] + b, e.ival) == a + [x] + Drop(b, e.ival)
              && DataAt(a + [x] + b, e.ival) == DataAt(b, e.ival)
    ensures x.ival == e.ival ==>
              && Put(a + [x] + b, e) == a + [e] + b
              && Drop(a + [x] + b, e.ival) == a + b
              && DataAt(a + [x] + b, e.ival) == [x.data]
  {
    PutConcat(a + [x], b, e);
    DropConcat(a + [x], b, e.ival);
    PutConcat(a, [x], e);
    DropConcat(a, [x], e.ival);
    EditOne(x, e);
    assert a + [] == a;
    SideUntouched(a, x, b, e);
  }

  lemma EditOne(x: Entry, e: Entry)
    ensures Put([x], e) == [if x.ival == e.ival then e else x]
    ensures Drop([x], e.ival) == if x.ival == e.ival then [] else [x]
    ensures DataAt([x], e.ival) == if x.ival == e.ival then [x.data] else []
  {
    assert [x][1..] == [];
  }

  lemma SideUntouched(a: seq<Entry>, x: Entry, b: seq<Entry>, e: Entry)
    requires Around(a, x, b) && e.ival.Proper()
    ensures e.ival.Below(x.ival) || x.ival == e.ival ==>
              Put(b, e) == b && Drop(b, e.ival) == b && DataAt(b, e.ival) == []
    ensures x.ival.Below(e.ival) || x.ival == e.ival ==>
              Put(a, e) == a && Drop(a, e.ival) == a && DataAt(a, e.ival) == []
  {
    AroundParts(a, x, b);
    if e.ival.Below(x.ival) || x.ival == e.ival { UntouchedWithout(b, e); }
    if x.ival.Below(e.ival) || x.ival == e.ival { UntouchedWithout(a, e); }
  }

  lemma {:induction false} AtSplit(a: seq<Entry>, x: Entry, b: seq<Entry>, k: Key)
    requires Around(a, x, b)
    ensures x.ival.Holds(k) ==> At(a + [x] + b, k) == x.data
    ensures k < x.ival.lbound ==> At(a + [x] + b, k) == At(a, k)
    ensures x.ival.ubound < k ==> At(a + [x] + b, k) == At(b, k)
  {
    AroundParts(a, x, b);
    if a == [] {
      assert a + [x] + b == [x] + b;
      assert (a + [x] + b)[1..] == b;
      if k < x.ival.lbound { AtNone(b, k); }
    } else {
      assert (a + [x] + b)[1..] == a[1..] + [x] + b;
      AroundTail(a, x, b);
      AtSplit(a[1..], x, b, k);
    }
  }

  lemma {:induction false} AtNone(es: seq<Entry>, k: Key)
    requires forall i :: 0 <= i < |es| ==> k < es[i].ival.lbound
    ensures At(es, k) == NULL
  {
    if es != [] { AtNone(es[1..], k); }
  }
}

/** Search trees as values: what each operation of intervaltree.c does to the tree it is
    given, and what that means for the finite map the tree stands for. */
module IntervalTrees {
  import opened IntervalEntries
  import opened Powers

  datatype Tree = Nil | Bin(left: Tree, entry: Entry, right: Tree)

  datatype Outcome = Outcome(tree: Tree, ret: int, released: seq<Ptr>)

  function InOrder(t: Tree): seq<Entry> {
    match t
    case Nil => []
    case Bin(l, e, r) => InOrder(l) + [e] + InOrder(r)
  }

  ghost predicate Ordered(t: Tree) { Sorted(InOrder(t)) }

  /** The finite map from intervals to data pointers that the tree stands for. */
  ghost function Contents(t: Tree): map<Interval, Ptr> { Denote(InOrder(t)) }

  function Inserted(t: Tree, e: Entry): Outcome {
    match t
    case Nil => Outcome(Bin(Nil, e, Nil), 0, [])
    case Bin(l, x, r) =>
      if e.ival.Below(x.ival) then
        var o := Inserted(l, e);
        o.(tree := Bin(o.tree, x, r))
      else if x.ival.Below(e.ival) then
        var o := Inserted(r, e);
        o.(tree := Bin(l, x, o.tree))
      else Outcome(t, -1, [])
  }

  function Replaced(t: Tree, e: Entry, hasFree: bool): Outcome {
    match t
    case Nil => Outcome(Bin(Nil, e, Nil), 0, [])
    case Bin(l, x, r) =>
      if e.ival.Below(x.ival) then
        var o := Replaced(l, e, hasFree);
        o.(tree := Bin(o.tree, x, r))
      else if x.ival.Below(e.ival) then
        var o := Replaced(r, e, hasFree);
        o.(tree := Bin(l, x, o.tree))
      else if x.ival == e.ival then
        Outcome(Bin(l, Entry(x.ival, e.data), r), 0, if hasFree then [x.data] else [])
      else Outcome(t, -1, [])
  }

  /** Hang l below the leftmost node of r. */
  function Attached(r: Tree, l: Tree): Tree
    requires r.Bin?
  {
    if r.left.Nil? then Bin(l, r.entry, r.right)
    else Bin(Attached(r.left, l), r.entry, r.right)
  }

  function Spliced(t: Tree): Tree
    requires t.Bin?
  {
    if t.left.Nil? then t.right
    else if t.right.Nil? then t.left
    else Attached(t.right, t.left)
  }

  /** Removal; the data of the removed node is what remove hands to its callback and
      what extract hands to its caller. */
  function Removed(t: Tree, iv: Interval): Outcome {
    match t
    case Nil => Outcome(t, -1, [])
    case Bin(l, x, r) =>
      if iv.Below(x.ival) then
        var o := Removed(l, iv);
        o.(tree := Bin(o.tree, x, r))
      else if x.ival.Below(iv) then
        var o := Removed(r, iv);
        o.(tree := Bin(l, x, o.tree))
      else if x.ival == iv then Outcome(Spliced(t), 0, [x.data])
      else Outcome(t, -1, [])
  }

  function Found(t: Tree, k: Key): Ptr {
    match t
    case Nil => NULL
    case Bin(l, x, r) =>
      if x.ival.Holds(k) then x.data
      else if k < x.ival.lbound then Found(l, k)
      else Found(r, k)
  }

  /** The data pointers in the order in which freeing the whole tree hands them over. */
  function PreOrderData(t: Tree): seq<Ptr> {
    match t
    case Nil => []
    case Bin(l, x, r) => [x.data] + PreOrderData(l) + PreOrderData(r)
  }

  /** An unsigned count of the nodes: it wraps at 2^32. */
  function Count(t: Tree): nat {
    match t
    case Nil => 0
    case Bin(l, _, r) => (Count(l) + Count(r) + 1) % KEYS
  }

  function Depth(t: Tree): nat {
    match t
    case Nil => 0
    case Bin(l, _, r) => (if Depth(l) > Depth(r) then Depth(l) else Depth(r)) + 1
  }

  /** The tree bbstize_vector builds from a vector: root in the middle. */
  function Balanced(es: seq<Entry>): Tree
    decreases |es|
  {
    if es == [] then Nil
    else
      var m := |es| / 2;
      Bin(Balanced(es[..m]), es[m], Balanced(es[m + 1..]))
  }

  /** The list linearize_interval_tree makes, seen as a tree: nothing on the left. */
  function Spine(es: seq<Entry>): Tree {
    if es == [] then Nil else Bin(Nil, es[0], Spine(es[1..]))
  }

  /** What balance_interval_tree leaves.  The population it counts is 32 bits wide, and Malloc
      refuses a size of 0, as it may refuse any other (memory says whether it grants the vector):
      then the list stays. */
  function Rebalanced(t: Tree, memory: bool): Tree
    requires Count(t) <= |InOrder(t)|
  {
    if Count(t) == 0 || !memory then Spine(InOrder(t)) else Balanced(InOrder(t)[..Count(t)])
  }

  lemma {:induction false} CountWraps(t: Tree)
    ensures Count(t) == |InOrder(t)| % KEYS <= |InOrder(t)|
  {
    if t.Bin? {
      CountWraps(t.left);
      CountWraps(t.right);
      ModSum(|InOrder(t.left)|, |InOrder(t.right)|);
    }
  }

  lemma ModSum(a: nat, b: nat)
    ensures (a % KEYS + b % KEYS + 1) % KEYS == (a + b + 1) % KEYS
  {
    var q := a / KEYS + b / KEYS;
    assert a + b + 1 == q * KEYS + (a % KEYS + b % KEYS + 1);
  }

  // ----- one step down: the entry sequence around a node

  lemma Sides(t: Tree)
    requires t.Bin? && Ordered(t)
    ensures Around(InOrder(t.left), t.entry, InOrder(t.right))
    ensures Ordered(t.left) && Ordered(t.right)
  {
    AroundParts(InOrder(t.left), t.entry, InOrder(t.right));
  }

  lemma {:induction false} InsertedInOrder(t: Tree, e: Entry)
    requires Ordered(t) && e.ival.Proper()
    ensures Inserted(t, e).ret == if Clash(InOrder(t), e.ival) then -1 else 0
    ensures InOrder(Inserted(t, e).tree) ==
            if Clash(InOrder(t), e.ival) then InOrder(t) else Add(InOrder(t), e)
  {
    if t.Bin? {
      var a, x, b := InOrder(t.left), t.entry, InOrder(t.right);
      Sides(t);
      ClashSplit(a, x, b, e.ival);
      if e.ival.Below(x.ival) {
        InsertedInOrder(t.left, e);
        AddSplit(a, x, b, e);
      } else if x.ival.Below(e.ival) {
        InsertedInOrder(t.right, e);
        AddSplit(a, x, b, e);
      }
    }
  }

  /** insert fails exactly when the interval overlaps a stored one; otherwise it adds
      exactly one pair to the map. */
  lemma InsertRefinesMap(t: Tree, e: Entry)
    requires Ordered(t) && e.ival.Proper()
    ensures var o := Inserted(t, e);
            && Ordered(o.tree)
            && o.ret == (if exists iv :: iv in Contents(t) && iv.Overlaps(e.ival) then -1 else 0)
            && Contents(o.tree) == (if o.ret == 0 then Contents(t)[e.ival := e.data] else Contents(t))
            && multiset(InOrder(o.tree)) == multiset(InOrder(t)) + (if o.ret == 0 then multiset{e} else multiset{})
  {
    hide Inserted, InOrder, Clash, Add, Sorted;
    InsertedInOrder(t, e);
    ClashInMap(InOrder(t), e.ival);
    if !Clash(InOrder(t), e.ival) {
      AddExtends(InOrder(t), e);
    }
  }

  lemma ClashInMap(es: seq<Entry>, iv: Interval)
    ensures Clash(es, iv) <==> exists iv' :: iv' in Denote(es) && iv'.Overlaps(iv)
  {
    if Clash(es, iv) {
      var i :| 0 <= i < |es| && es[i].ival.Overlaps(iv);
      DenoteKeys(es, es[i].ival);
      assert es[i].ival in Denote(es);
    }
    if iv' :| iv' in Denote(es) && iv'.Overlaps(iv) {
      DenoteKeys(es, iv');
    }
  }

  lemma {:induction false} ReplacedInOrder(t: Tree, e: Entry, hasFree: bool)
    requires Ordered(t) && e.ival.Proper()
    ensures var o := Replaced(t, e, hasFree);
            && o.ret == (if Clash(InOrder(t), e.ival) && !Stored(InOrder(t), e.ival) then -1 else 0)
            && InOrder(o.tree) == (if !Clash(InOrder(t), e.ival) then Add(InOrder(t), e) else Put(InOrder(t), e))
            && o.released == (if hasFree then DataAt(InOrder(t), e.ival) else [])
  {
    if t.Bin? {
      var a, x, b := InOrder(t.left), t.entry, InOrder(t.right);
      Sides(t);
      ClashSplit(a, x, b, e.ival);
      EditSplit(a, x, b, e);
      if e.ival.Below(x.ival) {
        ReplacedInOrder(t.left, e, hasFree);
        AddSplit(a, x, b, e);
      } else if x.ival.Below(e.ival) {
        ReplacedInOrder(t.right, e, hasFree);
        AddSplit(a, x, b, e);
      } else if x.ival != e.ival {
        UntouchedWithout(InOrder(t), e);
      }
    }
  }

  /** replace updates an equal interval, adds a disjoint one, and fails on any other
      overlap; the replaced data goes to the callback exactly once. */
  lemma ReplaceRefinesMap(t: Tree, e: Entry, hasFree: bool)
    requires Ordered(t) && e.ival.Proper()
    ensures var o := Replaced(t, e, hasFree);
            && Ordered(o.tree)
            && o.ret == (if e.ival !in Contents(t) && (exists iv :: iv in Contents(t) && iv.Overlaps(e.ival)) then -1 else 0)
            && Contents(o.tree) == (if o.ret == 0 then Contents(t)[e.ival := e.data] else Contents(t))
            && o.released == (if hasFree && e.ival in Contents(t) then [Contents(t)[e.ival]] else [])
  {
    var es := InOrder(t);
    ReplacedInOrder(t, e, hasFree);
    ClashInMap(es, e.ival);
    DenoteKeys(es, e.ival);
    DropDenotes(es, e.ival);
    OverlapsIffUnordered(e.ival, e.ival);
    if Clash(es, e.ival) {
      PutUpdates(es, e);
    } else {
      AddExtends(es, e);
    }
  }

  lemma {:induction false} SplicedInOrder(t: Tree)
    requires t.Bin?
    ensures InOrder(Spliced(t)) == InOrder(t.left) + InOrder(t.right)
  {
    if t.left.Bin? && t.right.Bin? {
      AttachedInOrder(t.right, t.left);
    }
  }

  lemma {:induction false} AttachedInOrder(r: Tree, l: Tree)
    requires r.Bin?
    ensures InOrder(Attached(r, l)) == InOrder(l) + InOrder(r)
  {
    if r.left.Bin? {
      AttachedInOrder(r.left, l);
    }
  }

  lemma {:induction false} RemovedInOrder(t: Tree, iv: Interval)
    requires Ordered(t) && iv.Proper()
    ensures var o := Removed(t, iv);
            && o.ret == (if Stored(InOrder(t), iv) then 0 else -1)
            && InOrder(o.tree) == Drop(InOrder(t), iv)
            && o.released == DataAt(InOrder(t), iv)
  {
    var e := Entry(iv, NULL);
    if t.Bin? {
      var a, x, b := InOrder(t.left), t.entry, InOrder(t.right);
      Sides(t);
      ClashSplit(a, x, b, iv);
      EditSplit(a, x, b, e);
      if iv.Below(x.ival) {
        RemovedInOrder(t.left, iv);
      } else if x.ival.Below(iv) {
        RemovedInOrder(t.right, iv);
      } else if x.ival == iv {
        SplicedInOrder(t);
      } else {
        UntouchedWithout(InOrder(t), e);
      }
    }
  }

  /** remove and extract take out an equal interval and nothing else; its data is
      released exactly once, and no data pointer is lost or duplicated. */
  lemma RemoveRefinesMap(t: Tree, iv: Interval)
    requires Ordered(t) && iv.Proper()
    ensures var o := Removed(t, iv);
            && Ordered(o.tree)
            && o.ret == (if iv in Contents(t) then 0 else -1)
            && Contents(o.tree) == Contents(t) - {iv}
            && o.released == (if iv in Contents(t) then [Contents(t)[iv]] else [])
            && multiset(DataOf(InOrder(t))) == multiset(DataOf(InOrder(o.tree))) + multiset(o.released)
  {
    RemovedInOrder(t, iv);
    DenoteKeys(InOrder(t), iv);
    DropRemoves(InOrder(t), iv);
  }

  lemma {:induction false} FoundInOrder(t: Tree, k: Key)
    requires Ordered(t)
    ensures Found(t, k) == At(InOrder(t), k)
  {
    if t.Bin? {
      Sides(t);
      AtSplit(InOrder(t.left), t.entry, InOrder(t.right), k);
      FoundInOrder(t.left, k);
      FoundInOrder(t.right, k);
    }
  }

  /** lookup returns the data of the one stored interval holding the key, or NULL. */
  lemma LookupRefinesMap(t: Tree, k: Key)
    requires Ordered(t)
    ensures forall iv :: iv in Contents(t) && iv.Holds(k) ==> Found(t, k) == Contents(t)[iv]
    ensures (forall iv :: iv in Contents(t) ==> !iv.Holds(k)) ==> Found(t, k) == NULL
    ensures forall iv, iv' :: iv in Contents(t) && iv' in Contents(t) && iv.Holds(k) && iv'.Holds(k) ==> iv == iv'
  {
    FoundInOrder(t, k);
    AtIsUnique(InOrder(t), k);
  }

  /** Freeing the tree hands over every data pointer exactly once. */
  lemma {:induction false} FreeConserves(t: Tree)
    ensures multiset(PreOrderData(t)) == multiset(DataOf(InOrder(t)))
  {
    if t.Bin? {
      FreeConserves(t.left);
      FreeConserves(t.right);
      DataConcat(InOrder(t.left) + [t.entry], InOrder(t.right));
      DataConcat(InOrder(t.left), [t.entry]);
    }
  }

  // ----- balancing

  lemma {:induction false} BalancedInOrder(es: seq<Entry>)
    ensures InOrder(Balanced(es)) == es
    decreases |es|
  {
    if es != [] {
      var m := |es| / 2;
      BalancedInOrder(es[..m]);
      BalancedInOrder(es[m + 1..]);
      assert es[..m] + [es[m]] + es[m + 1..] == es;
    }
  }

  ghost function DepthOf(n: nat): nat { if n == 0 then 0 else DepthOf(n / 2) + 1 }

  lemma {:induction false} DepthOfMonotone(m: nat, n: nat)
    requires m <= n
    ensures DepthOf(m) <= DepthOf(n)
  {
    if m > 0 { DepthOfMonotone(m / 2, n / 2); }
  }

  /** The left half of a middle split is never the smaller one, so it sets the depth. */
  lemma {:induction false} DepthOfBalanced(es: seq<Entry>)
    ensures Depth(Balanced(es)) == DepthOf(|es|)
    decreases |es|
  {
    if es != [] {
      var m := |es| / 2;
      DepthOfBalanced(es[..m]);
      DepthOfBalanced(es[m + 1..]);
      DepthOfMonotone(|es[m + 1..]|, m);
      assert Balanced(es) == Bin(Balanced(es[..m]), es[m], Balanced(es[m + 1..]));
    }
  }

  /** 2^(d-1) <= n < 2^d for the depth d of a balanced tree of n > 0 nodes. */
  lemma BalancedDepth(es: seq<Entry>)
    ensures |es| < Pow2(Depth(Balanced(es)))
    ensures es != [] ==> Pow2(Depth(Balanced(es)) - 1) <= |es|
  {
    DepthOfBalanced(es);
    DepthOfBounds(|es|);
  }

  lemma {:induction false} DepthOfBounds(n: nat)
    ensures n < Pow2(DepthOf(n))
    ensures n > 0 ==> Pow2(DepthOf(n) - 1) <= n
  {
    if n > 0 { DepthOfBounds(n / 2); }
  }

  lemma {:induction false} SpineInOrder(es: seq<Entry>)
    ensures InOrder(Spine(es)) == es && Depth(Spine(es)) == |es|
  {
    if es != [] {
      SpineInOrder(es[1..]);
      assert es == [] + [es[0]] + es[1..];
    }
  }

  lemma {:induction false} Pow2Exceeds(m: nat)
    ensures Pow2(m) >= m + 1
  {
    if m > 0 { Pow2Exceeds(m - 1); }
  }

  /** 2^(d-1) <= n < 2^d. */
  ghost predicate LogDepth(t: Tree, n: nat) {
    Depth(t) > 0 && Pow2(Depth(t) - 1) <= n < Pow2(Depth(t))
  }

  lemma SpineIsDeep(es: seq<Entry>)
    requires |es| > 2
    ensures !LogDepth(Spine(es), |es|)
  {
    SpineInOrder(es);
    Pow2Exceeds(|es| - 2);
  }

  /** The list is left where the count is 0, by wrapping or for want of nodes, or memory is. */
  lemma RebalancedIs(t: Tree, memory: bool)
    requires Ordered(t)
    ensures Count(t) <= |InOrder(t)| <= KEYS
    ensures Rebalanced(t, memory)
            == if !memory || |InOrder(t)| == 0 || |InOrder(t)| == KEYS then Spine(InOrder(t)) else Balanced(InOrder(t))
  {
    hide Balanced, Spine, InOrder, Count, Sorted;
    var es := InOrder(t);
    CountWraps(t);
    SortedIsSmall(es);
    ModSmall(|es|);
    assert es[..|es|] == es;
  }

  lemma ModSmall(n: nat)
    requires n <= KEYS
    ensures n % KEYS == if n == KEYS then 0 else n
  {
  }

  /** Balancing keeps the in-order sequence of every tree. */
  lemma BalanceKeepsEntries(t: Tree, memory: bool)
    requires Ordered(t)
    ensures Count(t) <= |InOrder(t)| && InOrder(Rebalanced(t, memory)) == InOrder(t)
  {
    hide Balanced, Spine, InOrder, Count, Sorted;
    RebalancedIs(t, memory);
    SpineInOrder(InOrder(t));
    BalancedInOrder(InOrder(t));
  }

  /** The depth is logarithmic exactly for fewer than 2^32 entries, the one size of a set of disjoint
      intervals at which the count wraps; there, and without memory, the tree becomes a list. */
  lemma BalanceGivesDepth(t: Tree, memory: bool)
    requires Ordered(t) && InOrder(t) != []
    ensures Count(t) <= |InOrder(t)|
    ensures memory ==> (LogDepth(Rebalanced(t, memory), |InOrder(t)|) <==> |InOrder(t)| < KEYS)
    ensures |InOrder(t)| == KEYS || !memory ==> Depth(Rebalanced(t, memory)) == |InOrder(t)|
  {
    hide Balanced, Spine, InOrder, Count, Sorted, Pow2, Depth, Rebalanced;
    RebalancedIs(t, memory);
    SpineInOrder(InOrder(t));
    BalancedDepth(InOrder(t));
    BalancedIsNotNil(InOrder(t));
    if |InOrder(t)| == KEYS { SpineIsDeep(InOrder(t)); }
  }

  lemma BalancedIsNotNil(es: seq<Entry>)
    ensures es != [] ==> Depth(Balanced(es)) > 0
  {
  }

  /** Hence balancing keeps the map and every lookup. */
  lemma BalanceKeepsContents(t: Tree, memory: bool, k: Key)
    requires Ordered(t)
    ensures Count(t) <= |InOrder(t)|
    ensures Ordered(Rebalanced(t, memory)) && Contents(Rebalanced(t, memory)) == Contents(t)
    ensures Found(Rebalanced(t, memory), k) == Found(t, k)
  {
    BalanceKeepsEntries(t, memory);
    FoundInOrder(t, k);
    FoundInOrder(Rebalanced(t, memory), k);
  }

  /** The population at which the count wraps is reached, by one entry for every key: balancing
      then makes a list as deep as it has entries out of a tree of logarithmic depth. */
  lemma FullTreeBecomesList(v: Ptr)
    ensures var t := Balanced(seq(KEYS, k requires 0 <= k < KEYS => Entry(Interval(k, k), v)));
            Ordered(t) && |InOrder(t)| == KEYS && Count(t) == 0 && LogDepth(t, KEYS)
            && InOrder(Rebalanced(t, true)) == InOrder(t) && Depth(Rebalanced(t, true)) == KEYS
  {
    hide InOrder, Count, Spine;
    var es := seq(KEYS, k requires 0 <= k < KEYS => Entry(Interval(k, k), v));
    var t := Balanced(es);
    BalancedInOrder(es);
    CountWraps(t);
    BalancedDepth(es);
    hide Balanced, Depth, Pow2;
    BalanceKeepsEntries(t, true);
    BalanceGivesDepth(t, true);
  }

  /** A balanced tree is no deeper than any tree with the same entries. */
  lemma BalancedIsShallowest(t: Tree)
    ensures |InOrder(t)| < Pow2(Depth(t))
    ensures Depth(Balanced(InOrder(t))) <= Depth(t)
  {
    hide Pow2, InOrder;
    DepthBoundsPopulation(t);
    BalancedDepth(InOrder(t));
    if Depth(Balanced(InOrder(t))) > Depth(t) {
      Pow2Monotone(Depth(t), Depth(Balanced(InOrder(t))) - 1);
    }
  }

  lemma {:induction false} DepthBoundsPopulation(t: Tree)
    ensures |InOrder(t)| < Pow2(Depth(t))
  {
    if t.Bin? {
      DepthBoundsPopulation(t.left);
      DepthBoundsPopulation(t.right);
      Pow2Monotone(Depth(t.left), Depth(t) - 1);
      Pow2Monotone(Depth(t.right), Depth(t) - 1);
    }
  }
}

/** The unbalanced pointer tree of libdank/objects/intervaltree.c.  A caller's
    `interval_tree **` is an in- and out-parameter pair of a node reference; the ghost
    Shape that goes with it says which nodes make up the tree and how they hang together. */
module IntervalTree {
  import opened IntervalEntries
  import opened IntervalTrees

  class Node {
    var l: Node?
    var r: Node?
    var ival: Interval
    var data: Ptr

    constructor (ival: Interval, v: Ptr)
      ensures l == null && r == null && this.ival == ival && data == v
    {
      l, r := null, null;
      this.ival := ival;
      data := v;
    }
  }

  datatype Shape = Empty | At(left: Shape, node: Node, right: Shape)

  ghost function Nodes(t: Shape): set<Node> {
    match t
    case Empty => {}
    case At(l, n, r) => Nodes(l) + {n} + Nodes(r)
  }

  /** No node occurs twice in the shape. */
  ghost predicate Distinct(t: Shape) {
    t.At? ==>
      && Distinct(t.left) && Distinct(t.right)
      && t.node !in Nodes(t.left) && t.node !in Nodes(t.right) && Nodes(t.left) !! Nodes(t.right)
  }

  /** The pointers starting at root spell out the shape. */
  ghost predicate Linked(root: Node?, t: Shape)
    reads Nodes(t)`l, Nodes(t)`r
  {
    match t
    case Empty => root == null
    case At(l, n, r) => root == n && Linked(n.l, l) && Linked(n.r, r)
  }

  ghost predicate Valid(root: Node?, t: Shape)
    reads Nodes(t)`l, Nodes(t)`r
  {
    Distinct(t) && Linked(root, t)
  }

  /** The tree value that the nodes hold. */
  ghost function View(t: Shape): Tree
    reads Nodes(t)`ival, Nodes(t)`data
  {
    match t
    case Empty => Nil
    case At(l, n, r) => Bin(View(l), Entry(n.ival, n.data), View(r))
  }

  /** Nodes of a shape that is already at hand are not fresh to a later call. */
  lemma NodesExist(t: Shape)
    ensures forall n :: n in Nodes(t) ==> allocated(n)
  {
    if t.At? {
      NodesExist(t.left);
      NodesExist(t.right);
    }
  }

  method Insert(root: Node?, ghost t: Shape, ival: Interval, v: Ptr)
    returns (root': Node?, ret: int, ghost t': Shape)
    requires Valid(root, t)
    modifies Nodes(t)
    ensures Valid(root', t') && fresh(Nodes(t') - Nodes(t))
    ensures Outcome(View(t'), ret, []) == Inserted(old(View(t)), Entry(ival, v))
    decreases t
  {
    if root != null {
      NodesExist(t);
      root', t' := root, t;
      if ival.ubound < root.ival.lbound {
        var l, rc, tl := Insert(root.l, t.left, ival, v);
        root.l := l;
        assert View(t.right) == old(View(t.right));
        ret, t' := rc, At(tl, root, t.right);
      } else if root.ival.ubound < ival.lbound {
        var r, rc, tr := Insert(root.r, t.right, ival, v);
        root.r := r;
        assert View(t.left) == old(View(t.left));
        ret, t' := rc, At(t.left, root, tr);
      } else {
        ret := -1;
      }
    } else {
      var n := new Node(ival, v);
      root', ret, t' := n, 0, At(Empty, n, Empty);
    }
  }

  method Replace(root: Node?, ghost t: Shape, ival: Interval, v: Ptr, hasFree: bool)
    returns (root': Node?, ret: int, freed: seq<Ptr>, ghost t': Shape)
    requires Valid(root, t)
    modifies Nodes(t)
    ensures Valid(root', t') && fresh(Nodes(t') - Nodes(t))
    ensures Outcome(View(t'), ret, freed) == Replaced(old(View(t)), Entry(ival, v), hasFree)
    decreases t
  {
    if root != null {
      NodesExist(t);
      root', t', freed := root, t, [];
      if ival.ubound < root.ival.lbound {
        var l, rc, f, tl := Replace(root.l, t.left, ival, v, hasFree);
        root.l := l;
        assert View(t.right) == old(View(t.right));
        ret, freed, t' := rc, f, At(tl, root, t.right);
      } else if root.ival.ubound < ival.lbound {
        var r, rc, f, tr := Replace(root.r, t.right, ival, v, hasFree);
        root.r := r;
        assert View(t.left) == old(View(t.left));
        ret, freed, t' := rc, f, At(t.left, root, tr);
      } else if root.ival == ival {
        if hasFree {
          freed := [root.data];
        }
        root.data := v;
        ret := 0;
      } else {
        ret := -1;
      }
    } else {
      var n := new Node(ival, v);
      root', ret, freed, t' := n, 0, [], At(Empty, n, Empty);
    }
  }

  ghost function LeftmostNode(t: Shape): Node
    requires t.At?
  {
    if t.left.Empty? then t.node else LeftmostNode(t.left)
  }

  ghost function AttachedShape(r: Shape, l: Shape): Shape
    requires r.At?
  {
    if r.left.Empty? then At(l, r.node, r.right)
    else At(AttachedShape(r.left, l), r.node, r.right)
  }

  /** Valid, except that the left link of the leftmost node is not looked at. */
  ghost predicate ValidButHole(root: Node?, r: Shape)
    requires r.At?
    reads (Nodes(r) - {LeftmostNode(r)})`l, Nodes(r)`r
  {
    && root == r.node
    && r.node !in Nodes(r.left) && r.node !in Nodes(r.right) && Nodes(r.left) !! Nodes(r.right)
    && LeftmostNode(r) !in Nodes(r.right) && Valid(r.node.r, r.right)
    && (r.left.At? ==> LeftmostNode(r.left) in Nodes(r.left) && ValidButHole(r.node.l, r.left))
  }

  lemma HoleInValid(root: Node?, r: Shape)
    requires r.At? && Valid(root, r)
    ensures LeftmostNode(r) in Nodes(r) && LeftmostNode(r).l == null
    ensures ValidButHole(root, r)
  {
    assert Linked(r.node.l, r.left);
    if r.left.At? { HoleInValid(r.node.l, r.left); }
  }

  lemma FillHole(root: Node?, r: Shape, lroot: Node?, l: Shape)
    requires r.At? && ValidButHole(root, r) && Valid(lroot, l) && Nodes(r) !! Nodes(l)
    requires LeftmostNode(r).l == lroot
    ensures Valid(root, AttachedShape(r, l))
    ensures Nodes(AttachedShape(r, l)) == Nodes(r) + Nodes(l)
    ensures View(AttachedShape(r, l)) == Attached(View(r), View(l))
  {
    if r.left.At? { FillHole(r.node.l, r.left, lroot, l); }
  }

  /** Take the root node out; the walk finds the leftmost node of the right side. */
  method SpliceOut(root: Node, ghost t: Shape) returns (root': Node?, ghost t': Shape)
    requires Valid(root, t)
    modifies Nodes(t)
    ensures Valid(root', t') && Nodes(t') == Nodes(t) - {root}
    ensures View(t') == Spliced(old(View(t)))
  {
    var l, r := root.l, root.r;
    ghost var ls, rs := t.left, t.right;
    assert Linked(l, ls) && Linked(r, rs);
    root', t' := r, rs;
    if l != null {
      if r != null {
        ghost var s := rs;
        while r.l != null
          invariant r != null && s.At? && Valid(r, s) && LeftmostNode(s) == LeftmostNode(rs)
          decreases s
        {
          assert Linked(r.l, s.left);
          r, s := r.l, s.left;
        }
        assert Linked(r.l, s.left);
        HoleInValid(root', rs);
        r.l := l;
        FillHole(root', rs, l, ls);
        t' := AttachedShape(rs, ls);
      } else {
        root', t' := l, ls;
      }
    }
  }

  method Remove(root: Node?, ghost t: Shape, ival: Interval, hasFree: bool)
    returns (root': Node?, ret: int, freed: seq<Ptr>, ghost t': Shape)
    requires Valid(root, t)
    modifies Nodes(t)
    ensures Valid(root', t') && Nodes(t') <= Nodes(t)
    ensures View(t') == Removed(old(View(t)), ival).tree
    ensures ret == Removed(old(View(t)), ival).ret
    ensures freed == if hasFree then Removed(old(View(t)), ival).released else []
    decreases t
  {
    hide Spliced;
    root', ret, freed, t' := root, -1, [], t;
    if root != null {
      NodesExist(t);
      if ival.ubound < root.ival.lbound {
        var l, rc, f, tl := Remove(root.l, t.left, ival, hasFree);
        root.l := l;
        assert View(t.right) == old(View(t.right));
        ret, freed, t' := rc, f, At(tl, root, t.right);
      } else if root.ival.ubound < ival.lbound {
        var r, rc, f, tr := Remove(root.r, t.right, ival, hasFree);
        root.r := r;
        assert View(t.left) == old(View(t.left));
        ret, freed, t' := rc, f, At(t.left, root, tr);
      } else if root.ival == ival {
        if hasFree {
          freed := [root.data];
        }
        root', t' := SpliceOut(root, t);
        ret := 0;
      }
    }
  }

  /** The same removal, handing the data back; v is what *v holds before the call. */
  method Extract(root: Node?, ghost t: Shape, ival: Interval, v: Ptr)
    returns (root': Node?, ret: int, v': Ptr, ghost t': Shape)
    requires Valid(root, t)
    modifies Nodes(t)
    ensures Valid(root', t') && Nodes(t') <= Nodes(t)
    ensures View(t') == Removed(old(View(t)), ival).tree
    ensures ret == Removed(old(View(t)), ival).ret
    ensures [v'] == if ret == 0 then Removed(old(View(t)), ival).released else [v]
    decreases t
  {
    root', ret, v', t' := root, -1, v, t;
    if root != null {
      NodesExist(t);
      if ival.ubound < root.ival.lbound {
        var l, rc, d, tl := Extract(root.l, t.left, ival, v);
        root.l := l;
        assert View(t.right) == old(View(t.right));
        ret, v', t' := rc, d, At(tl, root, t.right);
      } else if root.ival.ubound < ival.lbound {
        var r, rc, d, tr := Extract(root.r, t.right, ival, v);
        root.r := r;
        assert View(t.left) == old(View(t.left));
        ret, v', t' := rc, d, At(t.left, root, tr);
      } else if root.ival == ival {
        v' := root.data;
        root', t' := SpliceOut(root, t);
        ret := 0;
      }
    }
  }

  method Lookup(root: Node?, ghost t: Shape, key: Key) returns (v: Ptr)
    requires Valid(root, t)
    ensures v == Found(View(t), key)
    decreases t
  {
    if root == null { return NULL; }
    if root.ival.lbound <= key <= root.ival.ubound {
      v := root.data;
    } else if key < root.ival.lbound {
      v := Lookup(root.l, t.left, key);
    } else {
      v := Lookup(root.r, t.right, key);
    }
  }

  method Population(root: Node?, ghost t: Shape) returns (n: nat)
    requires Valid(root, t)
    ensures n == Count(View(t))
    decreases t
  {
    if root == null { return 0; }
    NodesExist(t);
    NodesExist(t.right);
    ghost var v := View(t);
    var l := Population(root.l, t.left);
    var r := Population(root.r, t.right);
    n := (l + r + 1) % KEYS;
    assert View(t) == v;
  }

  /** Free every node, calling back once per node. */
  method Free(root: Node?, ghost t: Shape, hasFree: bool) returns (freed: seq<Ptr>)
    requires Valid(root, t)
    ensures freed == if hasFree then PreOrderData(View(t)) else []
    decreases t
  {
    freed := [];
    if root != null {
      NodesExist(t);
      NodesExist(t.right);
      ghost var v := View(t);
      if hasFree {
        freed := [root.data];
      }
      var l := Free(root.l, t.left, hasFree);
      var r := Free(root.r, t.right, hasFree);
      freed := freed + l + r;
      assert View(t) == v;
    }
  }

  // ----- balancing

  /** The nodes in order. */
  ghost function NodeList(t: Shape): seq<Node> {
    match t
    case Empty => []
    case At(l, n, r) => NodeList(l) + [n] + NodeList(r)
  }

  /** A list threaded through the right links of its nodes up to end, with empty left links. */
  ghost predicate Threaded(head: Node?, ns: seq<Node>, end: Node?)
    reads Elems(ns)`l, Elems(ns)`r
  {
    && head == (if ns == [] then end else ns[0])
    && (forall i :: 0 <= i < |ns| ==> ns[i].l == null)
    && (forall i :: 0 <= i < |ns| - 1 ==> ns[i].r == ns[i + 1])
    && (ns != [] ==> ns[|ns| - 1].r == end)
  }

  lemma ThreadJoin(head: Node?, ls: seq<Node>, cur: Node, rs: seq<Node>)
    requires Threaded(head, ls, cur) && cur.l == null && Threaded(cur.r, rs, null)
    ensures Threaded(head, ls + [cur] + rs, null)
  {
    var ns := ls + [cur] + rs;
    assert ns[|ls|] == cur;
    assert forall i :: |ls| < i < |ns| ==> ns[i] == rs[i - |ls| - 1];
    forall i | 0 <= i < |ns| - 1 ensures ns[i].r == ns[i + 1] {
      if i < |ls| - 1 { assert ls[i].r == ls[i + 1]; }
      if i > |ls| { assert rs[i - |ls| - 1].r == rs[i - |ls|]; }
    }
  }

  ghost function Elems(ns: seq<Node>): set<Node> { set n | n in ns }

  lemma NodeListIsNodes(t: Shape)
    ensures Nodes(t) == Elems(NodeList(t))
  {
    if t.At? {
      NodeListIsNodes(t.left);
      NodeListIsNodes(t.right);
    }
  }

  ghost predicate NoDup(ns: seq<Node>) {
    forall i, j :: 0 <= i < j < |ns| ==> ns[i] != ns[j]
  }

  lemma NoDupParts(a: seq<Node>, n: Node, b: seq<Node>)
    ensures NoDup(a + [n] + b) <==>
              NoDup(a) && NoDup(b) && n !in Elems(a) && n !in Elems(b) && Elems(a) !! Elems(b)
  {
    var ns := a + [n] + b;
    assert ns[|a|] == n;
    assert forall i :: 0 <= i < |a| ==> ns[i] == a[i];
    assert forall i :: |a| < i < |ns| ==> ns[i] == b[i - |a| - 1];
    if NoDup(ns) {
      forall i | 0 <= i < |a|
        ensures a[i] != n
        ensures forall k :: 0 <= k < i ==> a[k] != a[i]
      {
        assert ns[i] == a[i];
      }
      forall j | 0 <= j < |b|
        ensures b[j] != n
        ensures forall i :: 0 <= i < |a| ==> a[i] != b[j]
        ensures forall k :: 0 <= k < j ==> b[k] != b[j]
      {
        assert ns[|a| + 1 + j] == b[j];
        forall k | 0 <= k < j ensures b[k] != b[j] {
          assert ns[|a| + 1 + k] == b[k];
        }
      }
    } else {
      var i, j :| 0 <= i < j < |ns| && ns[i] == ns[j];
      assert i < |a| ==> ns[i] in Elems(a);
      assert j > |a| ==> ns[j] in Elems(b);
    }
  }

  lemma DistinctIsNoDup(t: Shape)
    ensures Distinct(t) <==> NoDup(NodeList(t))
  {
    if t.At? {
      DistinctIsNoDup(t.left);
      DistinctIsNoDup(t.right);
      NodeListIsNodes(t.left);
      NodeListIsNodes(t.right);
      NoDupParts(NodeList(t.left), t.node, NodeList(t.right));
    }
  }

  /** Turn the tree into a sorted list; last is the node whose right link ends it. */
  method Linearize(root: Node?, ghost t: Shape) returns (head: Node?, last: Node?)
    requires Valid(root, t)
    modifies Nodes(t)`l, Nodes(t)`r
    ensures Threaded(head, NodeList(t), null)
    ensures last == (if t.Empty? then null else NodeList(t)[|NodeList(t)| - 1])
    ensures last != null ==> last in Nodes(t)
    decreases t, 0
  {
    if root == null { return null, null; }
    NodesExist(t);
    NodeListIsNodes(t.left);
    head := LinearizeLeft(root, t.left);
    last := LinearizeRight(root, t.right);
    assert Threaded(head, NodeList(t.left), root) && root.l == null && Threaded(root.r, NodeList(t.right), null);
    hide Distinct, Linked, Threaded;
    ThreadJoin(head, NodeList(t.left), root, NodeList(t.right));
  }

  /** The left side of cur as a list in front of cur. */
  method LinearizeLeft(cur: Node, ghost l: Shape) returns (head: Node)
    requires Valid(cur.l, l) && cur !in Nodes(l)
    modifies Nodes(l)`l, Nodes(l)`r, cur`l
    ensures Threaded(head, NodeList(l), cur) && cur.l == null
    decreases l, 1
  {
    NodeListIsNodes(l);
    DistinctIsNoDup(l);
    head := cur;
    var h, join := Linearize(cur.l, l);
    cur.l := h;
    if join != null {
      head := cur.l;
      cur.l := null;
      join.r := cur;
    }
  }

  /** The right side of cur as a list after cur. */
  method LinearizeRight(cur: Node, ghost r: Shape) returns (last: Node)
    requires Valid(cur.r, r) && cur !in Nodes(r)
    modifies Nodes(r)`l, Nodes(r)`r, cur`r
    ensures Threaded(cur.r, NodeList(r), null)
    ensures last == (if r.Empty? then cur else NodeList(r)[|NodeList(r)| - 1])
    ensures last in Nodes(r) + {cur}
    decreases r, 1
  {
    NodeListIsNodes(r);
    var h, join := Linearize(cur.r, r);
    cur.r := h;
    last := if join == null then cur else join;
  }

  /** The first count nodes of the list, as a vector; NULL if Malloc refuses, as it does size 0. */
  method Vectorize(head: Node?, ghost ns: seq<Node>, count: nat, memory: bool) returns (vec: array?<Node?>)
    requires Threaded(head, ns, null) && count <= |ns|
    ensures vec == null <==> count == 0 || !memory
    ensures vec != null ==> fresh(vec) && vec.Length == count && forall i :: 0 <= i < count ==> vec[i] == ns[i]
  {
    if count == 0 || !memory { return null; }
    var ret := new Node?[count];
    var it := head;
    for i := 0 to count
      invariant i < |ns| ==> it == ns[i]
      invariant forall j :: 0 <= j < i ==> ret[j] == ns[j]
    {
      ret[i] := it;
      it := it.r;
    }
    return ret;
  }

  ghost function BalancedShape(ns: seq<Node>): Shape
    decreases |ns|
  {
    if ns == [] then Empty
    else
      var m := |ns| / 2;
      At(BalancedShape(ns[..m]), ns[m], BalancedShape(ns[m + 1..]))
  }

  lemma BalancedShapeList(ns: seq<Node>)
    ensures NodeList(BalancedShape(ns)) == ns
    decreases |ns|
  {
    if ns != [] {
      var m := |ns| / 2;
      BalancedShapeList(ns[..m]);
      BalancedShapeList(ns[m + 1..]);
      MiddleOut(ns, m);
    }
  }

  lemma MiddleOut(ns: seq<Node>, m: nat)
    requires m < |ns|
    ensures ns == ns[..m] + [ns[m]] + ns[m + 1..]
  {
  }

  /** Build a balanced tree from the vector's nodes lo .. lo + count. */
  method Bbstize(vec: array<Node?>, lo: nat, count: nat, ghost ns: seq<Node>) returns (root: Node?)
    requires lo + count <= vec.Length && |ns| == count
    requires forall i :: 0 <= i < count ==> vec[lo + i] == ns[i]
    requires Distinct(BalancedShape(ns))
    modifies Nodes(BalancedShape(ns))`l, Nodes(BalancedShape(ns))`r
    ensures Valid(root, BalancedShape(ns))
    decreases count
  {
    if count == 0 { return null; }
    var m := count / 2;
    ghost var ls, rs := ns[..m], ns[m + 1..];
    NodesExist(BalancedShape(ns));
    root := vec[lo + m];
    assert root == ns[m];
    var l := Bbstize(vec, lo, m, ls);
    root.l := l;
    var r := Bbstize(vec, lo + m + 1, count - m - 1, rs);
    root.r := r;
  }

  /** The nodes hold the entries, one for one. */
  ghost predicate Hold(ns: seq<Node>, es: seq<Entry>)
    reads Elems(ns)`ival, Elems(ns)`data
  {
    |ns| == |es| && forall i :: 0 <= i < |ns| ==> es[i] == Entry(ns[i].ival, ns[i].data)
  }

  lemma ViewOfList(t: Shape)
    ensures Hold(NodeList(t), InOrder(View(t)))
  {
  }

  lemma ViewOfBalanced(ns: seq<Node>, es: seq<Entry>)
    requires Hold(ns, es)
    ensures View(BalancedShape(ns)) == Balanced(es)
    decreases |ns|
  {
    if ns != [] {
      var m := |ns| / 2;
      ViewOfBalanced(ns[..m], es[..m]);
      ViewOfBalanced(ns[m + 1..], es[m + 1..]);
    }
  }

  /** A list as a tree. */
  ghost function SpineShape(ns: seq<Node>): Shape {
    if ns == [] then Empty else At(Empty, ns[0], SpineShape(ns[1..]))
  }

  lemma SpineShapeList(ns: seq<Node>)
    ensures NodeList(SpineShape(ns)) == ns
  {
    if ns != [] {
      SpineShapeList(ns[1..]);
      assert ns == [] + [ns[0]] + ns[1..];
    }
  }

  lemma ViewOfSpine(ns: seq<Node>, es: seq<Entry>)
    requires Hold(ns, es)
    ensures View(SpineShape(ns)) == Spine(es)
  {
    if ns != [] { ViewOfSpine(ns[1..], es[1..]); }
  }

  lemma ThreadIsLinked(head: Node?, ns: seq<Node>)
    requires Threaded(head, ns, null)
    ensures Linked(head, SpineShape(ns))
  {
    if ns != [] {
      assert ns[0].r == if |ns| == 1 then null else ns[1];
      ThreadIsLinked(ns[0].r, ns[1..]);
    }
  }

  /** The shape that balancing will leave. */
  ghost function Target(t: Shape, memory: bool): Shape
    reads Nodes(t)`ival, Nodes(t)`data
    requires Count(View(t)) <= |NodeList(t)|
  {
    if Count(View(t)) == 0 || !memory then SpineShape(NodeList(t)) else BalancedShape(NodeList(t)[..Count(View(t))])
  }

  lemma TargetList(t: Shape, memory: bool)
    requires Count(View(t)) <= |NodeList(t)|
    ensures NodeList(Target(t, memory))
            == if Count(View(t)) == 0 || !memory then NodeList(t) else NodeList(t)[..Count(View(t))]
  {
    SpineShapeList(NodeList(t));
    BalancedShapeList(NodeList(t)[..Count(View(t))]);
  }

  lemma TargetIsRebalanced(t: Shape, memory: bool)
    requires Distinct(t)
    ensures Count(View(t)) <= |NodeList(t)| == |InOrder(View(t))|
    ensures View(Target(t, memory)) == Rebalanced(View(t), memory)
  {
    var n, ns, es := Count(View(t)), NodeList(t), InOrder(View(t));
    CountWraps(View(t));
    ViewOfList(t);
    ViewOfBalanced(ns[..n], es[..n]);
    ViewOfSpine(ns, es);
  }

  lemma TargetHasNodes(t: Shape, memory: bool)
    requires Distinct(t) && Count(View(t)) <= |NodeList(t)|
    ensures Distinct(Target(t, memory)) && Nodes(Target(t, memory)) <= Nodes(t)
    ensures Count(View(t)) == |NodeList(t)| || Count(View(t)) == 0 ==> Nodes(Target(t, memory)) == Nodes(t)
  {
    TargetList(t, memory);
    DistinctIsNoDup(t);
    DistinctIsNoDup(Target(t, memory));
    NodeListIsNodes(t);
    NodeListIsNodes(Target(t, memory));
    hide Target, Nodes, Distinct, NodeList, Count, View;
    var n, ns := Count(View(t)), NodeList(t);
    if n == |ns| { assert ns[..n] == ns; }
  }

  /** The list becomes the tree, if the vector is granted. */
  method Rebuild(head: Node?, ghost all: seq<Node>, count: nat, memory: bool) returns (root: Node?)
    requires Threaded(head, all, null) && count <= |all|
    requires Distinct(SpineShape(all)) && Distinct(BalancedShape(all[..count]))
    modifies Nodes(BalancedShape(all[..count]))`l, Nodes(BalancedShape(all[..count]))`r
    ensures Valid(root, if count == 0 || !memory then SpineShape(all) else BalancedShape(all[..count]))
  {
    root := head;
    var tmp := Vectorize(root, all, count, memory);
    ThreadIsLinked(root, all);
    if tmp != null {
      root := Bbstize(tmp, 0, count, all[..count]);
    }
  }

  method Relink(root: Node?, ghost t: Shape, memory: bool) returns (root': Node?)
    requires Valid(root, t) && Count(View(t)) <= |NodeList(t)|
    modifies Nodes(t)`l, Nodes(t)`r
    ensures Valid(root', old(Target(t, memory)))
  {
    NodesExist(t);
    ghost var all := NodeList(t);
    BalancedNodes(t);
    var upop := Population(root, t);
    var head, _ := Linearize(root, t);
    root' := Rebuild(head, all, upop, memory);
  }

  /** Rebuild the tree with the same nodes, root in the middle, or leave the list. */
  method Balance(root: Node?, ghost t: Shape, memory: bool) returns (root': Node?, ghost t': Shape)
    requires Valid(root, t)
    modifies Nodes(t)`l, Nodes(t)`r
    ensures Valid(root', t') && Nodes(t') <= Nodes(t)
    ensures Ordered(old(View(t))) ==> Nodes(t') == Nodes(t)
    ensures Count(old(View(t))) <= |InOrder(old(View(t)))|
    ensures View(t') == Rebalanced(old(View(t)), memory)
  {
    NodesExist(t);
    TargetIsRebalanced(t, memory);
    TargetHasNodes(t, memory);
    if Ordered(View(t)) { OrderedCount(View(t)); }
    t' := Target(t, memory);
    root' := Relink(root, t, memory);
  }

  lemma OrderedCount(v: Tree)
    requires Ordered(v)
    ensures Count(v) == |InOrder(v)| || Count(v) == 0
  {
    CountWraps(v);
    SortedIsSmall(InOrder(v));
  }

  /** The shapes of both outcomes are made of the nodes at hand. */
  lemma BalancedNodes(t: Shape)
    requires Distinct(t) && Count(View(t)) <= |NodeList(t)|
    ensures var ns := NodeList(t)[..Count(View(t))];
      Distinct(SpineShape(NodeList(t))) && Distinct(BalancedShape(ns)) && Nodes(BalancedShape(ns)) <= Nodes(t)
  {
    TargetHasNodes(t, true);
    TargetHasNodes(t, false);
    if Count(View(t)) == 0 { assert NodeList(t)[..0] == []; }
  }
}

/** Whole uses of a tree, told in bounds and data alone. */
module IntervalRuns {
  import opened IntervalEntries
  import opened IntervalTrees
  import opened IntervalTree

  /** Two intervals have a key in common. */
  predicate Crosses(a: Interval, b: Interval) { a.lbound <= b.ubound && b.lbound <= a.ubound }

  /** What each insertion gave: -1 exactly if an earlier one that gave 0 is crossed. */
  ghost predicate Judged(es: seq<Entry>, rets: seq<int>) {
    |rets| <= |es| && forall i :: 0 <= i < |rets| ==>
      rets[i] == if exists j :: 0 <= j < i && rets[j] == 0 && Crosses(es[j].ival, es[i].ival) then -1 else 0
  }

  /** The map holds exactly the entries whose insertion gave 0. */
  ghost predicate Kept(es: seq<Entry>, rets: seq<int>, m: map<Interval, Ptr>) {
    && |rets| <= |es|
    && (forall iv :: iv in m ==> exists j :: 0 <= j < |rets| && rets[j] == 0 && es[j].ival == iv)
    && (forall j :: 0 <= j < |rets| && rets[j] == 0 ==> es[j].ival in m && m[es[j].ival] == es[j].data)
  }

  lemma CrossesIs(a: Interval, b: Interval)
    requires a.lbound <= a.ubound && b.lbound <= b.ubound
    ensures a.Overlaps(b) <==> Crosses(a, b)
  {
    OverlapsIffUnordered(a, b);
  }

  lemma JudgedNext(es: seq<Entry>, rets: seq<int>, m: map<Interval, Ptr>, r: int)
    requires Judged(es, rets) && Kept(es, rets, m) && |rets| < |es|
    requires forall i :: 0 <= i < |es| ==> es[i].ival.lbound <= es[i].ival.ubound
    requires r == if exists iv :: iv in m && iv.Overlaps(es[|rets|].ival) then -1 else 0
    ensures Judged(es, rets + [r])
    ensures r == 0 ==> es[|rets|].ival !in m
  {
    hide Interval.Overlaps;
    var n := |rets|;
    forall j | 0 <= j <= n ensures es[j].ival.Overlaps(es[n].ival) <==> Crosses(es[j].ival, es[n].ival) {
      CrossesIs(es[j].ival, es[n].ival);
    }
    if j :| 0 <= j < n && rets[j] == 0 && Crosses(es[j].ival, es[n].ival) {
      assert es[j].ival in m && es[j].ival.Overlaps(es[n].ival);
      assert (rets + [r])[j] == 0;
    }
  }

  lemma KeptNext(es: seq<Entry>, rets: seq<int>, m: map<Interval, Ptr>, r: int)
    requires Kept(es, rets, m) && |rets| < |es| && (r == 0 ==> es[|rets|].ival !in m) && (r == 0 || r == -1)
    ensures var e := es[|rets|]; Kept(es, rets + [r], if r == 0 then m[e.ival := e.data] else m)
  {
    var n, rets' := |rets|, rets + [r];
    var m' := if r == 0 then m[es[n].ival := es[n].data] else m;
    forall iv | iv in m' ensures exists j :: 0 <= j < n + 1 && rets'[j] == 0 && es[j].ival == iv {
      if iv in m {
        var j :| 0 <= j < n && rets[j] == 0 && es[j].ival == iv;
        assert rets'[j] == 0;
      } else {
        assert rets'[n] == 0;
      }
    }
  }

  method InsertNext(root: Node?, ghost t: Shape, es: seq<Entry>, rets: seq<int>)
    returns (root': Node?, r: int, ghost t': Shape)
    requires Valid(root, t) && Ordered(View(t)) && |rets| < |es|
    requires forall i :: 0 <= i < |es| ==> es[i].ival.lbound <= es[i].ival.ubound
    requires Judged(es, rets) && Kept(es, rets, Contents(View(t)))
    modifies Nodes(t)
    ensures Valid(root', t') && Ordered(View(t')) && fresh(Nodes(t') - Nodes(t))
    ensures Judged(es, rets + [r]) && Kept(es, rets + [r], Contents(View(t')))
  {
    hide *;
    var e := es[|rets|];
    ghost var v := View(t);
    root', r, t' := Insert(root, t, e.ival, e.data);
    IsEntry(e);
    InsertRefinesMap(v, e);
    JudgedNext(es, rets, Contents(v), r);
    KeptNext(es, rets, Contents(v), r);
  }

  lemma IsEntry(e: Entry)
    requires e.ival.lbound <= e.ival.ubound
    ensures e == Entry(e.ival, e.data) && e.ival.Proper()
  {
  }

  /** Insert each in turn. */
  method InsertAll(es: seq<Entry>) returns (root: Node?, rets: seq<int>, ghost t: Shape)
    requires forall i :: 0 <= i < |es| ==> es[i].ival.lbound <= es[i].ival.ubound
    ensures Valid(root, t) && fresh(Nodes(t)) && Ordered(View(t)) && |rets| == |es|
    ensures Judged(es, rets) && Kept(es, rets, Contents(View(t)))
  {
    hide *;
    root, rets, t := null, [], Shape.Empty;
    EmptyHolds(es);
    for n := 0 to |es|
      invariant |rets| == n && (forall x :: x in Nodes(t) ==> fresh(x)) && Valid(root, t) && Ordered(View(t))
      invariant Judged(es, rets) && Kept(es, rets, Contents(View(t)))
    {
      ghost var had := Nodes(t);
      var r;
      root, r, t := InsertNext(root, t, es, rets);
      forall x | x in Nodes(t) ensures fresh(x) { assert x in had || x in Nodes(t) - had; }
      rets := rets + [r];
    }
  }

  lemma EmptyHolds(es: seq<Entry>)
    ensures Valid(null, Shape.Empty) && Nodes(Shape.Empty) == {} && Ordered(View(Shape.Empty))
    ensures Judged(es, []) && Kept(es, [], Contents(View(Shape.Empty)))
  {
  }

  /** Insert each in turn, balance if asked to, remove one interval, and look a key up: -1 for each
      insertion that crosses one accepted earlier; the removal finds exactly an interval that was
      accepted; and the data looked up is that of the accepted interval around the key, unless it
      was removed, or NULL. */
  method InsertAllThenLookup(es: seq<Entry>, balance: bool, gone: Interval, key: Key)
    returns (rets: seq<int>, removed: int, freed: seq<Ptr>, found: Ptr)
    requires forall i :: 0 <= i < |es| ==> es[i].ival.lbound <= es[i].ival.ubound
    requires gone.lbound <= gone.ubound
    ensures |rets| == |es| && forall i :: 0 <= i < |es| ==>
      rets[i] == if exists j :: 0 <= j < i && rets[j] == 0 && Crosses(es[j].ival, es[i].ival) then -1 else 0
    ensures removed == if exists i :: 0 <= i < |es| && rets[i] == 0 && es[i].ival == gone then 0 else -1
    ensures removed == -1 ==> freed == []
    ensures forall i :: 0 <= i < |es| && rets[i] == 0 && es[i].ival == gone ==> freed == [es[i].data]
    ensures LookedUp(es, rets, gone, key, found)
  {
    hide *;
    var root;
    ghost var t;
    root, rets, t := InsertAll(es);
    ghost var v := View(t);
    if balance {
      BalanceKeepsContents(v, true, key);
      root, t := Balance(root, t, true);
    }
    ghost var w := View(t);
    RemoveRefinesMap(w, gone);
    root, removed, freed, t := Remove(root, t, gone, true);
    ghost var x := View(t);
    NodesExist(t);
    found := Lookup(root, t, key);
    assert View(t) == x;
    FoundSays(x, Contents(w) - {gone}, key, found);
    JudgedSays(es, rets);
    RemovedSays(es, rets, Contents(w), gone);
    LookedUpSays(es, rets, Contents(w), gone, key, found);
  }

  /** What a lookup gives after gone was removed. */
  ghost predicate LookedUp(es: seq<Entry>, rets: seq<int>, gone: Interval, key: Key, found: Ptr)
    requires |rets| == |es|
  {
    && (forall i :: 0 <= i < |es| && rets[i] == 0 && es[i].ival != gone && es[i].ival.lbound <= key <= es[i].ival.ubound
          ==> found == es[i].data)
    && ((forall i :: 0 <= i < |es| && rets[i] == 0 && es[i].ival.lbound <= key <= es[i].ival.ubound ==> es[i].ival == gone)
          ==> found == 0)
  }

  lemma JudgedSays(es: seq<Entry>, rets: seq<int>)
    requires Judged(es, rets) && |rets| == |es|
    ensures forall i :: 0 <= i < |es| ==>
      rets[i] == if exists j :: 0 <= j < i && rets[j] == 0 && Crosses(es[j].ival, es[i].ival) then -1 else 0
  {
    hide Crosses;
  }

  lemma FoundSays(v: Tree, m: map<Interval, Ptr>, key: Key, found: Ptr)
    requires Ordered(v) && Contents(v) == m && found == Found(v, key)
    ensures forall iv :: iv in m && iv.Holds(key) ==> found == m[iv]
    ensures (forall iv :: iv in m ==> !iv.Holds(key)) ==> found == NULL
  {
    hide *;
    LookupRefinesMap(v, key);
  }

  lemma RemovedSays(es: seq<Entry>, rets: seq<int>, m: map<Interval, Ptr>, gone: Interval)
    requires Kept(es, rets, m) && |rets| == |es|
    ensures gone in m <==> exists i :: 0 <= i < |es| && rets[i] == 0 && es[i].ival == gone
    ensures forall i :: 0 <= i < |es| && rets[i] == 0 && es[i].ival == gone ==> gone in m && m[gone] == es[i].data
  {
  }

  lemma LookedUpSays(es: seq<Entry>, rets: seq<int>, m: map<Interval, Ptr>, gone: Interval, key: Key, found: Ptr)
    requires Kept(es, rets, m) && |rets| == |es|
    requires forall iv :: iv in m - {gone} && iv.Holds(key) ==> found == (m - {gone})[iv]
    requires (forall iv :: iv in m - {gone} ==> !iv.Holds(key)) ==> found == NULL
    ensures LookedUp(es, rets, gone, key, found)
  {
    forall i | 0 <= i < |es| && rets[i] == 0 && es[i].ival != gone && es[i].ival.lbound <= key <= es[i].ival.ubound
      ensures found == es[i].data
    {
      assert es[i].ival in m - {gone} && es[i].ival.Holds(key);
    }
  }
}
